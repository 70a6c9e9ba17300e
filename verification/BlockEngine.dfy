/** The bundle auction: rank submissions by score, then take each one whose accounts are still free. */
module BlockEngine {
  import opened Core
  import opened Permutations
  import opened StableSort

  datatype BundleSubmission = BundleSubmission(bundle: Bundle, score: u64)

  /** What the auction looks at: the accounts a submission touches and its score. */
  datatype Bid = Bid(accounts: set<Pubkey>, score: u64)

  function BidsOf(submissions: seq<BundleSubmission>): (bids: seq<Bid>)
    ensures |bids| == |submissions|
  {
    seq(|submissions|, i requires 0 <= i < |submissions| =>
      Bid(submissions[i].bundle.AllAccounts(), submissions[i].score))
  }

  function Scores(bids: seq<Bid>): (keys: seq<nat>)
    ensures |keys| == |bids|
  {
    seq(|bids|, i requires 0 <= i < |bids| => bids[i].score)
  }

  ghost predicate Shares(bids: seq<Bid>, i: nat, j: nat)
    requires i < |bids| && j < |bids|
  {
    !(bids[i].accounts !! bids[j].accounts)
  }

  // ----- what the auction promises

  /** The submission ranked above `i` that takes one of its accounts. */
  ghost predicate IsBeatenBy(bids: seq<Bid>, i: nat, j: nat)
    requires i < |bids| && j < |bids|
  {
    Before(Scores(bids), j, i) && Shares(bids, j, i)
  }

  ghost predicate IsBeaten(bids: seq<Bid>, winners: set<nat>, i: nat)
    requires i < |bids| && AllBelow(winners, |bids|)
  {
    exists j :: j in winners && IsBeatenBy(bids, i, j)
  }

  /** Winners do not share accounts, and every loser shares one with a winner ranked above it. */
  ghost predicate IsOutcome(bids: seq<Bid>, winners: set<nat>) {
    && AllBelow(winners, |bids|)
    && (forall i, j :: i in winners && j in winners && i != j ==> !Shares(bids, i, j))
    && (forall i: nat :: i < |bids| && i !in winners ==> IsBeaten(bids, winners, i))
  }

  /** A submission wins exactly when no winner beats it. */
  lemma WinsUnlessBeaten(bids: seq<Bid>, winners: set<nat>, i: nat)
    requires IsOutcome(bids, winners) && i < |bids|
    ensures i in winners <==> !IsBeaten(bids, winners, i)
  {
  }

  lemma {:induction false} OutcomesAgreeAt(bids: seq<Bid>, one: set<nat>, two: set<nat>, i: nat)
    requires IsOutcome(bids, one) && IsOutcome(bids, two) && i < |bids|
    ensures i in one <==> i in two
    decreases U64_MAX - bids[i].score, i
  {
    forall j | j in Below(|bids|) && IsBeatenBy(bids, i, j) ensures j in one <==> j in two {
      OutcomesAgreeAt(bids, one, two, j);
    }
    WinsUnlessBeaten(bids, one, i);
    WinsUnlessBeaten(bids, two, i);
  }

  /** The two conditions leave exactly one set of winners. */
  lemma OutcomeIsUnique(bids: seq<Bid>, one: set<nat>, two: set<nat>)
    requires IsOutcome(bids, one) && IsOutcome(bids, two)
    ensures one == two
  {
    forall i | i in Below(|bids|) ensures i in one <==> i in two {
      OutcomesAgreeAt(bids, one, two, i);
    }
  }

  // ----- the greedy selection, by position in rank order

  ghost predicate Blocked(ranked: seq<Bid>, taken: set<nat>, k: nat)
    requires k < |ranked| && AllBelow(taken, |ranked|)
  {
    exists j :: j in taken && Shares(ranked, j, k)
  }

  ghost function Take(ranked: seq<Bid>, taken: set<nat>, k: nat): (next: set<nat>)
    requires k < |ranked| && AllBelow(taken, k)
    ensures AllBelow(next, k + 1)
  {
    if Blocked(ranked, taken, k) then taken else taken + {k}
  }

  /** The winning positions among the first k. */
  ghost function Selected(ranked: seq<Bid>, k: nat): (taken: set<nat>)
    requires k <= |ranked|
    ensures AllBelow(taken, k)
  {
    if k == 0 then {} else Take(ranked, Selected(ranked, k - 1), k - 1)
  }

  function InRankOrder(bids: seq<Bid>): (ranked: seq<Bid>)
    ensures |ranked| == |bids|
  {
    Arrange(bids, StableOrder(Scores(bids)))
  }

  /** The winners, by their place in the input. */
  ghost function Winners(bids: seq<Bid>): set<nat> {
    var order := StableOrder(Scores(bids));
    set a | a in Selected(InRankOrder(bids), |bids|) :: order[a]
  }

  ghost predicate IsDisjointChoice(bids: seq<Bid>, chosen: set<nat>) {
    AllBelow(chosen, |bids|) && forall i, j :: i in chosen && j in chosen && i != j ==> !Shares(bids, i, j)
  }

  lemma TakeKeepsDisjoint(ranked: seq<Bid>, taken: set<nat>, k: nat)
    requires k < |ranked| && AllBelow(taken, k) && IsDisjointChoice(ranked, taken)
    ensures IsDisjointChoice(ranked, Take(ranked, taken, k))
  {
    if !Blocked(ranked, taken, k) {
      forall j | j in taken ensures !Shares(ranked, j, k) && !Shares(ranked, k, j) {
        assert !Shares(ranked, j, k);
      }
    }
  }

  lemma {:induction false} SelectedAreDisjoint(ranked: seq<Bid>, k: nat)
    requires k <= |ranked|
    ensures IsDisjointChoice(ranked, Selected(ranked, k))
  {
    if k > 0 {
      SelectedAreDisjoint(ranked, k - 1);
      TakeKeepsDisjoint(ranked, Selected(ranked, k - 1), k - 1);
    }
  }

  /** A position passed over shares an account with a winning position before it. */
  lemma {:induction false} PassedOverAreBlocked(ranked: seq<Bid>, k: nat, a: nat) returns (j: nat)
    requires a < k <= |ranked| && a !in Selected(ranked, k)
    ensures j in Selected(ranked, k) && j < a && Shares(ranked, j, a)
  {
    if a < k - 1 {
      j := PassedOverAreBlocked(ranked, k - 1, a);
    } else {
      assert Blocked(ranked, Selected(ranked, a), a);
      j :| j in Selected(ranked, a) && Shares(ranked, j, a);
    }
  }

  lemma WinnersFormAnOutcome(bids: seq<Bid>)
    ensures IsOutcome(bids, Winners(bids))
  {
    var n, keys := |bids|, Scores(bids);
    var order, ranked := StableOrder(keys), InRankOrder(bids);
    RankOrderIsPermutation(keys, order);
    SelectedAreDisjoint(ranked, n);
    forall i, j | i in Winners(bids) && j in Winners(bids) && i != j ensures !Shares(bids, i, j) {
      var a :| a in Selected(ranked, n) && order[a] == i;
      var b :| b in Selected(ranked, n) && order[b] == j;
      assert !Shares(ranked, a, b);
    }
    forall i: nat | i < n && i !in Winners(bids) ensures IsBeaten(bids, Winners(bids), i) {
      var a := PermutationCovers(order, n, i);
      var b := PassedOverAreBlocked(ranked, n, a);
      assert Before(keys, order[b], order[a]);
      assert order[b] in Winners(bids) && IsBeatenBy(bids, i, order[b]);
    }
  }

  /** The auction's winners are the one set that satisfies the two conditions. */
  lemma WinnersAreTheOutcome(bids: seq<Bid>, winners: set<nat>)
    ensures IsOutcome(bids, winners) <==> winners == Winners(bids)
  {
    WinnersFormAnOutcome(bids);
    if IsOutcome(bids, winners) {
      OutcomeIsUnique(bids, winners, Winners(bids));
    }
  }

  // ----- the method

  /** The bundles of the winning positions among the first k of a ranked list, best first. */
  ghost function SelectedBundles(ranked: seq<BundleSubmission>, k: nat): seq<Bundle>
    requires k <= |ranked|
  {
    if k == 0 then []
    else SelectedBundles(ranked, k - 1) + if k - 1 in Selected(BidsOf(ranked), k) then [ranked[k - 1].bundle] else []
  }

  function RankSubmissions(submissions: seq<BundleSubmission>): (ranked: seq<BundleSubmission>)
    ensures |ranked| == |submissions|
  {
    Arrange(submissions, StableOrder(Scores(BidsOf(submissions))))
  }

  ghost function WinningBundles(submissions: seq<BundleSubmission>): seq<Bundle> {
    SelectedBundles(RankSubmissions(submissions), |submissions|)
  }

  /** The positions selected from the ranked submissions are the auction's winners. */
  lemma RankedBidsAgree(submissions: seq<BundleSubmission>)
    ensures BidsOf(RankSubmissions(submissions)) == InRankOrder(BidsOf(submissions))
  {
  }

  ghost function AccountsOf(bids: seq<Bid>, chosen: set<nat>): set<Pubkey>
    requires AllBelow(chosen, |bids|)
  {
    set i, a | i in chosen && a in bids[i].accounts :: a
  }

  predicate HasConflicts(bundle: Bundle, lockedAccounts: set<Pubkey>) {
    !(bundle.AllAccounts() !! lockedAccounts)
  }

  lemma BlockedMeansLocked(bids: seq<Bid>, taken: set<nat>, k: nat)
    requires k < |bids| && AllBelow(taken, |bids|)
    ensures Blocked(bids, taken, k) <==> !(bids[k].accounts !! AccountsOf(bids, taken))
  {
    if !(bids[k].accounts !! AccountsOf(bids, taken)) {
      var a :| a in bids[k].accounts && a in AccountsOf(bids, taken);
      var j :| j in taken && a in bids[j].accounts;
      assert Shares(bids, j, k);
    }
    if Blocked(bids, taken, k) {
      var j :| j in taken && Shares(bids, j, k);
      var a :| a in bids[j].accounts && a in bids[k].accounts;
      assert a in AccountsOf(bids, taken);
    }
  }

  /** The accounts held by the winners after one more position. */
  lemma AccountsAfterNext(bids: seq<Bid>, k: nat)
    requires k < |bids|
    ensures var taken, next := Selected(bids, k), Selected(bids, k + 1);
      if bids[k].accounts !! AccountsOf(bids, taken)
      then k in next && AccountsOf(bids, next) == AccountsOf(bids, taken) + bids[k].accounts
      else k !in next && AccountsOf(bids, next) == AccountsOf(bids, taken)
  {
    BlockedMeansLocked(bids, Selected(bids, k), k);
  }

  /** The loop's variables after k positions. */
  ghost predicate AuctionState(ranked: seq<BundleSubmission>, k: nat, locked: set<Pubkey>, winners: seq<Bundle>)
    requires k <= |ranked|
  {
    && locked == AccountsOf(BidsOf(ranked), Selected(BidsOf(ranked), k))
    && winners == SelectedBundles(ranked, k)
  }

  lemma AuctionStep(ranked: seq<BundleSubmission>, k: nat, locked: set<Pubkey>, winners: seq<Bundle>)
    requires k < |ranked| && AuctionState(ranked, k, locked, winners)
    ensures var bundle := ranked[k].bundle;
      if HasConflicts(bundle, locked) then AuctionState(ranked, k + 1, locked, winners)
      else AuctionState(ranked, k + 1, locked + bundle.AllAccounts(), winners + [bundle])
  {
    var bids := BidsOf(ranked);
    assert bids[k].accounts == ranked[k].bundle.AllAccounts();
    AccountsAfterNext(bids, k);
    assert SelectedBundles(ranked, k + 1)
        == SelectedBundles(ranked, k) + if k in Selected(bids, k + 1) then [ranked[k].bundle] else [];
  }

  // ----- the outcome on the submissions' own fields

  /** Two submitted bundles name a common account. */
  ghost predicate BundlesShare(submissions: seq<BundleSubmission>, i: nat, j: nat)
    requires i < |submissions| && j < |submissions|
  {
    exists key :: submissions[i].bundle.Lists(key) && submissions[j].bundle.Lists(key)
  }

  /** A higher score, or the same score submitted earlier. */
  ghost predicate RanksAbove(submissions: seq<BundleSubmission>, j: nat, i: nat)
    requires i < |submissions| && j < |submissions|
  {
    submissions[j].score > submissions[i].score || (submissions[j].score == submissions[i].score && j < i)
  }

  ghost predicate LosesTo(submissions: seq<BundleSubmission>, i: nat, j: nat)
    requires i < |submissions| && j < |submissions|
  {
    RanksAbove(submissions, j, i) && BundlesShare(submissions, j, i)
  }

  /** No two winners name a common account, and every other bundle names one of a winner ranked above it. */
  ghost predicate IsAuctionOutcome(submissions: seq<BundleSubmission>, winners: set<nat>) {
    && AllBelow(winners, |submissions|)
    && (forall i, j :: i in winners && j in winners && i != j ==> !BundlesShare(submissions, i, j))
    && (forall i: nat :: i < |submissions| && i !in winners ==>
          exists j :: j in winners && LosesTo(submissions, i, j))
  }

  lemma BidIsTheSubmission(submissions: seq<BundleSubmission>, i: nat)
    requires i < |submissions|
    ensures BidsOf(submissions)[i].score == submissions[i].score
    ensures forall key :: key in BidsOf(submissions)[i].accounts <==> submissions[i].bundle.Lists(key)
  {
    forall key ensures key in BidsOf(submissions)[i].accounts <==> submissions[i].bundle.Lists(key) {
      BundleAccountsAreListed(submissions[i].bundle, key);
    }
  }

  lemma SharingIsACommonAccount(submissions: seq<BundleSubmission>, i: nat, j: nat)
    requires i < |submissions| && j < |submissions|
    ensures Shares(BidsOf(submissions), i, j) <==> BundlesShare(submissions, i, j)
    ensures Before(Scores(BidsOf(submissions)), i, j) <==> RanksAbove(submissions, i, j)
  {
    var bids := BidsOf(submissions);
    BidIsTheSubmission(submissions, i);
    BidIsTheSubmission(submissions, j);
    if Shares(bids, i, j) {
      var key :| key in bids[i].accounts && key in bids[j].accounts;
      assert submissions[i].bundle.Lists(key) && submissions[j].bundle.Lists(key);
    }
    if BundlesShare(submissions, i, j) {
      var key :| submissions[i].bundle.Lists(key) && submissions[j].bundle.Lists(key);
      assert key in bids[i].accounts && key in bids[j].accounts;
    }
  }

  lemma OutcomeOnFields(submissions: seq<BundleSubmission>, winners: set<nat>)
    ensures IsAuctionOutcome(submissions, winners) <==> IsOutcome(BidsOf(submissions), winners)
  {
    var bids := BidsOf(submissions);
    forall i: nat, j: nat | i < |bids| && j < |bids|
      ensures Shares(bids, i, j) <==> BundlesShare(submissions, i, j)
      ensures IsBeatenBy(bids, i, j) <==> LosesTo(submissions, i, j)
    {
      SharingIsACommonAccount(submissions, i, j);
      SharingIsACommonAccount(submissions, j, i);
    }
    if AllBelow(winners, |bids|) {
      forall i: nat | i < |bids|
        ensures IsBeaten(bids, winners, i) <==> exists j :: j in winners && LosesTo(submissions, i, j)
      {
        if IsBeaten(bids, winners, i) {
          var j :| j in winners && IsBeatenBy(bids, i, j);
          assert LosesTo(submissions, i, j);
        }
        if j :| j in winners && LosesTo(submissions, i, j) {
          assert IsBeatenBy(bids, i, j);
        }
      }
    }
  }

  /** On the submissions' own fields, the winners are the one outcome. */
  lemma SubmissionsHaveOneOutcome(submissions: seq<BundleSubmission>, winners: set<nat>)
    ensures IsAuctionOutcome(submissions, winners) <==> winners == Winners(BidsOf(submissions))
  {
    OutcomeOnFields(submissions, winners);
    WinnersAreTheOutcome(BidsOf(submissions), winners);
  }

  /** `listed` gives the winners' places in the input, best first, and `bundles` what they submitted. */
  ghost predicate ListsWinners(submissions: seq<BundleSubmission>, listed: seq<nat>, bundles: seq<Bundle>) {
    && IsAuctionOutcome(submissions, ElementsOf(listed))
    && (forall k :: 0 <= k < |listed| ==> listed[k] < |submissions|)
    && (forall a, b :: 0 <= a < b < |listed| ==> RanksAbove(submissions, listed[a], listed[b]))
    && |bundles| == |listed|
    && forall k :: 0 <= k < |listed| ==> bundles[k] == submissions[listed[k]].bundle
  }

  /** The winning positions among the first k, in order. */
  ghost function SelectedPositions(ranked: seq<Bid>, k: nat): seq<nat>
    requires k <= |ranked|
  {
    if k == 0 then []
    else SelectedPositions(ranked, k - 1) + if k - 1 in Selected(ranked, k) then [k - 1] else []
  }

  lemma {:induction false} PositionsAreSelected(ranked: seq<Bid>, k: nat)
    requires k <= |ranked|
    ensures forall a :: a in SelectedPositions(ranked, k) <==> a in Selected(ranked, k)
    ensures forall x, y :: 0 <= x < y < |SelectedPositions(ranked, k)| ==>
      SelectedPositions(ranked, k)[x] < SelectedPositions(ranked, k)[y]
  {
    if k > 0 {
      PositionsAreSelected(ranked, k - 1);
      var before := SelectedPositions(ranked, k - 1);
      forall x | 0 <= x < |before| ensures before[x] < k - 1 {
        assert before[x] in before;
      }
    }
  }

  lemma {:induction false} SelectedBundlesAt(ranked: seq<BundleSubmission>, k: nat)
    requires k <= |ranked|
    ensures var places := SelectedPositions(BidsOf(ranked), k);
      && |SelectedBundles(ranked, k)| == |places|
      && forall x :: 0 <= x < |places| ==>
        places[x] < |ranked| && SelectedBundles(ranked, k)[x] == ranked[places[x]].bundle
  {
    if k > 0 {
      SelectedBundlesAt(ranked, k - 1);
    }
  }

  /** The winner list is the winning set, best first. */
  lemma WinningBundlesListTheWinners(submissions: seq<BundleSubmission>) returns (listed: seq<nat>)
    ensures ElementsOf(listed) == Winners(BidsOf(submissions))
    ensures ListsWinners(submissions, listed, WinningBundles(submissions))
  {
    var n, order := |submissions|, StableOrder(Scores(BidsOf(submissions)));
    var places := SelectedPositions(InRankOrder(BidsOf(submissions)), n);
    PositionsAreSelected(InRankOrder(BidsOf(submissions)), n);
    forall x | 0 <= x < |places| ensures places[x] < n {
      assert places[x] in places;
    }
    listed := Arrange(order, places);
    ListedAreWinners(submissions, places, listed);
    SubmissionsHaveOneOutcome(submissions, ElementsOf(listed));
    forall a, b | 0 <= a < b < |listed| ensures RanksAbove(submissions, listed[a], listed[b]) {
      assert Before(Scores(BidsOf(submissions)), order[places[a]], order[places[b]]);
      SharingIsACommonAccount(submissions, listed[a], listed[b]);
    }
    RankedBidsAgree(submissions);
    SelectedBundlesAt(RankSubmissions(submissions), n);
  }

  lemma ListedAreWinners(submissions: seq<BundleSubmission>, places: seq<nat>, listed: seq<nat>)
    requires forall a :: a in places <==> a in Selected(InRankOrder(BidsOf(submissions)), |submissions|)
    requires |listed| == |places|
    requires var order := StableOrder(Scores(BidsOf(submissions)));
      forall x :: 0 <= x < |places| ==> places[x] < |order| && listed[x] == order[places[x]]
    ensures ElementsOf(listed) == Winners(BidsOf(submissions))
  {
    var order := StableOrder(Scores(BidsOf(submissions)));
    forall i ensures i in ElementsOf(listed) <==> i in Winners(BidsOf(submissions)) {
      if i in Winners(BidsOf(submissions)) {
        var a :| a in places && order[a] == i;
        var x :| 0 <= x < |places| && places[x] == a;
        assert listed[x] in listed;
      }
      if i in listed {
        var x :| 0 <= x < |listed| && listed[x] == i;
        assert places[x] in places;
      }
    }
  }

  method SelectWinners(submissions: seq<BundleSubmission>) returns (winners: seq<Bundle>)
    ensures winners == WinningBundles(submissions)
    ensures exists listed :: ListsWinners(submissions, listed, winners)
  {
    var ranked := RankSubmissions(submissions);
    winners := [];
    var lockedAccounts: set<Pubkey> := {};
    for k := 0 to |ranked|
      invariant AuctionState(ranked, k, lockedAccounts, winners)
    {
      var bundle := ranked[k].bundle;
      AuctionStep(ranked, k, lockedAccounts, winners);
      if !HasConflicts(bundle, lockedAccounts) {
        lockedAccounts := lockedAccounts + bundle.AllAccounts();
        winners := winners + [bundle];
      }
    }
    ghost var listed := WinningBundlesListTheWinners(submissions);
  }

  // ----- raising a winning bid

  /** Above the raised bid the two auctions agree. */
  lemma {:induction false} AgreeAboveRaisedBid(bids: seq<Bid>, raised: seq<Bid>,
      one: set<nat>, two: set<nat>, i: nat, j: nat)
    requires i < |bids| && j < |bids| && |raised| == |bids|
    requires forall x :: 0 <= x < |bids| ==> raised[x].accounts == bids[x].accounts && (x != i ==> raised[x] == bids[x])
    requires raised[i].score >= bids[i].score
    requires IsOutcome(bids, one) && IsOutcome(raised, two)
    requires Before(Scores(raised), j, i)
    ensures j in one <==> j in two
    decreases U64_MAX - bids[j].score, j
  {
    forall k | k in Below(|bids|)
      ensures IsBeatenBy(bids, j, k) <==> IsBeatenBy(raised, j, k)
      ensures IsBeatenBy(bids, j, k) ==> (k in one <==> k in two)
    {
      if IsBeatenBy(bids, j, k) {
        AgreeAboveRaisedBid(bids, raised, one, two, i, k);
      }
    }
    WinsUnlessBeaten(bids, one, j);
    WinsUnlessBeaten(raised, two, j);
  }

  /** Raising the score of a winning submission, all else unchanged, leaves it winning. */
  lemma RaisingAWinningBidStillWins(bids: seq<Bid>, i: nat, score: u64)
    requires i < |bids| && i in Winners(bids) && score >= bids[i].score
    ensures i in Winners(bids[i := bids[i].(score := score)])
  {
    var raised := bids[i := bids[i].(score := score)];
    var one, two := Winners(bids), Winners(raised);
    WinnersFormAnOutcome(bids);
    WinnersFormAnOutcome(raised);
    WinsUnlessBeaten(bids, one, i);
    WinsUnlessBeaten(raised, two, i);
    if IsBeaten(raised, two, i) {
      var j :| j in two && IsBeatenBy(raised, i, j);
      AgreeAboveRaisedBid(bids, raised, one, two, i, j);
      assert IsBeatenBy(bids, i, j);
    }
  }

  // ----- input order does not matter when scores are distinct

  lemma SubmissionOrderIsIrrelevant(submissions: seq<BundleSubmission>, shuffle: seq<nat>)
    requires IsPermutation(shuffle, |submissions|)
    requires forall i, j :: 0 <= i < j < |submissions| ==> submissions[i].score != submissions[j].score
    ensures WinningBundles(Arrange(submissions, shuffle)) == WinningBundles(submissions)
  {
    var shuffled := Arrange(submissions, shuffle);
    var keys, keys' := Scores(BidsOf(submissions)), Scores(BidsOf(shuffled));
    var order := StableOrder(keys');
    var composed := Arrange(shuffle, order);
    RankOrderIsPermutation(keys', order);
    forall a, b | 0 <= a < b < |composed| ensures Before(keys, composed[a], composed[b]) {
      assert Before(keys', order[a], order[b]);
    }
    RankOrderIsUnique(keys, composed, StableOrder(keys));
    assert RankSubmissions(shuffled) == RankSubmissions(submissions);
  }

  // ----- how much score the greedy choice can forgo

  /** The total score of the chosen submissions among the first n. */
  ghost function ScoreOf(bids: seq<Bid>, chosen: set<nat>, n: nat): nat
    requires n <= |bids|
  {
    if n == 0 then 0
    else ScoreOf(bids, chosen, n - 1) + if n - 1 in chosen then bids[n - 1].score else 0
  }

  lemma {:induction false} ScoreSplits(bids: seq<Bid>, one: set<nat>, two: set<nat>, n: nat)
    requires n <= |bids| && one !! two
    ensures ScoreOf(bids, one + two, n) == ScoreOf(bids, one, n) + ScoreOf(bids, two, n)
  {
    if n > 0 {
      ScoreSplits(bids, one, two, n - 1);
    }
  }

  lemma {:induction false} ScoreOfNone(bids: seq<Bid>, n: nat)
    requires n <= |bids|
    ensures ScoreOf(bids, {}, n) == 0
  {
    if n > 0 {
      ScoreOfNone(bids, n - 1);
    }
  }

  lemma {:induction false} ScoreOfOne(bids: seq<Bid>, i: nat, n: nat)
    requires n <= |bids| && i < |bids|
    ensures ScoreOf(bids, {i}, n) == if i < n then bids[i].score else 0
  {
    if n > 0 {
      ScoreOfOne(bids, i, n - 1);
    }
  }

  lemma ProductStep(n: nat, x: nat)
    ensures n > 0 ==> n * x == (n - 1) * x + x
  {
  }

  lemma {:induction false} ScoreOfAtMost(bids: seq<Bid>, chosen: set<nat>, top: nat)
    requires AllBelow(chosen, |bids|) && forall i :: i in chosen ==> bids[i].score <= top
    ensures ScoreOf(bids, chosen, |bids|) <= |chosen| * top
  {
    var n := |bids|;
    if chosen == {} {
      ScoreOfNone(bids, n);
    } else {
      var i :| i in chosen;
      ScoreOfAtMost(bids, chosen - {i}, top);
      ScoreSplits(bids, chosen - {i}, {i}, n);
      ScoreOfOne(bids, i, n);
      assert chosen == chosen - {i} + {i};
      ProductStep(|chosen|, top);
    }
  }

  /** Pairwise disjoint account sets that all meet `accounts` are no more numerous than `accounts`. */
  lemma {:induction false} DisjointMeetersAreFew(bids: seq<Bid>, chosen: set<nat>, accounts: set<Pubkey>)
    requires IsDisjointChoice(bids, chosen)
    requires forall i :: i in chosen ==> !(bids[i].accounts !! accounts)
    ensures |chosen| <= |accounts|
  {
    if chosen != {} {
      var i :| i in chosen;
      var a :| a in bids[i].accounts && a in accounts;
      forall j | j in chosen - {i} ensures !(bids[j].accounts !! (accounts - {a})) {
        assert !Shares(bids, i, j);
        var b :| b in bids[j].accounts && b in accounts;
        assert b != a;
      }
      DisjointMeetersAreFew(bids, chosen - {i}, accounts - {a});
    }
  }

  /** `i` is charged to `w`: it is `w`, or shares an account with it, and scores no more. */
  ghost predicate IsChargedTo(bids: seq<Bid>, i: nat, w: nat)
    requires i < |bids| && w < |bids|
  {
    (i == w || Shares(bids, w, i)) && bids[i].score <= bids[w].score
  }

  ghost predicate IsCharged(bids: seq<Bid>, winners: set<nat>, i: nat)
    requires i < |bids| && AllBelow(winners, |bids|)
  {
    exists w :: w in winners && IsChargedTo(bids, i, w)
  }

  /** One winner with at most k accounts pays for everything charged to it, k times over. */
  lemma ChargesToOneWinner(bids: seq<Bid>, charged: set<nat>, w: nat, k: nat)
    requires w < |bids| && IsDisjointChoice(bids, charged) && k >= 1
    requires forall i :: i in charged ==> IsChargedTo(bids, i, w)
    requires |bids[w].accounts| <= k
    ensures ScoreOf(bids, charged, |bids|) <= k * bids[w].score
  {
    if w in charged {
      forall i | i in charged ensures i == w {
      }
      SubsetSize(charged, {w});
    } else {
      DisjointMeetersAreFew(bids, charged, bids[w].accounts);
    }
    ScoreOfAtMost(bids, charged, bids[w].score);
    ProductIsMonotone(|charged|, k, bids[w].score);
  }

  lemma ProductIsMonotone(a: nat, b: nat, x: nat)
    requires a <= b
    ensures a * x <= b * x
  {
  }

  lemma Distribute(k: nat, x: nat, y: nat)
    ensures k * (x + y) == k * x + k * y
  {
  }

  lemma {:induction false} ChargingBound(bids: seq<Bid>, chosen: set<nat>, winners: set<nat>, k: nat)
    requires IsDisjointChoice(bids, chosen) && AllBelow(winners, |bids|) && k >= 1
    requires forall i :: i in chosen ==> IsCharged(bids, winners, i)
    requires forall w :: w in winners ==> |bids[w].accounts| <= k
    ensures ScoreOf(bids, chosen, |bids|) <= k * ScoreOf(bids, winners, |bids|)
  {
    var n := |bids|;
    if winners == {} {
      assert chosen == {};
      ScoreOfNone(bids, n);
    } else {
      var w :| w in winners;
      var charged := set i | i in chosen && IsChargedTo(bids, i, w);
      var rest := chosen - charged;
      forall i | i in rest ensures IsCharged(bids, winners - {w}, i) {
        var v :| v in winners && IsChargedTo(bids, i, v);
        assert v in winners - {w};
      }
      ChargingBound(bids, rest, winners - {w}, k);
      ChargesToOneWinner(bids, charged, w, k);
      ScoreSplits(bids, rest, charged, n);
      ScoreSplits(bids, winners - {w}, {w}, n);
      ScoreOfOne(bids, w, n);
      assert chosen == rest + charged && winners == winners - {w} + {w};
      Distribute(k, ScoreOf(bids, winners - {w}, n), bids[w].score);
    }
  }

  /** If every bundle touches at most k accounts, no conflict-free choice of submissions scores more
      than k times what the winners score. */
  lemma AuctionIsWithinFactor(bids: seq<Bid>, chosen: set<nat>, k: nat)
    requires IsDisjointChoice(bids, chosen) && k >= 1
    requires forall i :: 0 <= i < |bids| ==> |bids[i].accounts| <= k
    ensures ScoreOf(bids, chosen, |bids|) <= k * ScoreOf(bids, Winners(bids), |bids|)
  {
    WinnersFormAnOutcome(bids);
    forall i | i in chosen ensures IsCharged(bids, Winners(bids), i) {
      if i in Winners(bids) {
        assert IsChargedTo(bids, i, i);
      } else {
        assert IsBeaten(bids, Winners(bids), i);
        var w :| w in Winners(bids) && IsBeatenBy(bids, i, w);
        assert IsChargedTo(bids, i, w);
      }
    }
    ChargingBound(bids, chosen, Winners(bids), k);
  }

  /** A bundle that touches no account always wins. */
  lemma AccountFreeBundlesWin(bids: seq<Bid>, i: nat)
    requires i < |bids| && bids[i].accounts == {}
    ensures i in Winners(bids)
  {
    WinnersFormAnOutcome(bids);
    WinsUnlessBeaten(bids, Winners(bids), i);
  }

  // ----- the same laws on the submissions' own fields

  /** The total score of the chosen submissions among the first n. */
  ghost function TotalScore(submissions: seq<BundleSubmission>, chosen: set<nat>, n: nat): nat
    requires n <= |submissions|
  {
    if n == 0 then 0
    else TotalScore(submissions, chosen, n - 1) + if n - 1 in chosen then submissions[n - 1].score else 0
  }

  lemma {:induction false} TotalScoreIsScoreOf(submissions: seq<BundleSubmission>, chosen: set<nat>, n: nat)
    requires n <= |submissions|
    ensures TotalScore(submissions, chosen, n) == ScoreOf(BidsOf(submissions), chosen, n)
  {
    if n > 0 {
      TotalScoreIsScoreOf(submissions, chosen, n - 1);
      BidIsTheSubmission(submissions, n - 1);
    }
  }

  /** `keys` are all the accounts a bundle names. */
  ghost predicate NamesOnly(b: Bundle, keys: set<Pubkey>) {
    forall key :: b.Lists(key) ==> key in keys
  }

  lemma FewAccounts(submissions: seq<BundleSubmission>, i: nat, keys: set<Pubkey>)
    requires i < |submissions| && NamesOnly(submissions[i].bundle, keys)
    ensures |BidsOf(submissions)[i].accounts| <= |keys|
  {
    BidIsTheSubmission(submissions, i);
    SubsetSize(BidsOf(submissions)[i].accounts, keys);
  }

  /** If every submitted bundle names at most k accounts, no choice of submissions without a common account
      has more than k times the winners' total score. */
  lemma WinnersAreWithinFactor(submissions: seq<BundleSubmission>, winners: set<nat>, chosen: set<nat>, k: nat)
    requires IsAuctionOutcome(submissions, winners) && AllBelow(chosen, |submissions|) && k >= 1
    requires forall i, j :: i in chosen && j in chosen && i != j ==> !BundlesShare(submissions, i, j)
    requires forall i :: 0 <= i < |submissions| ==>
      exists keys: set<Pubkey> :: |keys| <= k && NamesOnly(submissions[i].bundle, keys)
    ensures TotalScore(submissions, chosen, |submissions|) <= k * TotalScore(submissions, winners, |submissions|)
  {
    var bids := BidsOf(submissions);
    SubmissionsHaveOneOutcome(submissions, winners);
    forall i, j | i in chosen && j in chosen && i != j ensures !Shares(bids, i, j) {
      SharingIsACommonAccount(submissions, i, j);
    }
    forall i | 0 <= i < |bids| ensures |bids[i].accounts| <= k {
      var keys: set<Pubkey> :| |keys| <= k && NamesOnly(submissions[i].bundle, keys);
      FewAccounts(submissions, i, keys);
    }
    AuctionIsWithinFactor(bids, chosen, k);
    TotalScoreIsScoreOf(submissions, chosen, |submissions|);
    TotalScoreIsScoreOf(submissions, winners, |submissions|);
  }

  /** Raising a winner's score leaves it winning; a bundle that names no account always wins. */
  lemma WinnersKeepWinning(submissions: seq<BundleSubmission>, winners: set<nat>, i: nat, score: u64, after: set<nat>)
    requires IsAuctionOutcome(submissions, winners) && i < |submissions| && score >= submissions[i].score
    requires IsAuctionOutcome(submissions[i := submissions[i].(score := score)], after)
    ensures i in winners ==> i in after
    ensures (forall key :: !submissions[i].bundle.Lists(key)) ==> i in winners
  {
    var raised := submissions[i := submissions[i].(score := score)];
    SubmissionsHaveOneOutcome(submissions, winners);
    SubmissionsHaveOneOutcome(raised, after);
    assert BidsOf(raised) == BidsOf(submissions)[i := BidsOf(submissions)[i].(score := score)];
    if i in winners {
      RaisingAWinningBidStillWins(BidsOf(submissions), i, score);
    }
  }

  // ----- submitting

  class Engine {
    var submissions: map<u64, BundleSubmission>
    var nextId: u64

    /** No id handed out so far reaches `nextId`. */
    ghost predicate Valid()
      reads this
    {
      forall id :: id in submissions ==> id < nextId && submissions[id].bundle.id == id
    }

    constructor ()
      ensures Valid() && submissions == map[] && nextId == 0
    {
      submissions, nextId := map[], 0;
    }

    method SubmitBundle(bundle: Bundle, score: u64) returns (id: u64)
      requires Valid() && nextId < U64_MAX
      modifies this
      ensures Valid() && id == old(nextId) && nextId == id + 1
      ensures id !in old(submissions)
      ensures submissions == old(submissions)[id := BundleSubmission(bundle.(id := id), score)]
    {
      id := nextId;
      nextId := nextId + 1;
      submissions := submissions[id := BundleSubmission(bundle.(id := id), score)];
    }

    /** Clearing keeps the counter, so ids are never handed out twice. */
    method ClearSubmission()
      requires Valid()
      modifies this`submissions
      ensures Valid() && submissions == map[]
    {
      submissions := map[];
    }
  }
}
