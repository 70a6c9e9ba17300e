/** Placement of the emitted units on workers: conflict-free and least loaded when it can be. */
module WorkerPlacement {
  import opened Core
  import opened Permutations
  import opened PriorityGraph
  import opened ListScheduling
  import StableSort

  // ----- what the placement rule promises

  // `before` lists the workers of the units placed so far; the next unit is number |before|.

  /** The accounts of the units already placed on worker w. */
  ghost function LockedBy(units: seq<Node>, before: seq<nat>, w: nat): set<Pubkey>
    requires |before| <= |units|
  {
    set i, a | 0 <= i < |before| && before[i] == w && a in units[i].accounts :: a
  }

  /** The u64 counter of worker w: the load placed on it, wrapped. */
  ghost function Counter(units: seq<Node>, before: seq<nat>, w: nat): u64
    requires |before| <= |units|
  {
    Load(Priorities(units)[..|before|], before, w) % U64_MODULUS
  }

  ghost predicate Free(units: seq<Node>, before: seq<nat>, w: nat)
    requires |before| < |units|
  {
    units[|before|].accounts !! LockedBy(units, before, w)
  }

  /** Free workers are eligible; when none is free, all are. */
  ghost predicate Eligible(units: seq<Node>, before: seq<nat>, m: nat, w: nat)
    requires |before| < |units|
  {
    w < m && (Free(units, before, w) || forall v :: 0 <= v < m ==> !Free(units, before, v))
  }

  /** Worker w is the first of the eligible workers with the smallest counter. */
  ghost predicate IsFirstLeast(units: seq<Node>, before: seq<nat>, m: nat, w: nat)
    requires |before| < |units|
  {
    && Eligible(units, before, m, w)
    && forall v: nat :: Eligible(units, before, m, v) ==>
      && Counter(units, before, w) <= Counter(units, before, v)
      && (v < w ==> Counter(units, before, w) < Counter(units, before, v))
  }

  ghost predicate IsGreedyPlacement(units: seq<Node>, workers: seq<nat>, m: nat) {
    && |workers| == |units|
    && forall k :: 0 <= k < |units| ==> IsFirstLeast(units, workers[..k], m, workers[k])
  }

  /** The rule leaves no choice: one placement per emission order. */
  lemma {:induction false} GreedyPlacementIsUnique(units: seq<Node>, one: seq<nat>, two: seq<nat>, m: nat, k: nat)
    requires IsGreedyPlacement(units, one, m) && IsGreedyPlacement(units, two, m) && k <= |units|
    ensures one[..k] == two[..k]
  {
    if k > 0 {
      GreedyPlacementIsUnique(units, one, two, m, k - 1);
      assert IsFirstLeast(units, one[..k - 1], m, one[k - 1]);
      assert IsFirstLeast(units, two[..k - 1], m, two[k - 1]);
    }
  }

  // ----- greedy colouring

  ghost function EarlierConflicts(units: seq<Node>, k: nat): set<nat>
    requires k < |units|
  {
    set j | j in Below(k) && Conflict(units, j, k)
  }

  /** A unit joins a worker that holds one of its accounts only if at least m distinct earlier units
      conflict with it. */
  lemma SharingNeedsManyConflicts(units: seq<Node>, workers: seq<nat>, m: nat, i: nat, k: nat)
    requires IsGreedyPlacement(units, workers, m)
    requires i < k < |units| && workers[i] == workers[k] && Conflict(units, i, k)
    ensures |EarlierConflicts(units, k)| >= m
  {
    assert IsFirstLeast(units, workers[..k], m, workers[k]);
    var a :| a in units[i].accounts && a in units[k].accounts;
    assert a in LockedBy(units, workers[..k], workers[k]);
    assert !Free(units, workers[..k], workers[k]);
    var conflicts := EarlierConflicts(units, k);
    var workerOf := j => if 0 <= j < |workers| then workers[j] else m;
    forall w | 0 <= w < m ensures Takes(conflicts, workerOf, w) {
      assert !Free(units, workers[..k], w);
      var b :| b in units[k].accounts && b in LockedBy(units, workers[..k], w);
      var j :| 0 <= j < k && workers[j] == w && b in units[j].accounts;
      assert j in conflicts && workerOf(j) == w;
    }
    PigeonHole(conflicts, workerOf, m);
  }

  ghost function ConflictsOf(units: seq<Node>, k: nat): set<nat>
    requires k < |units|
  {
    set j | j in Below(|units|) && Conflict(units, j, k)
  }

  /** When every unit conflicts with fewer than m others, no two conflicting units share a worker. */
  lemma ColouringIsProper(units: seq<Node>, workers: seq<nat>, m: nat)
    requires IsGreedyPlacement(units, workers, m)
    requires forall k :: 0 <= k < |units| ==> |ConflictsOf(units, k)| < m
    ensures forall i, k :: 0 <= i < k < |units| && Conflict(units, i, k) ==> workers[i] != workers[k]
  {
    forall i, k | 0 <= i < k < |units| && Conflict(units, i, k) ensures workers[i] != workers[k] {
      if workers[i] == workers[k] {
        SharingNeedsManyConflicts(units, workers, m, i, k);
        SubsetSize(EarlierConflicts(units, k), ConflictsOf(units, k));
      }
    }
  }

  // ----- longest-processing-time-first on disjoint batches

  ghost predicate PairwiseDisjoint(units: seq<Node>) {
    forall i, j :: 0 <= i < j < |units| ==> units[i].accounts !! units[j].accounts
  }

  /** Before the last unit is placed, the textbook placement keeps every load within u64. A single worker
      needs no counter. */
  predicate CountersSuffice(sizes: seq<nat>, m: nat)
    requires m > 0
  {
    m == 1 || sizes == [] || TextbookFits(sizes[..|sizes| - 1], m)
  }

  predicate TextbookFits(sizes: seq<nat>, m: nat)
    requires m > 0
  {
    Makespan(sizes, Textbook(sizes, m), m) <= U64_MAX
  }

  /** A simple sufficient test: the total leaves room for the largest priority on each worker. */
  lemma LightBatchSuffices(sizes: seq<nat>, m: nat, largest: nat)
    requires m > 0 && Total(sizes) + (m - 1) * largest <= m * U64_MAX
    requires forall i :: 0 <= i < |sizes| ==> sizes[i] <= largest
    ensures CountersSuffice(sizes, m)
  {
    if sizes != [] {
      LightBatchFits(sizes[..|sizes| - 1], m, largest, U64_MAX);
    }
  }

  /** On disjoint units every worker is eligible, so the counters alone decide. */
  lemma DisjointChoice(units: seq<Node>, workers: seq<nat>, m: nat, k: nat, v: nat)
    requires IsGreedyPlacement(units, workers, m) && PairwiseDisjoint(units) && k < |units| && v < m
    ensures workers[k] < m
    ensures var before := workers[..k];
      && Counter(units, before, workers[k]) <= Counter(units, before, v)
      && (v < workers[k] ==> Counter(units, before, workers[k]) < Counter(units, before, v))
  {
    assert IsFirstLeast(units, workers[..k], m, workers[k]);
    assert Free(units, workers[..k], v);
    assert Eligible(units, workers[..k], m, v);
  }

  lemma LastStep(sizes: seq<nat>, m: nat, k: nat)
    requires m > 0 && k < |sizes|
    ensures Textbook(sizes[..k + 1], m)
         == Textbook(sizes[..k], m) + [FirstLeastLoaded(sizes[..k], Textbook(sizes[..k], m), m)]
  {
    assert sizes[..k + 1][..k] == sizes[..k];
  }

  lemma LoadAfterLastStep(sizes: seq<nat>, m: nat, k: nat, v: nat)
    requires m > 0 && k < |sizes|
    ensures var before := Textbook(sizes[..k], m);
      Load(sizes[..k + 1], Textbook(sizes[..k + 1], m), v) == Load(sizes[..k], before, v)
        + if v == FirstLeastLoaded(sizes[..k], before, m) then sizes[k] else 0
  {
    LastStep(sizes, m, k);
    assert sizes[..k + 1][..k] == sizes[..k];
    assert Textbook(sizes[..k + 1], m)[..k] == Textbook(sizes[..k], m);
  }

  lemma TextbookFitsBefore(sizes: seq<nat>, m: nat, k: nat)
    requires m > 0 && k < |sizes| && TextbookFits(sizes[..k + 1], m)
    ensures TextbookFits(sizes[..k], m)
  {
    var before := Textbook(sizes[..k], m);
    var w :| 0 <= w < m && Load(sizes[..k], before, w) == Makespan(sizes[..k], before, m);
    LoadAfterLastStep(sizes, m, k, w);
  }

  /** While the counters are exact, the choice is the textbook one. */
  lemma ExactCountersChoose(units: seq<Node>, workers: seq<nat>, m: nat, k: nat)
    requires m > 0 && IsGreedyPlacement(units, workers, m) && PairwiseDisjoint(units) && k < |units|
    requires workers[..k] == Textbook(Priorities(units)[..k], m) && TextbookFits(Priorities(units)[..k], m)
    ensures workers[..k + 1] == Textbook(Priorities(units)[..k + 1], m)
  {
    ExactCountersPick(units, workers, workers[..k], m, k);
    LastStep(Priorities(units), m, k);
  }

  lemma ExactCountersPick(units: seq<Node>, workers: seq<nat>, before: seq<nat>, m: nat, k: nat)
    requires m > 0 && IsGreedyPlacement(units, workers, m) && PairwiseDisjoint(units) && k < |units|
    requires before == workers[..k]
    requires before == Textbook(Priorities(units)[..k], m) && TextbookFits(Priorities(units)[..k], m)
    ensures workers[k] == FirstLeastLoaded(Priorities(units)[..k], before, m)
  {
    DisjointChoice(units, workers, m, k, FirstLeastLoaded(Priorities(units)[..k], before, m));
    LeastExactCounter(units, before, m, workers[k]);
  }

  lemma LeastExactCounter(units: seq<Node>, before: seq<nat>, m: nat, x: nat)
    requires m > 0 && |before| <= |units| && x < m
    requires var sizes := Priorities(units)[..|before|]; before == Textbook(sizes, m) && TextbookFits(sizes, m)
    requires var w := FirstLeastLoaded(Priorities(units)[..|before|], before, m);
      && Counter(units, before, x) <= Counter(units, before, w)
      && (w < x ==> Counter(units, before, x) < Counter(units, before, w))
    ensures x == FirstLeastLoaded(Priorities(units)[..|before|], before, m)
  {
    ExactCounter(units, before, m, x);
    ExactCounter(units, before, m, FirstLeastLoaded(Priorities(units)[..|before|], before, m));
  }

  lemma ExactCounter(units: seq<Node>, before: seq<nat>, m: nat, v: nat)
    requires m > 0 && |before| <= |units| && v < m
    requires var sizes := Priorities(units)[..|before|]; before == Textbook(sizes, m) && TextbookFits(sizes, m)
    ensures Counter(units, before, v) == Load(Priorities(units)[..|before|], before, v)
  {
  }

  lemma {:induction false} FollowsTextbook(units: seq<Node>, workers: seq<nat>, m: nat, k: nat)
    requires m > 0 && IsGreedyPlacement(units, workers, m) && PairwiseDisjoint(units) && k <= |units|
    requires k > 0 ==> TextbookFits(Priorities(units)[..k - 1], m)
    ensures workers[..k] == Textbook(Priorities(units)[..k], m)
  {
    if k > 0 {
      if k > 1 {
        TextbookFitsBefore(Priorities(units), m, k - 2);
      }
      FollowsTextbook(units, workers, m, k - 1);
      ExactCountersChoose(units, workers, m, k - 1);
    }
  }

  lemma WrappedCounter(load: u64, size: u64)
    requires load + size > U64_MAX
    ensures (load + size) % U64_MODULUS == load + size - U64_MODULUS < load
  {
  }

  lemma MisfitOverloads(sizes: seq<nat>, m: nat, k: nat)
    requires m > 0 && k < |sizes| && TextbookFits(sizes[..k], m) && !TextbookFits(sizes[..k + 1], m)
    ensures var before := Textbook(sizes[..k], m);
      Load(sizes[..k], before, FirstLeastLoaded(sizes[..k], before, m)) + sizes[k] > U64_MAX
  {
    var after := Textbook(sizes[..k + 1], m);
    var top :| 0 <= top < m && Load(sizes[..k + 1], after, top) == Makespan(sizes[..k + 1], after, m);
    LoadAfterLastStep(sizes, m, k, top);
  }

  /** The first item not to fit: its worker's load is then the largest, and its wrapped counter the smallest. */
  lemma FirstMisfit(sizes: seq<nat>, m: nat, k: nat, v: nat)
    requires m > 0 && k < |sizes| && sizes[k] <= U64_MAX && v < m
    requires TextbookFits(sizes[..k], m) && !TextbookFits(sizes[..k + 1], m)
    ensures var w := FirstLeastLoaded(sizes[..k], Textbook(sizes[..k], m), m);
      var load := Load(sizes[..k + 1], Textbook(sizes[..k + 1], m), w);
      var other := Load(sizes[..k + 1], Textbook(sizes[..k + 1], m), v);
      && load > U64_MAX
      && (v != w ==> load % U64_MODULUS < other % U64_MODULUS && other < load)
  {
    var before := Textbook(sizes[..k], m);
    var w := FirstLeastLoaded(sizes[..k], before, m);
    MisfitOverloads(sizes, m, k);
    LoadAfterLastStep(sizes, m, k, w);
    LoadAfterLastStep(sizes, m, k, v);
    WrappedCounter(Load(sizes[..k], before, w), sizes[k]);
    assert Load(sizes[..k], before, v) <= U64_MAX;
  }

  /** So the next unit joins the unit that wrapped the counter, on what is then the most loaded worker. */
  lemma WrappedWorkerIsChosen(units: seq<Node>, workers: seq<nat>, m: nat, k: nat)
    requires m > 1 && IsGreedyPlacement(units, workers, m) && PairwiseDisjoint(units) && k + 1 < |units|
    requires TextbookFits(Priorities(units)[..k], m) && !TextbookFits(Priorities(units)[..k + 1], m)
    ensures workers[k + 1] == workers[k] < m
    ensures var sizes, before := Priorities(units)[..k + 1], workers[..k + 1];
      forall v: nat :: v < m && v != workers[k] ==> Load(sizes, before, v) < Load(sizes, before, workers[k])
    ensures !LeastLoadedAt(Priorities(units), workers, m, k + 1)
  {
    var sizes, next := Priorities(units), workers[k + 1];
    FollowsTextbook(units, workers, m, k + 1);
    LastStep(sizes, m, k);
    var w := FirstLeastLoaded(sizes[..k], Textbook(sizes[..k], m), m);
    assert workers[k] == workers[..k + 1][k] == w;
    DisjointChoice(units, workers, m, k + 1, w);
    FirstMisfit(sizes, m, k, next);
    var now, before := sizes[..k + 1], workers[..k + 1];
    forall v: nat | v < m && v != w ensures Load(now, before, v) < Load(now, before, w) {
      FirstMisfit(sizes, m, k, v);
    }
    var other := if w == 0 then 1 else 0;
    assert Load(now, before, other) < Load(now, before, w);
  }

  lemma {:induction false} LeastLoadedMeansFits(units: seq<Node>, workers: seq<nat>, m: nat, k: nat)
    requires m > 1 && IsGreedyPlacement(units, workers, m) && PairwiseDisjoint(units) && k < |units|
    requires LeastLoaded(Priorities(units), workers, m)
    ensures TextbookFits(Priorities(units)[..k], m)
  {
    if k == 0 {
      NothingFits(m);
    } else {
      LeastLoadedMeansFits(units, workers, m, k - 1);
      if !TextbookFits(Priorities(units)[..k], m) {
        WrappedWorkerIsChosen(units, workers, m, k - 1);
        assert false;
      }
    }
  }

  lemma NothingFits(m: nat)
    requires m > 0
    ensures TextbookFits([], m)
  {
    var w :| 0 <= w < m && Load([], Textbook([], m), w) == Makespan([], Textbook([], m), m);
  }

  /** On disjoint units the rule is the least-loaded rule exactly when no counter wraps too early. */
  lemma DisjointIsLeastLoaded(units: seq<Node>, workers: seq<nat>, m: nat)
    requires m > 0 && IsGreedyPlacement(units, workers, m) && PairwiseDisjoint(units)
    ensures LeastLoaded(Priorities(units), workers, m) <==> CountersSuffice(Priorities(units), m)
  {
    var sizes, n := Priorities(units), |units|;
    if m == 1 {
      forall k | 0 <= k < n ensures workers[k] < m && LeastLoadedAt(sizes, workers, m, k) {
        DisjointChoice(units, workers, m, k, 0);
      }
    } else if n > 0 {
      if TextbookFits(sizes[..n - 1], m) {
        FollowsTextbook(units, workers, m, n);
        assert sizes[..n] == sizes && workers[..n] == workers;
        TextbookIsLeastLoaded(sizes, m);
      }
      if LeastLoaded(sizes, workers, m) {
        LeastLoadedMeansFits(units, workers, m, n - 1);
      }
    }
  }

  /** On a disjoint batch in priority order, the heaviest worker is within 4/3 - 1/(3m) of what any
      other placement of the same units needs, as long as the counters suffice. */
  lemma DisjointBatchMeetsLptBound(units: seq<Node>, workers: seq<nat>, m: nat, other: seq<nat>)
    requires m > 0 && IsGreedyPlacement(units, workers, m) && PairwiseDisjoint(units)
    requires forall a, b :: 0 <= a < b < |units| ==> units[a].priority >= units[b].priority
    requires CountersSuffice(Priorities(units), m)
    requires IsPlacement(Priorities(units), other, m)
    ensures 3 * (m * Makespan(Priorities(units), workers, m)) <= (4 * m - 1) * Makespan(Priorities(units), other, m)
  {
    DisjointIsLeastLoaded(units, workers, m);
    LptBound(Priorities(units), workers, m, other);
  }

  /** In any order, loads on a disjoint batch differ by at most the largest priority, and none exceeds
      the average by more than (m-1)/m of it. */
  lemma DisjointBatchIsBalanced(units: seq<Node>, workers: seq<nat>, m: nat, largest: nat, a: nat, b: nat)
    requires a < m && b < m && IsGreedyPlacement(units, workers, m) && PairwiseDisjoint(units)
    requires forall i :: 0 <= i < |units| ==> units[i].priority <= largest
    requires CountersSuffice(Priorities(units), m)
    ensures Load(Priorities(units), workers, a) <= Load(Priorities(units), workers, b) + largest
    ensures m * Load(Priorities(units), workers, a) <= Total(Priorities(units)) + (m - 1) * largest
  {
    DisjointIsLeastLoaded(units, workers, m);
    LoadsAreBalanced(Priorities(units), workers, m, a, b, largest);
    ListBound(Priorities(units), workers, m, a, largest);
  }

  // ----- batches in which every two units conflict

  ghost predicate AllConflict(units: seq<Node>) {
    forall i, j :: 0 <= i < j < |units| ==> Conflict(units, i, j)
  }

  /** Each unit goes to a worker whose counter no other worker's is below. */
  ghost predicate ChoosesLeastCounter(units: seq<Node>, workers: seq<nat>, m: nat, k: nat)
    requires k < |units| == |workers|
  {
    && workers[k] < m
    && forall v: nat :: v < m ==> Counter(units, workers[..k], workers[k]) <= Counter(units, workers[..k], v)
  }

  lemma {:induction false} UnusedWorkerHasNoLoad(sizes: seq<nat>, place: seq<nat>, w: nat)
    requires |place| == |sizes| && forall i :: 0 <= i < |place| ==> place[i] != w
    ensures Load(sizes, place, w) == 0
  {
    if sizes != [] {
      var k := |sizes| - 1;
      UnusedWorkerHasNoLoad(sizes[..k], place[..k], w);
    }
  }

  /** A free worker has no unit yet; and when none is free, the least loaded of all is taken. */
  lemma AllConflictChoosesLeast(units: seq<Node>, workers: seq<nat>, m: nat, k: nat)
    requires IsGreedyPlacement(units, workers, m) && AllConflict(units) && k < |units|
    ensures ChoosesLeastCounter(units, workers, m, k)
  {
    var before, w := workers[..k], workers[k];
    assert IsFirstLeast(units, before, m, w);
    if Free(units, before, w) {
      forall i | 0 <= i < k ensures before[i] != w {
        assert Conflict(units, i, k);
        var a :| a in units[i].accounts && a in units[k].accounts;
        assert a !in LockedBy(units, before, w);
      }
      UnusedWorkerHasNoLoad(Priorities(units)[..k], before, w);
    } else {
      forall v: nat | v < m ensures Counter(units, before, w) <= Counter(units, before, v) {
        assert Eligible(units, before, m, v);
      }
    }
  }

  lemma {:induction false} PrefixTotal(sizes: seq<nat>, k: nat)
    requires k <= |sizes|
    ensures Total(sizes[..k]) <= Total(sizes)
  {
    if k < |sizes| {
      var n := |sizes| - 1;
      PrefixTotal(sizes[..n], k);
      assert sizes[..n][..k] == sizes[..k];
    } else {
      assert sizes[..k] == sizes;
    }
  }

  /** In a light batch every counter stays exact, so least counters are least loads. */
  lemma LightLoadsFit(sizes: seq<nat>, place: seq<nat>, m: nat, k: nat, largest: nat, v: nat)
    requires |place| == |sizes| && k <= |sizes| && v < m && LeastLoaded(sizes[..k], place[..k], m)
    requires Total(sizes) + (m - 1) * largest <= m * U64_MAX
    requires forall i :: 0 <= i < |sizes| ==> sizes[i] <= largest
    ensures Load(sizes[..k], place[..k], v) <= U64_MAX
  {
    PrefixTotal(sizes, k);
    ListBound(sizes[..k], place[..k], m, v, largest);
    CancelFactor(m, Load(sizes[..k], place[..k], v), U64_MAX);
  }

  lemma {:induction false} LeastCounterIsLeastLoad(units: seq<Node>, workers: seq<nat>, m: nat, k: nat, largest: nat)
    requires |workers| == |units| && k <= |units|
    requires forall i :: 0 <= i < |units| ==> ChoosesLeastCounter(units, workers, m, i)
    requires Total(Priorities(units)) + (m - 1) * largest <= m * U64_MAX
    requires forall i :: 0 <= i < |units| ==> units[i].priority <= largest
    ensures LeastLoaded(Priorities(units)[..k], workers[..k], m)
  {
    if k > 0 {
      var sizes, j := Priorities(units), k - 1;
      LeastCounterIsLeastLoad(units, workers, m, j, largest);
      assert ChoosesLeastCounter(units, workers, m, j);
      assert sizes[..k][..j] == sizes[..j] && workers[..k][..j] == workers[..j];
      forall v: nat | v < m ensures Load(sizes[..j], workers[..j], workers[j]) <= Load(sizes[..j], workers[..j], v) {
        LightLoadsFit(sizes, workers, m, j, largest, workers[j]);
        LightLoadsFit(sizes, workers, m, j, largest, v);
        assert Counter(units, workers[..j], workers[j]) <= Counter(units, workers[..j], v);
      }
      assert LeastLoadedAt(sizes[..k], workers[..k], m, j);
      LeastLoadedExtends(sizes[..k], workers[..k], m);
    }
  }

  /** Where every two units conflict, the fallback too is the least-loaded rule, and has its bounds. */
  lemma CrowdedBatchIsBalanced(units: seq<Node>, workers: seq<nat>, m: nat, largest: nat, a: nat, b: nat)
    requires a < m && b < m && IsGreedyPlacement(units, workers, m) && AllConflict(units)
    requires forall i :: 0 <= i < |units| ==> units[i].priority <= largest
    requires Total(Priorities(units)) + (m - 1) * largest <= m * U64_MAX
    ensures LeastLoaded(Priorities(units), workers, m)
    ensures Load(Priorities(units), workers, a) <= Load(Priorities(units), workers, b) + largest
    ensures m * Load(Priorities(units), workers, a) <= Total(Priorities(units)) + (m - 1) * largest
  {
    forall k | 0 <= k < |units| ensures ChoosesLeastCounter(units, workers, m, k) {
      AllConflictChoosesLeast(units, workers, m, k);
    }
    LeastCounterIsLeastLoad(units, workers, m, |units|, largest);
    assert Priorities(units)[..|units|] == Priorities(units) && workers[..|units|] == workers;
    LoadsAreBalanced(Priorities(units), workers, m, a, b, largest);
    ListBound(Priorities(units), workers, m, a, largest);
  }

  // ----- the method

  ghost function WorkersIn(assignments: seq<WorkerAssignment>): (workers: seq<nat>)
    ensures |workers| == |assignments|
  {
    seq(|assignments|, i requires 0 <= i < |assignments| => assignments[i].workerId)
  }

  /** Assignment k is for unit k. */
  ghost predicate Names(units: seq<Node>, assignments: seq<WorkerAssignment>) {
    && |assignments| <= |units|
    && forall k :: 0 <= k < |assignments| ==>
      assignments[k].unitId == units[k].id && assignments[k].isBundle == units[k].isBundle
  }

  /** `min_by_key` over a list of workers: the first with the smallest counter. */
  method FirstLeast(candidates: seq<nat>, loads: array<u64>) returns (w: nat)
    requires |candidates| > 0 && forall i :: 0 <= i < |candidates| ==> candidates[i] < loads.Length
    requires forall i, j :: 0 <= i < j < |candidates| ==> candidates[i] < candidates[j]
    ensures w in candidates
    ensures forall v :: v in candidates ==> loads[w] <= loads[v] && (v < w ==> loads[w] < loads[v])
  {
    w := candidates[0];
    for i := 1 to |candidates|
      invariant w in candidates[..i]
      invariant forall j :: 0 <= j < i ==>
        loads[w] <= loads[candidates[j]] && (candidates[j] < w ==> loads[w] < loads[candidates[j]])
    {
      if loads[candidates[i]] < loads[w] {
        w := candidates[i];
      }
    }
  }

  /** The workers, in order, on which `accounts` are all unlocked. */
  method FreeWorkers(accounts: set<Pubkey>, locked: array<set<Pubkey>>) returns (available: seq<nat>)
    ensures forall i :: 0 <= i < |available| ==> available[i] < locked.Length && accounts !! locked[available[i]]
    ensures forall w :: 0 <= w < locked.Length && accounts !! locked[w] ==> w in available
    ensures forall i, j :: 0 <= i < j < |available| ==> available[i] < available[j]
  {
    available := [];
    for w := 0 to locked.Length
      invariant forall i :: 0 <= i < |available| ==> available[i] < w && accounts !! locked[available[i]]
      invariant forall v :: 0 <= v < w && accounts !! locked[v] ==> v in available
      invariant forall i, j :: 0 <= i < j < |available| ==> available[i] < available[j]
    {
      if accounts !! locked[w] {
        available := available + [w];
      }
    }
  }

  /** The tracked locks and counters agree with the placement so far. */
  ghost predicate Tracks(units: seq<Node>, before: seq<nat>, locked: seq<set<Pubkey>>, loads: seq<u64>)
    requires |before| <= |units|
  {
    && |locked| == |loads|
    && forall w :: 0 <= w < |locked| ==>
      locked[w] == LockedBy(units, before, w) && loads[w] == Counter(units, before, w)
  }

  lemma LockedAfter(units: seq<Node>, before: seq<nat>, w: nat, v: nat)
    requires |before| < |units|
    ensures LockedBy(units, before + [w], v)
         == LockedBy(units, before, v) + if v == w then units[|before|].accounts else {}
  {
  }

  lemma CounterAfter(units: seq<Node>, before: seq<nat>, w: nat, v: nat)
    requires |before| < |units|
    ensures var load := Counter(units, before, v);
      Counter(units, before + [w], v) == if v == w then WrappingAdd(load, units[|before|].priority) else load
  {
    var k, sizes := |before|, Priorities(units);
    assert sizes[..k + 1][..k] == sizes[..k] && (before + [w])[..k] == before;
  }

  lemma TracksNext(units: seq<Node>, before: seq<nat>, locked: seq<set<Pubkey>>, loads: seq<u64>, w: nat)
    requires |before| < |units| && w < |locked| && Tracks(units, before, locked, loads)
    ensures var next := units[|before|];
      Tracks(units, before + [w], locked[w := locked[w] + next.accounts],
             loads[w := WrappingAdd(loads[w], next.priority)])
  {
    forall v | 0 <= v < |locked|
      ensures LockedBy(units, before + [w], v) == locked[v] + if v == w then units[|before|].accounts else {}
      ensures Counter(units, before + [w], v)
           == if v == w then WrappingAdd(loads[w], units[|before|].priority) else loads[v]
    {
      LockedAfter(units, before, w, v);
      CounterAfter(units, before, w, v);
    }
  }

  method ChooseWorker(ghost units: seq<Node>, ghost before: seq<nat>, accounts: set<Pubkey>,
      locked: array<set<Pubkey>>, loads: array<u64>) returns (w: nat)
    requires |before| < |units| && accounts == units[|before|].accounts
    requires locked.Length > 0 && Tracks(units, before, locked[..], loads[..])
    ensures IsFirstLeast(units, before, locked.Length, w)
  {
    assert forall v :: 0 <= v < locked.Length ==>
      locked[v] == locked[..][v] == LockedBy(units, before, v) && loads[v] == loads[..][v] == Counter(units, before, v);
    var available := FreeWorkers(accounts, locked);
    ghost var m := locked.Length;
    if available == [] {
      var all := seq(loads.Length, i => i);
      forall v: nat | v < m ensures v in all && !Free(units, before, v) {
        assert all[v] == v;
      }
      w := FirstLeast(all, loads);
    } else {
      assert Free(units, before, available[0]);
      forall v: nat | Eligible(units, before, m, v) ensures v in available {
      }
      w := FirstLeast(available, loads);
    }
  }

  lemma PlacementExtends(units: seq<Node>, before: seq<nat>, m: nat, w: nat)
    requires |before| < |units| && IsGreedyPlacement(units[..|before|], before, m)
    requires IsFirstLeast(units, before, m, w)
    ensures IsGreedyPlacement(units[..|before| + 1], before + [w], m)
  {
    forall k | 0 <= k <= |before|
      ensures IsFirstLeast(units[..|before| + 1], (before + [w])[..k], m, (before + [w])[k])
    {
      assert (before + [w])[..k] == before[..k];
      if k < |before| {
        assert IsFirstLeast(units[..|before|], before[..k], m, before[k]);
        FirstLeastOnPrefix(units, |before|, before[..k], m, before[k]);
      }
      FirstLeastOnPrefix(units, |before| + 1, before[..k], m, (before + [w])[k]);
    }
  }

  /** The choice for a unit depends on the units up to it, not on the later ones. */
  lemma FirstLeastOnPrefix(units: seq<Node>, n: nat, before: seq<nat>, m: nat, w: nat)
    requires |before| < n <= |units|
    ensures IsFirstLeast(units[..n], before, m, w) <==> IsFirstLeast(units, before, m, w)
  {
    assert Priorities(units[..n])[..|before|] == Priorities(units)[..|before|];
    forall v: nat
      ensures Free(units[..n], before, v) <==> Free(units, before, v)
      ensures Counter(units[..n], before, v) == Counter(units, before, v)
    {
      assert LockedBy(units[..n], before, v) == LockedBy(units, before, v);
    }
    assert forall v: nat :: Eligible(units[..n], before, m, v) <==> Eligible(units, before, m, v);
  }

  /** One turn of the loop: choose a worker, lock the unit's accounts there, add its load. */
  method PlaceNext(ghost units: seq<Node>, ghost before: seq<nat>, node: Node,
      locked: array<set<Pubkey>>, loads: array<u64>) returns (w: nat)
    requires |before| < |units| && node == units[|before|]
    requires locked.Length > 0 && Tracks(units, before, locked[..], loads[..])
    modifies locked, loads
    ensures IsFirstLeast(units, before, locked.Length, w)
    ensures Tracks(units, before + [w], locked[..], loads[..])
  {
    w := ChooseWorker(units, before, node.accounts, locked, loads);
    TracksNext(units, before, locked[..], loads[..], w);
    locked[w] := locked[w] + node.accounts;
    loads[w] := WrappingAdd(loads[w], node.priority);
  }

  method AssignWorkers(nodes: seq<Node>, sorted: seq<nat>, workerCount: nat)
    returns (assignments: seq<WorkerAssignment>)
    requires forall k :: 0 <= k < |sorted| ==> sorted[k] < |nodes|
    requires workerCount > 0 || sorted == []
    ensures |assignments| == |sorted| && Names(StableSort.Arrange(nodes, sorted), assignments)
    ensures IsGreedyPlacement(StableSort.Arrange(nodes, sorted), WorkersIn(assignments), workerCount)
  {
    ghost var units := StableSort.Arrange(nodes, sorted);
    assignments := [];
    var workerLocked := new set<Pubkey>[workerCount](_ => {});
    var workerLoads := new u64[workerCount](_ => 0);
    ghost var workers: seq<nat> := [];
    for k := 0 to |sorted|
      invariant |assignments| == |workers| == k && workers == WorkersIn(assignments) && Names(units, assignments)
      invariant Tracks(units, workers, workerLocked[..], workerLoads[..])
      invariant IsGreedyPlacement(units[..k], workers, workerCount)
    {
      var node := nodes[sorted[k]];
      var workerId := PlaceNext(units, workers, node, workerLocked, workerLoads);
      PlacementExtends(units, workers, workerCount, workerId);
      workers := workers + [workerId];
      assignments := assignments + [WorkerAssignment(node.id, workerId, node.isBundle)];
    }
    assert units[..|sorted|] == units;
  }
}
