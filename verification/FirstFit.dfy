/** First-fit placement: a unit goes to the lowest-numbered worker that holds none of its accounts.
    The two schedulers built on it differ only in what they do when there is no such worker. */
module FirstFit {
  import opened Core

  /** What a scheduler needs of a bundle, a transaction, or an item of the wire protocol. */
  datatype WorkUnit = WorkUnit(id: string, accounts: set<Pubkey>, isBundle: bool)

  function BundleWork(b: Bundle): WorkUnit {
    WorkUnit(Decimal(b.id), b.AllAccounts(), true)
  }

  function TransactionWork(t: Transaction): WorkUnit {
    WorkUnit(t.signature, t.AllAccounts(), false)
  }

  function UnitsOf(bundles: seq<Bundle>, looseTxs: seq<Transaction>): (units: seq<WorkUnit>)
    ensures |units| == |bundles| + |looseTxs|
  {
    seq(|bundles|, i requires 0 <= i < |bundles| => BundleWork(bundles[i]))
    + seq(|looseTxs|, i requires 0 <= i < |looseTxs| => TransactionWork(looseTxs[i]))
  }

  /** Unit i of a batch, bundles first, carries the id and kind of what was submitted, and exactly the
      accounts it names. */
  lemma UnitsAreTheBatch(bundles: seq<Bundle>, looseTxs: seq<Transaction>, i: nat)
    requires i < |bundles| + |looseTxs|
    ensures var u := UnitsOf(bundles, looseTxs)[i];
      if i < |bundles| then
        u.id == Decimal(bundles[i].id) && u.isBundle && forall key :: key in u.accounts <==> bundles[i].Lists(key)
      else
        var t := looseTxs[i - |bundles|];
        u.id == t.signature && !u.isBundle && forall key :: key in u.accounts <==> t.Lists(key)
  {
    forall key
      ensures i < |bundles| ==> (key in bundles[i].AllAccounts() <==> bundles[i].Lists(key))
      ensures i >= |bundles| ==>
        (key in looseTxs[i - |bundles|].AllAccounts() <==> looseTxs[i - |bundles|].Lists(key))
    {
      if i < |bundles| {
        BundleAccountsAreListed(bundles[i], key);
      } else {
        TransactionAccountsAreListed(looseTxs[i - |bundles|], key);
      }
    }
  }

  type Locks = seq<set<Pubkey>>

  function NoLocks(m: nat): (locks: Locks)
    ensures |locks| == m && forall w :: 0 <= w < m ==> locks[w] == {}
  {
    seq(m, w => {})
  }

  /** The first worker from `from` on that holds none of the accounts. */
  function FirstFree(locks: Locks, accounts: set<Pubkey>, from: nat): (r: Option<nat>)
    requires from <= |locks|
    ensures r.Some? ==> from <= r.value < |locks| && accounts !! locks[r.value]
    ensures forall w :: from <= w < (if r.Some? then r.value else |locks|) ==> !(accounts !! locks[w])
    decreases |locks| - from
  {
    if from == |locks| then None
    else if accounts !! locks[from] then Some(from)
    else FirstFree(locks, accounts, from + 1)
  }

  function Occupy(locks: Locks, w: nat, accounts: set<Pubkey>): (next: Locks)
    requires w < |locks|
    ensures |next| == |locks|
  {
    locks[w := locks[w] + accounts]
  }

  // ----- greedy: a unit without a free worker is dropped

  function GreedyLocks(start: Locks, units: seq<WorkUnit>, k: nat): (locks: Locks)
    requires k <= |units|
    ensures |locks| == |start|
  {
    if k == 0 then start
    else
      var before := GreedyLocks(start, units, k - 1);
      match FirstFree(before, units[k - 1].accounts, 0)
      case None => before
      case Some(w) => Occupy(before, w, units[k - 1].accounts)
  }

  function GreedyChoice(start: Locks, units: seq<WorkUnit>, k: nat): Option<nat>
    requires k < |units|
  {
    FirstFree(GreedyLocks(start, units, k), units[k].accounts, 0)
  }

  function GreedyAssignments(start: Locks, units: seq<WorkUnit>, k: nat): seq<WorkerAssignment>
    requires k <= |units|
  {
    if k == 0 then []
    else
      var u := units[k - 1];
      GreedyAssignments(start, units, k - 1)
      + match GreedyChoice(start, units, k - 1)
        case None => []
        case Some(w) => [WorkerAssignment(u.id, w, u.isBundle)]
  }

  /** Consecutive calls without release behave as one call on the concatenated batch. */
  lemma {:induction false} GreedyCallsCompose(start: Locks, first: seq<WorkUnit>, second: seq<WorkUnit>, k: nat)
    requires k <= |second|
    ensures GreedyLocks(GreedyLocks(start, first, |first|), second, k)
         == GreedyLocks(start, first + second, |first| + k)
    ensures GreedyAssignments(start, first, |first|)
          + GreedyAssignments(GreedyLocks(start, first, |first|), second, k)
         == GreedyAssignments(start, first + second, |first| + k)
  {
    if k == 0 {
      GreedyPrefix(start, first, second, |first|);
      assert GreedyAssignments(start, first, |first|) + [] == GreedyAssignments(start, first, |first|);
    } else {
      GreedyCallsCompose(start, first, second, k - 1);
      assert (first + second)[|first| + k - 1] == second[k - 1];
    }
  }

  lemma {:induction false} GreedyPrefix(start: Locks, first: seq<WorkUnit>, second: seq<WorkUnit>, k: nat)
    requires k <= |first|
    ensures GreedyLocks(start, first + second, k) == GreedyLocks(start, first, k)
    ensures GreedyAssignments(start, first + second, k) == GreedyAssignments(start, first, k)
  {
    if k > 0 {
      GreedyPrefix(start, first, second, k - 1);
    }
  }

  // ----- round robin: a unit without a free worker goes to the next one in turn

  /** The locks of the call, and the scheduler's persistent counter. */
  datatype TurnState = TurnState(locks: Locks, nextWorker: u64)

  function TurnStep(s: TurnState, accounts: set<Pubkey>): (r: (nat, TurnState))
    requires |s.locks| > 0
    ensures r.0 < |s.locks| && |r.1.locks| == |s.locks|
  {
    match FirstFree(s.locks, accounts, 0)
    case Some(w) => (w, TurnState(Occupy(s.locks, w, accounts), s.nextWorker))
    case None =>
      var w := s.nextWorker % |s.locks|;
      (w, TurnState(Occupy(s.locks, w, accounts), WrappingAdd(s.nextWorker, 1)))
  }

  function TurnStateAfter(start: TurnState, units: seq<WorkUnit>, k: nat): (s: TurnState)
    requires |start.locks| > 0 && k <= |units|
    ensures |s.locks| == |start.locks|
  {
    if k == 0 then start else TurnStep(TurnStateAfter(start, units, k - 1), units[k - 1].accounts).1
  }

  function TurnChoice(start: TurnState, units: seq<WorkUnit>, k: nat): (w: nat)
    requires |start.locks| > 0 && k < |units|
    ensures w < |start.locks|
  {
    TurnStep(TurnStateAfter(start, units, k), units[k].accounts).0
  }

  /** Unit k finds no free worker. */
  predicate FallsBack(start: TurnState, units: seq<WorkUnit>, k: nat)
    requires |start.locks| > 0 && k < |units|
  {
    FirstFree(TurnStateAfter(start, units, k).locks, units[k].accounts, 0).None?
  }

  function TurnAssignment(start: TurnState, units: seq<WorkUnit>, k: nat): WorkerAssignment
    requires |start.locks| > 0 && k < |units|
  {
    WorkerAssignment(units[k].id, TurnChoice(start, units, k), units[k].isBundle)
  }

  function TurnAssignments(start: TurnState, units: seq<WorkUnit>, k: nat): (r: seq<WorkerAssignment>)
    requires |start.locks| > 0 && k <= |units|
    ensures |r| == k
  {
    if k == 0 then [] else TurnAssignments(start, units, k - 1) + [TurnAssignment(start, units, k - 1)]
  }

  lemma {:induction false} TurnAssignmentAt(start: TurnState, units: seq<WorkUnit>, k: nat, i: nat)
    requires |start.locks| > 0 && i < k <= |units|
    ensures TurnAssignments(start, units, k)[i] == TurnAssignment(start, units, i)
  {
    if i < k - 1 {
      TurnAssignmentAt(start, units, k - 1, i);
    }
  }

  /** How many of the first k units find no free worker. */
  function Fallbacks(start: TurnState, units: seq<WorkUnit>, k: nat): nat
    requires |start.locks| > 0 && k <= |units|
  {
    if k == 0 then 0 else Fallbacks(start, units, k - 1) + if FallsBack(start, units, k - 1) then 1 else 0
  }

  lemma WrappingIncrement(x: nat)
    ensures WrappingAdd(x % U64_MODULUS, 1) == (x + 1) % U64_MODULUS
  {
  }

  /** The fallbacks, and only they, take the workers in turn, from where the counter stood. */
  lemma {:induction false} FallbacksTakeTurns(start: TurnState, units: seq<WorkUnit>, k: nat)
    requires |start.locks| > 0 && k <= |units|
    ensures var turn := (start.nextWorker + Fallbacks(start, units, k)) % U64_MODULUS;
      && TurnStateAfter(start, units, k).nextWorker == turn
      && (k < |units| && FallsBack(start, units, k) ==> TurnChoice(start, units, k) == turn % |start.locks|)
  {
    if k > 0 {
      FallbacksTakeTurns(start, units, k - 1);
      WrappingIncrement(start.nextWorker + Fallbacks(start, units, k - 1));
    }
  }

  /** The accounts of the first k units that went to worker w, when unit i went to `chosen[i]`. */
  function GivenTo(units: seq<WorkUnit>, chosen: seq<nat>, k: nat, w: nat): set<Pubkey>
    requires k <= |units| == |chosen|
  {
    if k == 0 then {}
    else GivenTo(units, chosen, k - 1, w) + if chosen[k - 1] == w then units[k - 1].accounts else {}
  }

  lemma {:induction false} GivenByAUnit(units: seq<WorkUnit>, chosen: seq<nat>, k: nat, w: nat, a: Pubkey)
    requires k <= |units| == |chosen|
    ensures a in GivenTo(units, chosen, k, w)
      <==> exists i :: 0 <= i < k && chosen[i] == w && a in units[i].accounts
  {
    if k > 0 {
      GivenByAUnit(units, chosen, k - 1, w, a);
    }
  }

  function Choices(start: TurnState, units: seq<WorkUnit>): (chosen: seq<nat>)
    requires |start.locks| > 0
    ensures |chosen| == |units|
  {
    seq(|units|, i requires 0 <= i < |units| => TurnChoice(start, units, i))
  }

  lemma StepLocksTheChosen(s: TurnState, accounts: set<Pubkey>, w: nat)
    requires |s.locks| > 0 && w < |s.locks|
    ensures TurnStep(s, accounts).1.locks[w] == s.locks[w] + if TurnStep(s, accounts).0 == w then accounts else {}
  {
  }

  /** The states a call goes through, and where it sends each unit. */
  ghost predicate IsTrace(units: seq<WorkUnit>, states: seq<TurnState>, chosen: seq<nat>, m: nat) {
    && |states| == |units| + 1 && |chosen| == |units|
    && (forall i :: 0 <= i < |states| ==> |states[i].locks| == m)
    && (forall i :: 0 <= i < |units| && m > 0 ==> TurnStep(states[i], units[i].accounts) == (chosen[i], states[i + 1]))
  }

  lemma TraceStep(start: TurnState, units: seq<WorkUnit>, k: nat)
    requires |start.locks| > 0 && k < |units|
    ensures TurnStep(TurnStateAfter(start, units, k), units[k].accounts)
         == (TurnChoice(start, units, k), TurnStateAfter(start, units, k + 1))
  {
  }

  lemma TraceOfCall(start: TurnState, units: seq<WorkUnit>) returns (states: seq<TurnState>)
    requires |start.locks| > 0
    ensures IsTrace(units, states, Choices(start, units), |start.locks|)
    ensures forall i :: 0 <= i <= |units| ==> states[i] == TurnStateAfter(start, units, i)
  {
    states := seq(|units| + 1, i requires 0 <= i <= |units| => TurnStateAfter(start, units, i));
    forall i | 0 <= i < |units|
      ensures TurnStep(states[i], units[i].accounts) == (Choices(start, units)[i], states[i + 1])
    {
      TraceStep(start, units, i);
    }
  }

  lemma LockedOneMore(units: seq<WorkUnit>, states: seq<TurnState>, chosen: seq<nat>, m: nat, k: nat, w: nat)
    requires m > 0 && IsTrace(units, states, chosen, m) && k < |units| && w < m
    ensures states[k + 1].locks[w] == states[k].locks[w] + if chosen[k] == w then units[k].accounts else {}
  {
    StepLocksTheChosen(states[k], units[k].accounts, w);
    assert TurnStep(states[k], units[k].accounts) == (chosen[k], states[k + 1]);
  }

  lemma {:induction false} LocksAlongTrace(units: seq<WorkUnit>, states: seq<TurnState>, chosen: seq<nat>, m: nat,
      k: nat, w: nat)
    requires m > 0 && IsTrace(units, states, chosen, m) && k <= |units| && w < m
    ensures states[k].locks[w] == states[0].locks[w] + GivenTo(units, chosen, k, w)
  {
    if k > 0 {
      LocksAlongTrace(units, states, chosen, m, k - 1, w);
      LockedOneMore(units, states, chosen, m, k - 1, w);
    }
  }

  /** Found free or fallen back upon, a worker is locked on every unit it is given, and on nothing else. */
  lemma LocksAreWhatWasGiven(start: TurnState, units: seq<WorkUnit>, k: nat, w: nat)
    requires |start.locks| > 0 && k <= |units| && w < |start.locks|
    ensures TurnStateAfter(start, units, k).locks[w]
         == start.locks[w] + GivenTo(units, Choices(start, units), k, w)
  {
    var states := TraceOfCall(start, units);
    LocksAlongTrace(units, states, Choices(start, units), |start.locks|, k, w);
    assert states[0] == TurnStateAfter(start, units, 0) && states[k] == TurnStateAfter(start, units, k);
  }

  // ----- the two agree until the first unit greedy drops

  /** As long as greedy has dropped nothing, the lock sets agree and the turn counter is untouched. */
  lemma {:induction false} LocksAgree(start: TurnState, units: seq<WorkUnit>, k: nat)
    requires |start.locks| > 0 && k <= |units|
    requires forall i :: 0 <= i < k ==> GreedyChoice(start.locks, units, i).Some?
    ensures TurnStateAfter(start, units, k) == TurnState(GreedyLocks(start.locks, units, k), start.nextWorker)
  {
    if k > 0 {
      LocksAgree(start, units, k - 1);
      assert GreedyChoice(start.locks, units, k - 1).Some?;
    }
  }

  /** Greedy's first drop is round robin's first fallback; before it they choose the same workers, and
      the fallback goes to the worker the counter named when the call began. */
  lemma SchedulersAgreeUntilFirstDrop(start: TurnState, units: seq<WorkUnit>, k: nat)
    requires |start.locks| > 0 && k < |units|
    requires forall i :: 0 <= i < k ==> GreedyChoice(start.locks, units, i).Some?
    ensures forall i :: 0 <= i < k ==>
      !FallsBack(start, units, i) && GreedyChoice(start.locks, units, i) == Some(TurnChoice(start, units, i))
    ensures FallsBack(start, units, k) <==> GreedyChoice(start.locks, units, k).None?
    ensures FallsBack(start, units, k) ==> TurnChoice(start, units, k) == start.nextWorker % |start.locks|
  {
    forall i | 0 <= i <= k
      ensures TurnStateAfter(start, units, i) == TurnState(GreedyLocks(start.locks, units, i), start.nextWorker)
    {
      LocksAgree(start, units, i);
    }
    forall i | 0 <= i < k
      ensures !FallsBack(start, units, i) && GreedyChoice(start.locks, units, i) == Some(TurnChoice(start, units, i))
    {
      assert GreedyChoice(start.locks, units, i).Some?;
    }
  }

  /** If greedy drops nothing the outputs are equal and the counter is unchanged. */
  lemma SchedulersAgreeWithoutDrops(start: TurnState, units: seq<WorkUnit>)
    requires |start.locks| > 0
    requires forall i :: 0 <= i < |units| ==> GreedyChoice(start.locks, units, i).Some?
    ensures TurnAssignments(start, units, |units|) == GreedyAssignments(start.locks, units, |units|)
    ensures TurnStateAfter(start, units, |units|).nextWorker == start.nextWorker
  {
    LocksAgree(start, units, |units|);
    AssignmentsAgree(start, units, |units|);
  }

  lemma {:induction false} AssignmentsAgree(start: TurnState, units: seq<WorkUnit>, k: nat)
    requires |start.locks| > 0 && k <= |units|
    requires forall i :: 0 <= i < k ==> GreedyChoice(start.locks, units, i).Some?
    ensures TurnAssignments(start, units, k) == GreedyAssignments(start.locks, units, k)
  {
    if k > 0 {
      AssignmentsAgree(start, units, k - 1);
      ChoicesAgree(start, units, k - 1);
    }
  }

  lemma ChoicesAgree(start: TurnState, units: seq<WorkUnit>, k: nat)
    requires |start.locks| > 0 && k < |units|
    requires forall i :: 0 <= i <= k ==> GreedyChoice(start.locks, units, i).Some?
    ensures GreedyChoice(start.locks, units, k) == Some(TurnChoice(start, units, k))
  {
    LocksAgree(start, units, k);
    assert GreedyChoice(start.locks, units, k).Some?;
  }
}
