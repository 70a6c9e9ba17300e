/** The external scheduler: first fit within a request, and a persistent round-robin fallback. */
module RoundRobinScheduling {
  import opened Core
  import opened FirstFit
  import opened Protocol

  /** The answer to a request, given the counter when it arrives. */
  function Answer(nextWorker: u64, items: seq<ExecutionUnitData>, workerCount: nat): seq<WorkerAssignment> {
    if workerCount == 0 then []
    else TurnAssignments(TurnState(NoLocks(workerCount), nextWorker), UnitsOfItems(items), |items|)
  }

  function CounterAfter(nextWorker: u64, items: seq<ExecutionUnitData>, workerCount: nat): u64 {
    if workerCount == 0 then nextWorker
    else TurnStateAfter(TurnState(NoLocks(workerCount), nextWorker), UnitsOfItems(items), |items|).nextWorker
  }

  class RoundRobinScheduler {
    var nextWorker: u64

    constructor ()
      ensures nextWorker == 0
    {
      nextWorker := 0;
    }

    method Schedule(items: seq<ExecutionUnitData>, workerCount: nat) returns (assignments: seq<WorkerAssignment>)
      modifies this
      ensures assignments == Answer(old(nextWorker), items, workerCount)
      ensures nextWorker == CounterAfter(old(nextWorker), items, workerCount)
    {
      if workerCount == 0 {
        return [];
      }
      ghost var units := UnitsOfItems(items);
      ghost var start := TurnState(NoLocks(workerCount), nextWorker);
      var workerLocked: Locks := seq(workerCount, w => {});
      assert workerLocked == NoLocks(workerCount);
      assignments := [];
      for k := 0 to |items|
        invariant |workerLocked| == workerCount
        invariant TurnState(workerLocked, nextWorker) == TurnStateAfter(start, units, k)
        invariant assignments == TurnAssignments(start, units, k)
      {
        var itemAccounts := ElementsOf(items[k].accounts);
        TurnOneMore(start, units, k);
        var workerId := ChooseWorker(workerLocked, itemAccounts);
        workerLocked := workerLocked[workerId := workerLocked[workerId] + itemAccounts];
        assignments := assignments + [WorkerAssignment(items[k].id, workerId, items[k].BundleData?)];
      }
    }

    /** The first free worker, or else the next one in turn. */
    method ChooseWorker(workerLocked: Locks, itemAccounts: set<Pubkey>) returns (workerId: nat)
      requires |workerLocked| > 0
      modifies this
      ensures var step := TurnStep(TurnState(workerLocked, old(nextWorker)), itemAccounts);
        && workerId == step.0 && nextWorker == step.1.nextWorker
        && step.1.locks == workerLocked[workerId := workerLocked[workerId] + itemAccounts]
    {
      workerId := 0;
      while workerId < |workerLocked| && !(workerLocked[workerId] !! itemAccounts)
        invariant workerId <= |workerLocked|
        invariant FirstFree(workerLocked, itemAccounts, 0) == FirstFree(workerLocked, itemAccounts, workerId)
      {
        workerId := workerId + 1;
      }
      if workerId == |workerLocked| {
        workerId := nextWorker % |workerLocked|;
        nextWorker := WrappingAdd(nextWorker, 1);
      }
    }
  }

  lemma TurnOneMore(start: TurnState, units: seq<WorkUnit>, k: nat)
    requires |start.locks| > 0 && k < |units|
    ensures var step := TurnStep(TurnStateAfter(start, units, k), units[k].accounts);
      && TurnStateAfter(start, units, k + 1) == step.1
      && TurnAssignments(start, units, k + 1)
         == TurnAssignments(start, units, k) + [WorkerAssignment(units[k].id, step.0, units[k].isBundle)]
  {
  }

  // ----- the answer, read from the request and itself alone

  ghost predicate ItemsShare(items: seq<ExecutionUnitData>, i: nat, j: nat)
    requires i < |items| && j < |items|
  {
    exists key :: key in items[i].accounts && key in items[j].accounts
  }

  /** The answer gave worker w an item before item k that names one of item k's accounts. */
  ghost predicate Taken(items: seq<ExecutionUnitData>, answer: seq<WorkerAssignment>, k: nat, w: nat)
    requires k < |items| <= |answer|
  {
    exists i :: 0 <= i < k && answer[i].workerId == w && ItemsShare(items, i, k)
  }

  ghost predicate AllTaken(items: seq<ExecutionUnitData>, answer: seq<WorkerAssignment>, m: nat, k: nat)
    requires k < |items| <= |answer|
  {
    forall w: nat :: w < m ==> Taken(items, answer, k, w)
  }

  /** How many of the first k items found every worker taken. */
  ghost function AllTakenBefore(items: seq<ExecutionUnitData>, answer: seq<WorkerAssignment>, m: nat, k: nat): nat
    requires k <= |items| <= |answer|
  {
    if k == 0 then 0
    else AllTakenBefore(items, answer, m, k - 1) + if AllTaken(items, answer, m, k - 1) then 1 else 0
  }

  lemma AnswerAt(nextWorker: u64, items: seq<ExecutionUnitData>, m: nat, k: nat)
    requires m > 0 && k < |items|
    ensures |Answer(nextWorker, items, m)| == |items|
    ensures Answer(nextWorker, items, m)[k]
         == TurnAssignment(TurnState(NoLocks(m), nextWorker), UnitsOfItems(items), k)
  {
    TurnAssignmentAt(TurnState(NoLocks(m), nextWorker), UnitsOfItems(items), |items|, k);
  }

  lemma GivenMeansTaken(items: seq<ExecutionUnitData>, chosen: seq<nat>, answer: seq<WorkerAssignment>, k: nat, w: nat)
    requires k < |items| == |answer| == |chosen|
    requires forall i :: 0 <= i < k ==> answer[i].workerId == chosen[i]
    ensures !(UnitsOfItems(items)[k].accounts !! GivenTo(UnitsOfItems(items), chosen, k, w))
      <==> Taken(items, answer, k, w)
  {
    var units := UnitsOfItems(items);
    if key :| key in units[k].accounts && key in GivenTo(units, chosen, k, w) {
      GivenByAUnit(units, chosen, k, w, key);
      var i :| 0 <= i < k && chosen[i] == w && key in units[i].accounts;
      assert key in items[i].accounts && key in items[k].accounts;
      assert ItemsShare(items, i, k);
    }
    if i :| 0 <= i < k && answer[i].workerId == w && ItemsShare(items, i, k) {
      var key :| key in items[i].accounts && key in items[k].accounts;
      assert chosen[i] == w && key in units[i].accounts;
      GivenByAUnit(units, chosen, k, w, key);
    }
  }

  lemma LockedMeansTaken(nextWorker: u64, items: seq<ExecutionUnitData>, m: nat, k: nat, w: nat)
    requires m > 0 && k < |items| && w < m
    ensures |Answer(nextWorker, items, m)| == |items|
    ensures !(UnitsOfItems(items)[k].accounts !! LocksBefore(nextWorker, items, m, k)[w])
      <==> Taken(items, Answer(nextWorker, items, m), k, w)
  {
    var units, start := UnitsOfItems(items), TurnState(NoLocks(m), nextWorker);
    LocksAreWhatWasGiven(start, units, k, w);
    forall i | 0 <= i < k ensures Answer(nextWorker, items, m)[i].workerId == Choices(start, units)[i] {
      AnswerAt(nextWorker, items, m, i);
    }
    AnswerAt(nextWorker, items, m, k);
    GivenMeansTaken(items, Choices(start, units), Answer(nextWorker, items, m), k, w);
  }

  /** The worker locks when item k arrives. */
  function LocksBefore(nextWorker: u64, items: seq<ExecutionUnitData>, m: nat, k: nat): (locks: Locks)
    requires m > 0 && k <= |items|
    ensures |locks| == m
  {
    TurnStateAfter(TurnState(NoLocks(m), nextWorker), UnitsOfItems(items), k).locks
  }

  /** Where first fit finds a worker it is the lowest one not taken, and where it finds none all are. */
  lemma FreeMeansNotTaken(nextWorker: u64, items: seq<ExecutionUnitData>, m: nat, k: nat)
    requires m > 0 && k < |items|
    ensures |Answer(nextWorker, items, m)| == |items|
    ensures var answer := Answer(nextWorker, items, m);
      match FirstFree(LocksBefore(nextWorker, items, m, k), UnitsOfItems(items)[k].accounts, 0)
      case None => AllTaken(items, answer, m, k)
      case Some(w) => w < m && !Taken(items, answer, k, w) && forall v: nat :: v < w ==> Taken(items, answer, k, v)
  {
    var answer := Answer(nextWorker, items, m);
    AnswerAt(nextWorker, items, m, k);
    forall w: nat | w < m
      ensures !(UnitsOfItems(items)[k].accounts !! LocksBefore(nextWorker, items, m, k)[w])
        <==> Taken(items, answer, k, w)
    {
      LockedMeansTaken(nextWorker, items, m, k, w);
    }
  }

  lemma FallbackMeansAllTaken(nextWorker: u64, items: seq<ExecutionUnitData>, m: nat, k: nat)
    requires m > 0 && k < |items|
    ensures |Answer(nextWorker, items, m)| == |items|
    ensures FallsBack(TurnState(NoLocks(m), nextWorker), UnitsOfItems(items), k)
      <==> AllTaken(items, Answer(nextWorker, items, m), m, k)
  {
    FreeMeansNotTaken(nextWorker, items, m, k);
  }

  lemma {:induction false} CountsAgree(start: TurnState, items: seq<ExecutionUnitData>, answer: seq<WorkerAssignment>,
      k: nat)
    requires |start.locks| > 0 && k <= |items| == |answer|
    requires forall i: nat :: i < |items| ==>
      (FallsBack(start, UnitsOfItems(items), i) <==> AllTaken(items, answer, |start.locks|, i))
    ensures Fallbacks(start, UnitsOfItems(items), k) == AllTakenBefore(items, answer, |start.locks|, k)
  {
    if k > 0 {
      CountsAgree(start, items, answer, k - 1);
      assert FallsBack(start, UnitsOfItems(items), k - 1) <==> AllTaken(items, answer, |start.locks|, k - 1);
    }
  }

  lemma FallbacksAreCounted(nextWorker: u64, items: seq<ExecutionUnitData>, m: nat, k: nat)
    requires m > 0 && k <= |items|
    ensures |Answer(nextWorker, items, m)| == |items|
    ensures Fallbacks(TurnState(NoLocks(m), nextWorker), UnitsOfItems(items), k)
         == AllTakenBefore(items, Answer(nextWorker, items, m), m, k)
  {
    var start, answer := TurnState(NoLocks(m), nextWorker), Answer(nextWorker, items, m);
    forall i: nat | i < |items|
      ensures FallsBack(start, UnitsOfItems(items), i) <==> AllTaken(items, answer, m, i)
    {
      FallbackMeansAllTaken(nextWorker, items, m, i);
    }
    CountsAgree(start, items, answer, k);
  }

  /** Item k goes to the lowest worker that was given no earlier item sharing an account with it, and if
      there is none, to the next worker in turn: the counter plus the earlier such items. */
  ghost predicate GoesInTurn(nextWorker: u64, items: seq<ExecutionUnitData>, answer: seq<WorkerAssignment>,
      m: nat, k: nat)
    requires m > 0 && k < |items| <= |answer|
  {
    var w := answer[k].workerId;
    if AllTaken(items, answer, m, k) then
      w == ((nextWorker + AllTakenBefore(items, answer, m, k)) % U64_MODULUS) % m
    else
      w < m && !Taken(items, answer, k, w) && forall v: nat :: v < w ==> Taken(items, answer, k, v)
  }

  lemma AnswerIsFirstFitInTurn(nextWorker: u64, items: seq<ExecutionUnitData>, m: nat, k: nat)
    requires m > 0 && k < |items|
    ensures |Answer(nextWorker, items, m)| == |items|
    ensures var answer := Answer(nextWorker, items, m);
      && answer[k].unitId == items[k].id && answer[k].isBundle == items[k].BundleData?
      && GoesInTurn(nextWorker, items, answer, m, k)
  {
    var units, start := UnitsOfItems(items), TurnState(NoLocks(m), nextWorker);
    AnswerAt(nextWorker, items, m, k);
    FreeMeansNotTaken(nextWorker, items, m, k);
    if FallsBack(start, units, k) {
      FallbacksTakeTurns(start, units, k);
      FallbacksAreCounted(nextWorker, items, m, k);
    }
  }

  /** The counter moves on by one for each item that found every worker taken. With no workers there is no
      answer and the counter stays. */
  lemma CounterCountsFallbacks(nextWorker: u64, items: seq<ExecutionUnitData>, m: nat)
    ensures m == 0 ==> Answer(nextWorker, items, m) == [] && CounterAfter(nextWorker, items, m) == nextWorker
    ensures m > 0 ==> |Answer(nextWorker, items, m)| == |items|
    ensures m > 0 ==>
      CounterAfter(nextWorker, items, m)
      == (nextWorker + AllTakenBefore(items, Answer(nextWorker, items, m), m, |items|)) % U64_MODULUS
  {
    if m > 0 {
      FallbacksTakeTurns(TurnState(NoLocks(m), nextWorker), UnitsOfItems(items), |items|);
      FallbacksAreCounted(nextWorker, items, m, |items|);
    }
  }

  /** The items a batch becomes on the wire: the same ids, account sets and kinds, in order. */
  ghost predicate Encodes(items: seq<ExecutionUnitData>, bundles: seq<Bundle>, looseTxs: seq<Transaction>) {
    UnitsOfItems(items) == UnitsOf(bundles, looseTxs)
  }

  /** On the same batch, a freshly reset greedy scheduler that drops nothing gives the external
      scheduler's answer, whatever the counter, and the counter does not move. */
  lemma ExternalMatchesGreedy(bundles: seq<Bundle>, looseTxs: seq<Transaction>, items: seq<ExecutionUnitData>,
      m: nat, nextWorker: u64)
    requires m > 0 && Encodes(items, bundles, looseTxs)
    requires var units := UnitsOf(bundles, looseTxs);
      forall i :: 0 <= i < |units| ==> GreedyChoice(NoLocks(m), units, i).Some?
    ensures var units := UnitsOf(bundles, looseTxs);
      Answer(nextWorker, items, m) == GreedyAssignments(NoLocks(m), units, |units|)
    ensures CounterAfter(nextWorker, items, m) == nextWorker
  {
    SchedulersAgreeWithoutDrops(TurnState(NoLocks(m), nextWorker), UnitsOf(bundles, looseTxs));
  }

  /** Otherwise the answers part at the first unit greedy drops, which the counter places. */
  lemma ExternalPartsAtFirstDrop(bundles: seq<Bundle>, looseTxs: seq<Transaction>, items: seq<ExecutionUnitData>,
      m: nat, nextWorker: u64, k: nat)
    requires m > 0 && Encodes(items, bundles, looseTxs) && k < |items|
    requires var units := UnitsOf(bundles, looseTxs);
      && (forall i :: 0 <= i < k ==> GreedyChoice(NoLocks(m), units, i).Some?)
      && GreedyChoice(NoLocks(m), units, k).None?
    ensures var units := UnitsOf(bundles, looseTxs); var answer := Answer(nextWorker, items, m);
      && |answer| == |items|
      && answer[..k] == GreedyAssignments(NoLocks(m), units, k)
      && answer[k].workerId == nextWorker % m
  {
    var units, start := UnitsOf(bundles, looseTxs), TurnState(NoLocks(m), nextWorker);
    SchedulersAgreeUntilFirstDrop(start, units, k);
    AssignmentsAgree(start, units, k);
    forall i | 0 <= i < |units|
      ensures TurnAssignments(start, units, |units|)[i] == TurnAssignment(start, units, i)
      ensures i < k ==> TurnAssignments(start, units, k)[i] == TurnAssignment(start, units, i)
    {
      TurnAssignmentAt(start, units, |units|, i);
      if i < k {
        TurnAssignmentAt(start, units, k, i);
      }
    }
    assert TurnAssignments(start, units, |units|)[..k] == TurnAssignments(start, units, k);
  }
}
