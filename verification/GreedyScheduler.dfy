/** The greedy scheduler: persistent per-worker locks, first fit, blocked units dropped. */
module GreedyScheduling {
  import opened Core
  import opened FirstFit
  import opened DisjointUnion
  import opened Permutations

  datatype SchedulerError = NoAvailableWorker

  class GreedyScheduler {
    var workerStates: Locks

    constructor (workerCount: nat)
      ensures workerStates == NoLocks(workerCount)
    {
      workerStates := seq(workerCount, w => {});
    }

    method Reset()
      modifies this
      ensures workerStates == NoLocks(|old(workerStates)|)
    {
      var w := 0;
      while w < |workerStates|
        invariant w <= |workerStates| == |old(workerStates)|
        invariant forall v :: 0 <= v < w ==> workerStates[v] == {}
      {
        workerStates := workerStates[w := {}];
        w := w + 1;
      }
    }

    /** An unknown worker id releases nothing. */
    method ReleaseAccounts(workerId: nat, accounts: set<Pubkey>)
      modifies this
      ensures workerStates ==
        if workerId < |old(workerStates)|
        then old(workerStates)[workerId := old(workerStates)[workerId] - accounts]
        else old(workerStates)
    {
      if workerId < |workerStates| {
        var todo := accounts;
        while todo != {}
          invariant todo <= accounts && |workerStates| == |old(workerStates)|
          invariant workerStates[workerId] == old(workerStates)[workerId] - (accounts - todo)
          invariant forall w :: 0 <= w < |workerStates| && w != workerId ==> workerStates[w] == old(workerStates)[w]
          decreases todo
        {
          var account :| account in todo;
          workerStates := workerStates[workerId := workerStates[workerId] - {account}];
          todo := todo - {account};
        }
        assert accounts - todo == accounts;
      }
    }

    method FindAvailableWorker(accounts: set<Pubkey>) returns (r: Option<nat>)
      ensures r == FirstFree(workerStates, accounts, 0)
    {
      for idx := 0 to |workerStates|
        invariant FirstFree(workerStates, accounts, 0) == FirstFree(workerStates, accounts, idx)
      {
        if accounts !! workerStates[idx] {
          return Some(idx);
        }
      }
      return None;
    }

    method ScheduleBundle(bundle: Bundle) returns (r: Result<WorkerAssignment, SchedulerError>)
      modifies this
      ensures Places(old(workerStates), BundleWork(bundle), r, workerStates)
    {
      r := ScheduleUnit(BundleWork(bundle));
    }

    method ScheduleTransaction(tx: Transaction) returns (r: Result<WorkerAssignment, SchedulerError>)
      modifies this
      ensures Places(old(workerStates), TransactionWork(tx), r, workerStates)
    {
      r := ScheduleUnit(TransactionWork(tx));
    }

    method ScheduleUnit(u: WorkUnit) returns (r: Result<WorkerAssignment, SchedulerError>)
      modifies this
      ensures Places(old(workerStates), u, r, workerStates)
    {
      var found := FindAvailableWorker(u.accounts);
      if found.None? {
        return Err(NoAvailableWorker);
      }
      var workerId := found.value;
      workerStates := workerStates[workerId := workerStates[workerId] + u.accounts];
      return Ok(WorkerAssignment(u.id, workerId, u.isBundle));
    }

    method Schedule(bundles: seq<Bundle>, looseTxs: seq<Transaction>) returns (assignments: seq<WorkerAssignment>)
      modifies this
      ensures var units := UnitsOf(bundles, looseTxs);
        && workerStates == GreedyLocks(old(workerStates), units, |units|)
        && assignments == GreedyAssignments(old(workerStates), units, |units|)
    {
      ghost var start := workerStates;
      ghost var units := UnitsOf(bundles, looseTxs);
      assignments := ScheduleBundles(start, units, bundles);
      assignments := ScheduleLoose(start, units, |bundles|, looseTxs, assignments);
    }

    method ScheduleBundles(ghost start: Locks, ghost units: seq<WorkUnit>, bundles: seq<Bundle>)
      returns (assignments: seq<WorkerAssignment>)
      requires |bundles| <= |units| && workerStates == start
      requires forall b :: 0 <= b < |bundles| ==> units[b] == BundleWork(bundles[b])
      modifies this
      ensures workerStates == GreedyLocks(start, units, |bundles|)
      ensures assignments == GreedyAssignments(start, units, |bundles|)
    {
      assignments := [];
      for b := 0 to |bundles|
        invariant workerStates == GreedyLocks(start, units, b)
        invariant assignments == GreedyAssignments(start, units, b)
      {
        var r := ScheduleBundle(bundles[b]);
        PlacesNext(start, units, b, r, workerStates);
        if r.Ok? {
          assignments := assignments + [r.value];
        }
      }
    }

    method ScheduleLoose(ghost start: Locks, ghost units: seq<WorkUnit>, ghost first: nat,
        looseTxs: seq<Transaction>, assignments0: seq<WorkerAssignment>)
      returns (assignments: seq<WorkerAssignment>)
      requires |units| == first + |looseTxs|
      requires forall t :: 0 <= t < |looseTxs| ==> units[first + t] == TransactionWork(looseTxs[t])
      requires workerStates == GreedyLocks(start, units, first)
      requires assignments0 == GreedyAssignments(start, units, first)
      modifies this
      ensures workerStates == GreedyLocks(start, units, |units|)
      ensures assignments == GreedyAssignments(start, units, |units|)
    {
      assignments := assignments0;
      for t := 0 to |looseTxs|
        invariant workerStates == GreedyLocks(start, units, first + t)
        invariant assignments == GreedyAssignments(start, units, first + t)
      {
        var r := ScheduleTransaction(looseTxs[t]);
        PlacesNext(start, units, first + t, r, workerStates);
        if r.Ok? {
          assignments := assignments + [r.value];
        }
      }
    }
  }

  lemma PlacesNext(start: Locks, units: seq<WorkUnit>, k: nat,
      r: Result<WorkerAssignment, SchedulerError>, after: Locks)
    requires k < |units| && Places(GreedyLocks(start, units, k), units[k], r, after)
    ensures after == GreedyLocks(start, units, k + 1)
    ensures GreedyAssignments(start, units, k + 1)
         == GreedyAssignments(start, units, k) + if r.Ok? then [r.value] else []
  {
  }

  /** A unit is placed on the first free worker and locks its accounts there, or changes nothing. */
  ghost predicate Places(before: Locks, u: WorkUnit, r: Result<WorkerAssignment, SchedulerError>, after: Locks) {
    match FirstFree(before, u.accounts, 0)
    case None => r == Err(NoAvailableWorker) && after == before
    case Some(w) => r == Ok(WorkerAssignment(u.id, w, u.isBundle)) && after == Occupy(before, w, u.accounts)
  }

  // ----- whole runs: placing, releasing what a placed unit holds, resetting

  datatype Placed = Placed(worker: nat, unit: WorkUnit)

  /** The lock sets, and the units placed and not yet released, by serial number. */
  datatype State = State(locks: Locks, live: map<nat, Placed>, serial: nat)

  datatype Op = Place(u: WorkUnit) | Release(id: nat) | ResetAll

  function Init(m: nat): State {
    State(NoLocks(m), map[], 0)
  }

  predicate Enabled(s: State, op: Op) {
    op.Release? ==> op.id in s.live && s.live[op.id].worker < |s.locks|
  }

  function Next(s: State, op: Op): State
    requires Enabled(s, op)
  {
    match op
    case Place(u) =>
      (match FirstFree(s.locks, u.accounts, 0)
       case None => s
       case Some(w) => State(Occupy(s.locks, w, u.accounts), s.live[s.serial := Placed(w, u)], s.serial + 1))
    case Release(id) =>
      var p := s.live[id];
      s.(locks := s.locks[p.worker := s.locks[p.worker] - p.unit.accounts], live := s.live - {id})
    case ResetAll => s.(locks := NoLocks(|s.locks|), live := map[])
  }

  ghost predicate Reaches(s: State, ops: seq<Op>, t: State)
    decreases |ops|
  {
    if ops == [] then s == t else Enabled(s, ops[0]) && Reaches(Next(s, ops[0]), ops[1..], t)
  }

  ghost function OnWorker(live: map<nat, Placed>, w: nat): map<nat, set<Pubkey>> {
    map id | id in live && live[id].worker == w :: live[id].unit.accounts
  }

  /** Each worker's lock set is the disjoint union of its live units' accounts. */
  ghost predicate Inv(s: State) {
    && (forall id :: id in s.live ==> id < s.serial && s.live[id].worker < |s.locks|)
    && (forall w :: 0 <= w < |s.locks| ==> IsDisjointUnion(s.locks[w], OnWorker(s.live, w)))
  }

  lemma PlaceKeepsUnion(s: State, u: WorkUnit, w: nat)
    requires Inv(s) && w < |s.locks|
    ensures IsDisjointUnion(Next(s, Place(u)).locks[w], OnWorker(Next(s, Place(u)).live, w))
  {
    var t := Next(s, Place(u));
    if FirstFree(s.locks, u.accounts, 0) == Some(w) {
      AddPart(s.locks[w], OnWorker(s.live, w), s.serial, u.accounts);
      assert OnWorker(t.live, w) == OnWorker(s.live, w)[s.serial := u.accounts];
    } else {
      assert OnWorker(t.live, w) == OnWorker(s.live, w);
    }
  }

  lemma ReleaseKeepsUnion(s: State, id: nat, w: nat)
    requires Inv(s) && Enabled(s, Release(id)) && w < |s.locks|
    ensures IsDisjointUnion(Next(s, Release(id)).locks[w], OnWorker(Next(s, Release(id)).live, w))
  {
    var t := Next(s, Release(id));
    if s.live[id].worker == w {
      RemovePart(s.locks[w], OnWorker(s.live, w), id);
      assert OnWorker(t.live, w) == OnWorker(s.live, w) - {id};
    } else {
      assert OnWorker(t.live, w) == OnWorker(s.live, w);
    }
  }

  lemma StepKeepsInv(s: State, op: Op)
    requires Inv(s) && Enabled(s, op)
    ensures Inv(Next(s, op))
  {
    var t := Next(s, op);
    forall w | 0 <= w < |s.locks| ensures IsDisjointUnion(t.locks[w], OnWorker(t.live, w)) {
      match op
      case Place(u) => PlaceKeepsUnion(s, u, w);
      case Release(id) => ReleaseKeepsUnion(s, id, w);
      case ResetAll =>
    }
  }

  lemma {:induction false} RunKeepsInv(s: State, ops: seq<Op>, t: State)
    requires Inv(s) && Reaches(s, ops, t)
    ensures Inv(t) && |t.locks| == |s.locks|
    decreases |ops|
  {
    if ops != [] {
      StepKeepsInv(s, ops[0]);
      RunKeepsInv(Next(s, ops[0]), ops[1..], t);
    }
  }

  /** A placed unit is live until it is released or everything is reset, and never again after that. */
  lemma {:induction false} UnitsLiveUntilReleased(s: State, ops: seq<Op>, t: State, id: nat)
    requires Inv(s) && Reaches(s, ops, t) && id < s.serial
    ensures s.serial <= t.serial
    ensures id in t.live <==> id in s.live && Release(id) !in ops && ResetAll !in ops
    ensures id in t.live ==> t.live[id] == s.live[id]
    decreases |ops|
  {
    if ops != [] {
      StepKeepsInv(s, ops[0]);
      UnitsLiveUntilReleased(Next(s, ops[0]), ops[1..], t, id);
      assert forall x :: x in ops <==> x == ops[0] || x in ops[1..];
    }
  }

  /** A live unit on worker w shares an account with `accounts`. */
  ghost predicate LiveClash(s: State, w: nat, accounts: set<Pubkey>) {
    exists id :: id in s.live && s.live[id].worker == w && !(s.live[id].unit.accounts !! accounts)
  }

  lemma LockedMeansLiveClash(s: State, w: nat, accounts: set<Pubkey>)
    requires Inv(s) && w < |s.locks|
    ensures !(accounts !! s.locks[w]) <==> LiveClash(s, w, accounts)
  {
    var parts := OnWorker(s.live, w);
    if !(accounts !! s.locks[w]) {
      var a :| a in accounts && a in s.locks[w];
      assert IsHeld(parts, a);
      var id :| id in parts && a in parts[id];
      assert id in s.live && !(s.live[id].unit.accounts !! accounts);
    }
    if LiveClash(s, w, accounts) {
      var id :| id in s.live && s.live[id].worker == w && !(s.live[id].unit.accounts !! accounts);
      PartIsInside(s.locks[w], parts, id);
    }
  }

  /** In any run of placements, releases and resets: lock sets are disjoint unions of live units, a unit
      is dropped exactly when every worker runs a clashing live unit, and otherwise it joins a worker
      with none whose lower-numbered workers all have one. */
  lemma RunPlacesFirstFit(m: nat, ops: seq<Op>, t: State, u: WorkUnit)
    requires Reaches(Init(m), ops, t)
    ensures |t.locks| == m && Inv(t)
    ensures FirstFree(t.locks, u.accounts, 0).None? <==> forall w :: 0 <= w < m ==> LiveClash(t, w, u.accounts)
    ensures forall w :: FirstFree(t.locks, u.accounts, 0) == Some(w) ==>
      w < m && !LiveClash(t, w, u.accounts) && forall v :: 0 <= v < w ==> LiveClash(t, v, u.accounts)
  {
    RunKeepsInv(Init(m), ops, t);
    forall w | 0 <= w < m ensures !(u.accounts !! t.locks[w]) <==> LiveClash(t, w, u.accounts) {
      LockedMeansLiveClash(t, w, u.accounts);
    }
  }

  /** Below the worker of each live unit, every worker runs a clashing live unit. */
  ghost predicate Stacked(s: State) {
    forall id, v: nat :: id in s.live && v < s.live[id].worker ==> LiveClash(s, v, s.live[id].unit.accounts)
  }

  lemma StackedStep(s: State, op: Op)
    requires Inv(s) && Enabled(s, op) && !op.Release? && Stacked(s)
    ensures Stacked(Next(s, op))
  {
    if op.Place? {
      var t := Next(s, op);
      forall id, v: nat | id in t.live && v < t.live[id].worker
        ensures LiveClash(t, v, t.live[id].unit.accounts)
      {
        if id !in s.live {
          LockedMeansLiveClash(s, v, op.u.accounts);
        }
        assert LiveClash(s, v, t.live[id].unit.accounts);
        var other :| other in s.live && s.live[other].worker == v
          && !(s.live[other].unit.accounts !! t.live[id].unit.accounts);
        assert other in t.live && t.live[other] == s.live[other];
      }
    }
  }

  lemma {:induction false} StackedRun(s: State, ops: seq<Op>, t: State)
    requires Inv(s) && Stacked(s) && Reaches(s, ops, t) && forall i :: 0 <= i < |ops| ==> !ops[i].Release?
    ensures Stacked(t)
    decreases |ops|
  {
    if ops != [] {
      StepKeepsInv(s, ops[0]);
      StackedStep(s, ops[0]);
      StackedRun(Next(s, ops[0]), ops[1..], t);
    }
  }

  /** In a run without releases, each unit placed on worker w clashes with a placed unit on every worker
      numbered below w. */
  lemma UnreleasedUnitsStack(m: nat, ops: seq<Op>, t: State)
    requires Reaches(Init(m), ops, t) && forall i :: 0 <= i < |ops| ==> !ops[i].Release?
    ensures Stacked(t)
  {
    StackedRun(Init(m), ops, t);
  }

  function PlaceAll(units: seq<WorkUnit>): (ops: seq<Op>)
    ensures |ops| == |units|
  {
    seq(|units|, i requires 0 <= i < |units| => Place(units[i]))
  }

  function AssignmentOf(p: Placed): WorkerAssignment {
    WorkerAssignment(p.unit.id, p.worker, p.unit.isBundle)
  }

  ghost predicate HasPlaced(t: State, id: nat, assignment: WorkerAssignment) {
    id in t.live && assignment == AssignmentOf(t.live[id])
  }

  /** The units the run from s to t added are, by serial number, the ones that `assignments` lists. */
  ghost predicate Adds(s: State, t: State, assignments: seq<WorkerAssignment>) {
    && t.serial == s.serial + |assignments|
    && (forall i :: 0 <= i < |assignments| ==> HasPlaced(t, s.serial + i, assignments[i]))
    && (forall id :: id < s.serial && id in s.live ==> id in t.live && t.live[id] == s.live[id])
  }

  lemma AddsCompose(s: State, m: State, t: State, first: seq<WorkerAssignment>, second: seq<WorkerAssignment>)
    requires Adds(s, m, first) && Adds(m, t, second)
    ensures Adds(s, t, first + second)
  {
    forall i | 0 <= i < |first + second| ensures HasPlaced(t, s.serial + i, (first + second)[i]) {
      if i < |first| {
        assert HasPlaced(m, s.serial + i, first[i]);
      } else {
        var j := i - |first|;
        assert HasPlaced(t, m.serial + j, second[j]);
      }
    }
  }

  lemma PlacingAdds(s: State, u: WorkUnit)
    ensures Adds(s, Next(s, Place(u)), GreedyAssignments(s.locks, [u], 1))
    ensures Next(s, Place(u)).locks == GreedyLocks(s.locks, [u], 1)
  {
    assert GreedyLocks(s.locks, [u], 0) == s.locks && GreedyAssignments(s.locks, [u], 0) == [];
  }

  /** A call to `Schedule` is the run that places its units one after another: it leaves the run's locks, and
      returns the assignments of the units the run placed, in order. */
  lemma {:induction false} ScheduleCallIsARun(s: State, units: seq<WorkUnit>, t: State)
    requires Reaches(s, PlaceAll(units), t)
    ensures t.locks == GreedyLocks(s.locks, units, |units|)
    ensures Adds(s, t, GreedyAssignments(s.locks, units, |units|))
    decreases |units|
  {
    if units != [] {
      var head, tail := [units[0]], units[1..];
      assert units == head + tail;
      assert PlaceAll(units)[1..] == PlaceAll(tail);
      var next := Next(s, Place(units[0]));
      PlacingAdds(s, units[0]);
      ScheduleCallIsARun(next, tail, t);
      GreedyCallsCompose(s.locks, head, tail, |tail|);
      AddsCompose(s, next, t, GreedyAssignments(s.locks, head, 1), GreedyAssignments(next.locks, tail, |tail|));
    }
  }

  ghost function Holders(live: map<nat, Placed>, a: Pubkey): set<nat> {
    set id | id in live && a in live[id].unit.accounts
  }

  /** No account is ever held by more live units than there are workers. */
  lemma AccountCapacity(m: nat, ops: seq<Op>, t: State, a: Pubkey)
    requires Reaches(Init(m), ops, t)
    ensures |Holders(t.live, a)| <= m
  {
    RunKeepsInv(Init(m), ops, t);
    var holders := Holders(t.live, a);
    var workers := set id | id in holders :: t.live[id].worker;
    forall i, j | i in holders && j in holders && t.live[i].worker == t.live[j].worker ensures i == j {
      var w := t.live[i].worker;
      assert i in OnWorker(t.live, w) && j in OnWorker(t.live, w);
    }
    InjectiveImageSize(holders, t.live);
    assert workers <= Below(m);
    SubsetSize(workers, Below(m));
  }

  lemma {:induction false} InjectiveImageSize(ids: set<nat>, live: map<nat, Placed>)
    requires forall i :: i in ids ==> i in live
    requires forall i, j :: i in ids && j in ids && live[i].worker == live[j].worker ==> i == j
    ensures |set id | id in ids :: live[id].worker| == |ids|
  {
    if ids != {} {
      var i :| i in ids;
      var rest := ids - {i};
      InjectiveImageSize(rest, live);
      var image := set id | id in rest :: live[id].worker;
      assert (set id | id in ids :: live[id].worker) == image + {live[i].worker};
    }
  }
}
