/** The client of an external scheduler: concurrent calls, request ids, a pending table, timeouts, and a
    network that may delay, reorder, repeat or lose messages. */
module ExternalClient {
  import opened Core
  import opened FirstFit
  import opened Protocol
  import opened RoundRobinScheduling

  // ----- validating an answer

  datatype Fault = DuplicateAssignment | UnknownUnit | InvalidWorker

  function IdsOf(items: seq<ExecutionUnitData>): set<string> {
    set item | item in items :: item.id
  }

  function UnitIds(assignments: seq<WorkerAssignment>): set<string> {
    set a | a in assignments :: a.unitId
  }

  /** What is wrong with assignment k, checked in this order; `None` when nothing is. */
  function FaultAt(assignments: seq<WorkerAssignment>, items: seq<ExecutionUnitData>, workerCount: nat, k: nat)
    : Option<Fault>
    requires k < |assignments|
  {
    if assignments[k].unitId in UnitIds(assignments[..k]) then Some(DuplicateAssignment)
    else if assignments[k].unitId !in IdsOf(items) then Some(UnknownUnit)
    else if assignments[k].workerId >= workerCount then Some(InvalidWorker)
    else None
  }

  /** Distinct, known unit ids and worker ids below the count. */
  ghost predicate ValidAssignments(assignments: seq<WorkerAssignment>, items: seq<ExecutionUnitData>,
      workerCount: nat)
  {
    && (forall i, j :: 0 <= i < j < |assignments| ==> assignments[i].unitId != assignments[j].unitId)
    && (forall i :: 0 <= i < |assignments| ==>
          assignments[i].unitId in IdsOf(items) && assignments[i].workerId < workerCount)
  }

  lemma ValidMeansNoFault(assignments: seq<WorkerAssignment>, items: seq<ExecutionUnitData>, workerCount: nat)
    ensures ValidAssignments(assignments, items, workerCount) <==>
      forall k :: 0 <= k < |assignments| ==> FaultAt(assignments, items, workerCount, k) == None
  {
    forall k | 0 <= k < |assignments|
      ensures assignments[k].unitId in UnitIds(assignments[..k]) <==>
        exists i :: 0 <= i < k && assignments[i].unitId == assignments[k].unitId
    {
      if i :| 0 <= i < k && assignments[i].unitId == assignments[k].unitId {
        assert assignments[..k][i] in assignments[..k];
      }
    }
    if forall k :: 0 <= k < |assignments| ==> FaultAt(assignments, items, workerCount, k) == None {
      forall i, j | 0 <= i < j < |assignments| ensures assignments[i].unitId != assignments[j].unitId {
        assert FaultAt(assignments, items, workerCount, j) == None;
      }
      forall i | 0 <= i < |assignments|
        ensures assignments[i].unitId in IdsOf(items) && assignments[i].workerId < workerCount
      {
        assert FaultAt(assignments, items, workerCount, i) == None;
      }
    }
  }

  /** A repeated unit id is a duplicate, whatever else is wrong with it; an id that no item has is unknown;
      and only then does the worker id count. */
  lemma FaultsAreInOrder(assignments: seq<WorkerAssignment>, items: seq<ExecutionUnitData>, workerCount: nat, k: nat)
    requires k < |assignments|
    ensures var fault := FaultAt(assignments, items, workerCount, k);
      var repeated := exists i :: 0 <= i < k && assignments[i].unitId == assignments[k].unitId;
      var known := exists i :: 0 <= i < |items| && items[i].id == assignments[k].unitId;
      && (fault == Some(DuplicateAssignment) <==> repeated)
      && (fault == Some(UnknownUnit) <==> !repeated && !known)
      && (fault == Some(InvalidWorker) <==> !repeated && known && assignments[k].workerId >= workerCount)
  {
    if i :| 0 <= i < k && assignments[i].unitId == assignments[k].unitId {
      assert assignments[..k][i] in assignments[..k];
    }
    if i :| 0 <= i < |items| && items[i].id == assignments[k].unitId {
      assert items[i] in items;
    }
  }

  ghost predicate IsFirstFault(assignments: seq<WorkerAssignment>, items: seq<ExecutionUnitData>, workerCount: nat,
      k: nat, fault: Fault)
    requires k < |assignments|
  {
    && FaultAt(assignments, items, workerCount, k) == Some(fault)
    && forall j :: 0 <= j < k ==> FaultAt(assignments, items, workerCount, j) == None
  }

  /** Accepts exactly the valid answers; otherwise reports the first fault. */
  method ValidateAssignments(assignments: seq<WorkerAssignment>, items: seq<ExecutionUnitData>, workerCount: nat)
    returns (r: Result<(), Fault>)
    ensures r.Ok? <==> ValidAssignments(assignments, items, workerCount)
    ensures r.Err? ==> exists k :: 0 <= k < |assignments| && IsFirstFault(assignments, items, workerCount, k, r.error)
  {
    ValidMeansNoFault(assignments, items, workerCount);
    var seen: set<string> := {};
    var validIds := IdsOf(items);
    for k := 0 to |assignments|
      invariant seen == UnitIds(assignments[..k])
      invariant forall j :: 0 <= j < k ==> FaultAt(assignments, items, workerCount, j) == None
    {
      var assignment := assignments[k];
      if assignment.unitId in seen {
        assert IsFirstFault(assignments, items, workerCount, k, DuplicateAssignment);
        return Err(DuplicateAssignment);
      }
      assert assignments[..k + 1] == assignments[..k] + [assignment];
      seen := seen + {assignment.unitId};
      if assignment.unitId !in validIds {
        assert IsFirstFault(assignments, items, workerCount, k, UnknownUnit);
        return Err(UnknownUnit);
      }
      if assignment.workerId >= workerCount {
        assert IsFirstFault(assignments, items, workerCount, k, InvalidWorker);
        return Err(InvalidWorker);
      }
    }
    return Ok(());
  }

  ghost predicate DistinctIds(items: seq<ExecutionUnitData>) {
    forall i, j :: 0 <= i < j < |items| ==> items[i].id != items[j].id
  }

  /** The server's answer passes validation exactly when it is empty or the item ids are distinct. */
  lemma AnswerIsValidWhenIdsAreDistinct(nextWorker: u64, items: seq<ExecutionUnitData>, workerCount: nat)
    ensures ValidAssignments(Answer(nextWorker, items, workerCount), items, workerCount) <==>
      workerCount == 0 || DistinctIds(items)
  {
    if workerCount > 0 {
      var units, start := UnitsOfItems(items), TurnState(NoLocks(workerCount), nextWorker);
      var answer := Answer(nextWorker, items, workerCount);
      forall i | 0 <= i < |items|
        ensures answer[i].unitId == items[i].id && answer[i].unitId in IdsOf(items) && answer[i].workerId < workerCount
      {
        TurnAssignmentAt(start, units, |units|, i);
        assert items[i] in items;
      }
    }
  }

  // ----- the protocol

  datatype CallError = SerializationError | NetworkError | Timeout | InvalidAssignment

  type Answered = Result<seq<WorkerAssignment>, CallError>

  /** Id taken; registered in the pending table; request sent, waiting; timeout fired; returned. */
  datatype Phase = Numbered | Registered | Waiting | TimedOut | Finished(result: Answered)

  /** One call of `schedule`; the mailbox is its response channel. */
  datatype Call = Call(
    items: seq<ExecutionUnitData>,
    workerCount: nat,
    requestId: nat,
    mailbox: seq<seq<WorkerAssignment>>,
    phase: Phase)

  /** Messages stay in `requests` and `responses` once sent; a step may use any of them at any time, any
      number of times, or never, which covers delay, reordering, repetition and loss. */
  datatype System = System(
    requestCounter: nat,
    pending: map<nat, nat>,
    calls: map<nat, Call>,
    requests: set<EngineMessage>,
    serverNext: u64,
    responses: set<SchedulerMessage>)

  const START := System(0, map[], map[], {}, 0, {})

  datatype Step =
    | Begin(c: nat, items: seq<ExecutionUnitData>, workerCount: nat)
    | FailSerialize(c: nat)
    | Register(c: nat)
    | SendRequest(c: nat)
    | FailSend(c: nat, delivered: bool)
    | Serve(request: EngineMessage)
    | Deliver(message: SchedulerMessage)
    | TakeAnswer(c: nat)
    | FireTimeout(c: nat)
    | ForgetRequest(c: nat)

  ghost predicate InPhase(s: System, c: nat, phase: Phase) {
    c in s.calls && s.calls[c].phase == phase
  }

  ghost predicate Enabled(s: System, e: Step) {
    match e
    case Begin(c, _, _) => c !in s.calls && s.requestCounter < U64_MAX
    case FailSerialize(c) => InPhase(s, c, Numbered)
    case Register(c) => InPhase(s, c, Numbered)
    case SendRequest(c) => InPhase(s, c, Registered)
    case FailSend(c, _) => InPhase(s, c, Registered)
    case Serve(request) => request in s.requests && request.ScheduleRequest?
    case Deliver(message) => message.ScheduleResponse? ==> message in s.responses
    case TakeAnswer(c) => InPhase(s, c, Waiting) && s.calls[c].mailbox != []
    case FireTimeout(c) => InPhase(s, c, Waiting)
    case ForgetRequest(c) => InPhase(s, c, TimedOut)
  }

  function RequestOf(call: Call): EngineMessage {
    ScheduleRequest(call.requestId, call.items, call.workerCount)
  }

  function SetPhase(s: System, c: nat, phase: Phase): System
    requires c in s.calls
  {
    s.(calls := s.calls[c := s.calls[c].(phase := phase)])
  }

  /** `handle_message`: a response wakes the call registered under its id, once; others are ignored. */
  function Handle(s: System, message: SchedulerMessage): System {
    if message.ScheduleResponse? && message.requestId in s.pending && s.pending[message.requestId] in s.calls then
      var c := s.pending[message.requestId];
      var call := s.calls[c];
      s.(pending := s.pending - {message.requestId},
         calls := s.calls[c := call.(mailbox := call.mailbox + [message.assignments])])
    else s
  }

  ghost function Next(s: System, e: Step): System
    requires Enabled(s, e)
  {
    match e
    case Begin(c, items, m) =>
      var id := s.requestCounter + 1;
      s.(requestCounter := id, calls := s.calls[c := Call(items, m, id, [], Numbered)])
    case FailSerialize(c) => SetPhase(s, c, Finished(Err(SerializationError)))
    case Register(c) => SetPhase(s, c, Registered).(pending := s.pending[s.calls[c].requestId := c])
    case SendRequest(c) => SetPhase(s, c, Waiting).(requests := s.requests + {RequestOf(s.calls[c])})
    case FailSend(c, delivered) =>
      SetPhase(s, c, Finished(Err(NetworkError)))
        .(requests := if delivered then s.requests + {RequestOf(s.calls[c])} else s.requests)
    case Serve(r) =>
      s.(serverNext := CounterAfter(s.serverNext, r.items, r.workerCount),
         responses := s.responses + {ScheduleResponse(r.requestId, Answer(s.serverNext, r.items, r.workerCount))})
    case Deliver(message) => Handle(s, message)
    case TakeAnswer(c) =>
      var call := s.calls[c];
      var a := call.mailbox[0];
      SetPhase(s, c, Finished(
        if ValidAssignments(a, call.items, call.workerCount) then Ok(a) else Err(InvalidAssignment)))
    case FireTimeout(c) => SetPhase(s, c, TimedOut)
    case ForgetRequest(c) =>
      SetPhase(s, c, Finished(Err(Timeout))).(pending := s.pending - {s.calls[c].requestId})
  }

  ghost predicate Reaches(s: System, steps: seq<Step>, t: System)
    decreases |steps|
  {
    if steps == [] then s == t else Enabled(s, steps[0]) && Reaches(Next(s, steps[0]), steps[1..], t)
  }

  // ----- the invariant

  /** `a` is what the server answers, from some state of its counter, to these items. */
  ghost predicate IsServerAnswer(a: seq<WorkerAssignment>, items: seq<ExecutionUnitData>, workerCount: nat) {
    exists n: u64 :: a == Answer(n, items, workerCount)
  }

  /** The server sent `a` as its answer to this call's request. */
  ghost predicate WasIssued(s: System, call: Call, a: seq<WorkerAssignment>) {
    ScheduleResponse(call.requestId, a) in s.responses
  }

  /** An unanswered call whose request is registered and not withdrawn; a failed send does not withdraw it. */
  ghost predicate AwaitsAnswer(call: Call) {
    && call.mailbox == []
    && (call.phase in {Registered, Waiting, TimedOut} || call.phase == Finished(Err(NetworkError)))
  }

  ghost predicate CallInv(s: System, c: nat)
    requires c in s.calls
  {
    var call := s.calls[c];
    && 1 <= call.requestId <= s.requestCounter
    && |call.mailbox| <= 1
    && (call.mailbox != [] ==> !call.phase.Numbered?)
    && (call.requestId in s.pending <==> AwaitsAnswer(call))
    && (forall a :: a in call.mailbox ==> WasIssued(s, call, a))
    && PhaseInv(s, call)
  }

  ghost predicate PhaseInv(s: System, call: Call) {
    match call.phase
    case Finished(Ok(a)) =>
      call.mailbox != [] && WasIssued(s, call, a) && ValidAssignments(a, call.items, call.workerCount)
    case Finished(Err(InvalidAssignment)) =>
      call.mailbox != [] && call.workerCount > 0 && !DistinctIds(call.items)
    case Waiting => RequestOf(call) in s.requests
    case _ => true
  }

  ghost predicate UniqueIds(calls: map<nat, Call>) {
    forall c, d :: c in calls && d in calls && calls[c].requestId == calls[d].requestId ==> c == d
  }

  ghost predicate PendingInv(s: System) {
    forall id :: id in s.pending ==> s.pending[id] in s.calls && s.calls[s.pending[id]].requestId == id
  }

  ghost predicate IsRequestOfSomeCall(s: System, r: EngineMessage) {
    exists c :: c in s.calls && r == RequestOf(s.calls[c])
  }

  ghost predicate IsAnswerToSomeCall(s: System, m: SchedulerMessage) {
    m.ScheduleResponse? && exists c :: c in s.calls && IsAnswerTo(s.calls[c], m)
  }

  ghost predicate IsAnswerTo(call: Call, m: SchedulerMessage)
    requires m.ScheduleResponse?
  {
    call.requestId == m.requestId && IsServerAnswer(m.assignments, call.items, call.workerCount)
  }

  ghost predicate MessagesInv(s: System) {
    && (forall r :: r in s.requests ==> IsRequestOfSomeCall(s, r))
    && (forall m :: m in s.responses ==> IsAnswerToSomeCall(s, m))
  }

  ghost predicate Inv(s: System) {
    && (forall c :: c in s.calls ==> CallInv(s, c))
    && UniqueIds(s.calls)
    && PendingInv(s)
    && MessagesInv(s)
  }

  // ----- every step keeps it

  /** Calls are never forgotten and their requests never change. */
  ghost predicate Extends(s: System, t: System) {
    forall c :: c in s.calls ==> c in t.calls && RequestOf(t.calls[c]) == RequestOf(s.calls[c])
  }

  lemma MessagesCarryOver(s: System, t: System)
    requires MessagesInv(s) && Extends(s, t)
    ensures forall r :: r in s.requests ==> IsRequestOfSomeCall(t, r)
    ensures forall m :: m in s.responses ==> IsAnswerToSomeCall(t, m)
  {
    forall r | r in s.requests ensures IsRequestOfSomeCall(t, r) {
      assert IsRequestOfSomeCall(s, r);
      var c :| c in s.calls && r == RequestOf(s.calls[c]);
      assert c in t.calls && r == RequestOf(t.calls[c]);
    }
    forall m | m in s.responses ensures IsAnswerToSomeCall(t, m) {
      assert IsAnswerToSomeCall(s, m);
      var c :| c in s.calls && IsAnswerTo(s.calls[c], m);
      assert c in t.calls && RequestOf(t.calls[c]) == RequestOf(s.calls[c]);
      assert IsAnswerTo(t.calls[c], m);
    }
  }

  lemma StepMessages(s: System, e: Step)
    requires Inv(s) && Enabled(s, e)
    ensures Extends(s, Next(s, e)) && MessagesInv(Next(s, e))
  {
    var t := Next(s, e);
    MessagesCarryOver(s, t);
    match e
    case SendRequest(c) => assert RequestOf(t.calls[c]) == RequestOf(s.calls[c]);
    case FailSend(c, _) => assert RequestOf(t.calls[c]) == RequestOf(s.calls[c]);
    case Serve(r) =>
      assert IsRequestOfSomeCall(t, r);
      var c :| c in t.calls && r == RequestOf(t.calls[c]);
      var answer := Answer(s.serverNext, r.items, r.workerCount);
      assert IsServerAnswer(answer, r.items, r.workerCount);
      assert IsAnswerTo(t.calls[c], ScheduleResponse(r.requestId, answer));
    case _ =>
  }

  /** Call d is untouched by a step that neither changes it nor registers its id. */
  lemma OtherCall(s: System, t: System, d: nat)
    requires d in s.calls && CallInv(s, d) && d in t.calls && t.calls[d] == s.calls[d]
    requires s.requestCounter <= t.requestCounter && s.requests <= t.requests && s.responses <= t.responses
    requires s.calls[d].requestId in t.pending <==> s.calls[d].requestId in s.pending
    ensures CallInv(t, d)
  {
  }

  lemma StepCalls(s: System, e: Step, d: nat)
    requires Inv(s) && Enabled(s, e) && d in Next(s, e).calls
    ensures CallInv(Next(s, e), d)
  {
    var t := Next(s, e);
    match e
    case Begin(c, _, _) =>
      if d == c {
        assert forall id :: id in s.pending ==> CallInv(s, s.pending[id]);
      } else {
        OtherCall(s, t, d);
      }
    case Deliver(message) => DeliverKeepsCall(s, message, d);
    case Serve(_) => OtherCall(s, t, d);
    case _ =>
      if d == e.c {
        OwnStepKeepsCall(s, e);
      } else {
        assert s.calls[d].requestId != s.calls[e.c].requestId;
        OtherCall(s, t, d);
      }
  }

  /** A step of a call's own keeps what holds of that call. */
  lemma OwnStepKeepsCall(s: System, e: Step)
    requires Inv(s) && Enabled(s, e) && !e.Begin? && !e.Serve? && !e.Deliver?
    ensures CallInv(Next(s, e), e.c)
  {
    if e.TakeAnswer? {
      TakeAnswerKeepsCall(s, e.c);
    } else {
      assert CallInv(s, e.c);
    }
  }

  /** What the server issued under a call's id answers that call. */
  lemma IssuedIsOwnAnswer(s: System, c: nat, a: seq<WorkerAssignment>)
    requires UniqueIds(s.calls) && MessagesInv(s) && c in s.calls && WasIssued(s, s.calls[c], a)
    ensures IsServerAnswer(a, s.calls[c].items, s.calls[c].workerCount)
  {
    var m := ScheduleResponse(s.calls[c].requestId, a);
    assert IsAnswerToSomeCall(s, m);
    var b :| b in s.calls && IsAnswerTo(s.calls[b], m);
    assert b == c;
  }

  lemma AcceptedWhenIdsAreDistinct(s: System, c: nat)
    requires Inv(s) && c in s.calls && s.calls[c].mailbox != []
    ensures var call := s.calls[c];
      && WasIssued(s, call, call.mailbox[0])
      && (ValidAssignments(call.mailbox[0], call.items, call.workerCount) <==>
            call.workerCount == 0 || DistinctIds(call.items))
  {
    var call := s.calls[c];
    assert CallInv(s, c) && call.mailbox[0] in call.mailbox;
    IssuedIsOwnAnswer(s, c, call.mailbox[0]);
    var n: u64 :| call.mailbox[0] == Answer(n, call.items, call.workerCount);
    AnswerIsValidWhenIdsAreDistinct(n, call.items, call.workerCount);
  }

  lemma TakeAnswerKeepsCall(s: System, c: nat)
    requires Inv(s) && Enabled(s, TakeAnswer(c))
    ensures CallInv(Next(s, TakeAnswer(c)), c)
  {
    assert CallInv(s, c);
    AcceptedWhenIdsAreDistinct(s, c);
  }

  lemma DeliverKeepsCall(s: System, m: SchedulerMessage, d: nat)
    requires Inv(s) && Enabled(s, Deliver(m)) && d in s.calls
    ensures d in Handle(s, m).calls && CallInv(Handle(s, m), d)
  {
    var t := Handle(s, m);
    assert CallInv(s, d);
    if m.ScheduleResponse? && m.requestId in s.pending && d != s.pending[m.requestId] {
      assert s.calls[d].requestId != m.requestId;
      OtherCall(s, t, d);
    }
  }

  lemma StepKeepsInv(s: System, e: Step)
    requires Inv(s) && Enabled(s, e)
    ensures Inv(Next(s, e))
  {
    var t := Next(s, e);
    StepMessages(s, e);
    forall d | d in t.calls ensures CallInv(t, d) {
      StepCalls(s, e, d);
    }
    StepUniqueIds(s, e);
    StepPending(s, e);
  }

  lemma BeginKeepsUniqueIds(s: System, c: nat, call: Call)
    requires UniqueIds(s.calls) && c !in s.calls && call.requestId == s.requestCounter + 1
    requires forall d :: d in s.calls ==> CallInv(s, d)
    ensures UniqueIds(s.calls[c := call])
  {
    forall d | d in s.calls ensures s.calls[d].requestId < call.requestId {
      assert CallInv(s, d);
    }
  }

  lemma StepUniqueIds(s: System, e: Step)
    requires Inv(s) && Enabled(s, e) && Extends(s, Next(s, e))
    ensures UniqueIds(Next(s, e).calls)
  {
    if e.Begin? {
      BeginKeepsUniqueIds(s, e.c, Call(e.items, e.workerCount, s.requestCounter + 1, [], Numbered));
    } else {
      SameIds(s, Next(s, e));
    }
  }

  lemma StepPending(s: System, e: Step)
    requires Inv(s) && Enabled(s, e) && Extends(s, Next(s, e))
    ensures PendingInv(Next(s, e))
  {
    var t := Next(s, e);
    forall id | id in t.pending ensures t.pending[id] in t.calls && t.calls[t.pending[id]].requestId == id {
      var c := t.pending[id];
      assert RequestOf(t.calls[c]) == RequestOf(s.calls[c]);
    }
  }

  lemma SameIds(s: System, t: System)
    requires UniqueIds(s.calls) && Extends(s, t) && t.calls.Keys == s.calls.Keys
    ensures UniqueIds(t.calls)
  {
    forall c | c in t.calls ensures t.calls[c].requestId == s.calls[c].requestId {
      assert RequestOf(t.calls[c]) == RequestOf(s.calls[c]);
    }
  }

  lemma {:induction false} RunKeepsInv(s: System, steps: seq<Step>, t: System)
    requires Inv(s) && Reaches(s, steps, t)
    ensures Inv(t)
    decreases |steps|
  {
    if steps != [] {
      StepKeepsInv(s, steps[0]);
      RunKeepsInv(Next(s, steps[0]), steps[1..], t);
    }
  }

  // ----- what every run guarantees

  /** Request ids never repeat, and each call's response channel receives at most one answer. */
  lemma IdsAreUniqueAndAnsweredOnce(steps: seq<Step>, t: System)
    requires Reaches(START, steps, t)
    ensures forall c, d :: c in t.calls && d in t.calls && c != d ==> t.calls[c].requestId != t.calls[d].requestId
    ensures forall c :: c in t.calls ==> |t.calls[c].mailbox| <= 1
  {
    RunKeepsInv(START, steps, t);
    assert forall c :: c in t.calls ==> CallInv(t, c);
  }

  /** An Ok result is a response the server issued under that call's id: its answer to that call's own items
      and worker count, valid as checked. An invalid-assignment error happens only to a call whose item
      ids repeat. */
  lemma ResultIsOwnAnswer(steps: seq<Step>, t: System, c: nat)
    requires Reaches(START, steps, t) && c in t.calls && t.calls[c].phase.Finished?
    ensures var call := t.calls[c];
      match call.phase.result
      case Ok(a) =>
        && WasIssued(t, call, a)
        && IsServerAnswer(a, call.items, call.workerCount)
        && ValidAssignments(a, call.items, call.workerCount)
      case Err(error) => error == InvalidAssignment ==> call.workerCount > 0 && !DistinctIds(call.items)
  {
    RunKeepsInv(START, steps, t);
    assert CallInv(t, c);
    if t.calls[c].phase.result.Ok? {
      IssuedIsOwnAnswer(t, c, t.calls[c].phase.result.value);
    }
  }

  /** Taking an answer succeeds exactly when the call asked for no workers or its item ids are distinct. */
  lemma TakingAnswerSucceedsWhenIdsAreDistinct(steps: seq<Step>, t: System, c: nat)
    requires Reaches(START, steps, t) && Enabled(t, TakeAnswer(c))
    ensures Next(t, TakeAnswer(c)).calls[c].phase.result.Ok? <==>
      t.calls[c].workerCount == 0 || DistinctIds(t.calls[c].items)
  {
    RunKeepsInv(START, steps, t);
    AcceptedWhenIdsAreDistinct(t, c);
  }

  /** A returned call keeps its result for the rest of the run, and is registered only while its sending
      failed and no response has come. */
  lemma {:induction false} ReturnedCallIsFinal(s: System, steps: seq<Step>, t: System, c: nat)
    requires Inv(s) && Reaches(s, steps, t) && c in s.calls && s.calls[c].phase.Finished?
    ensures c in t.calls && t.calls[c].phase == s.calls[c].phase && t.calls[c].requestId == s.calls[c].requestId
    ensures s.calls[c].mailbox != [] ==> t.calls[c].mailbox == s.calls[c].mailbox
    ensures t.calls[c].requestId in t.pending <==>
      s.calls[c].phase.result == Err(NetworkError) && t.calls[c].mailbox == []
    decreases |steps|
  {
    if steps == [] {
      assert CallInv(s, c);
    } else {
      StepKeepsInv(s, steps[0]);
      FinishedCallStays(s, steps[0], c);
      ReturnedCallIsFinal(Next(s, steps[0]), steps[1..], t, c);
    }
  }

  lemma FinishedCallStays(s: System, e: Step, c: nat)
    requires Inv(s) && Enabled(s, e) && c in s.calls && s.calls[c].phase.Finished?
    ensures var t := Next(s, e);
      && c in t.calls && t.calls[c].phase == s.calls[c].phase && t.calls[c].requestId == s.calls[c].requestId
      && (s.calls[c].mailbox != [] ==> t.calls[c].mailbox == s.calls[c].mailbox)
  {
    assert CallInv(s, c);
  }

  // ----- how a call can end

  /** The call's entry in the pending table is its own. */
  lemma AwaitingIsRegistered(s: System, c: nat)
    requires Inv(s) && c in s.calls && AwaitsAnswer(s.calls[c])
    ensures s.calls[c].requestId in s.pending && s.pending[s.calls[c].requestId] == c
  {
    assert CallInv(s, c);
  }

  /** A waiting call whose answer the server has sent can receive and return it. */
  lemma IssuedAnswerCanReturn(s: System, c: nat, a: seq<WorkerAssignment>) returns (steps: seq<Step>, t: System)
    requires Inv(s) && InPhase(s, c, Waiting) && s.calls[c].mailbox == [] && WasIssued(s, s.calls[c], a)
    requires ValidAssignments(a, s.calls[c].items, s.calls[c].workerCount)
    ensures Reaches(s, steps, t) && InPhase(t, c, Finished(Ok(a)))
  {
    var deliver, take := Deliver(ScheduleResponse(s.calls[c].requestId, a)), TakeAnswer(c);
    AwaitingIsRegistered(s, c);
    var delivered := Next(s, deliver);
    assert delivered.calls[c].mailbox == [a];
    t := Next(delivered, take);
    steps := [deliver, take];
    assert steps[1..] == [take] && [take][1..] == [];
    assert Reaches(t, [], t) && Reaches(delivered, [take], t);
  }

  lemma WaitingCallCanReturn(s: System, c: nat) returns (steps: seq<Step>, t: System)
    requires Inv(s) && InPhase(s, c, Waiting) && s.calls[c].mailbox == []
    requires s.calls[c].workerCount == 0 || DistinctIds(s.calls[c].items)
    ensures Reaches(s, steps, t)
    ensures InPhase(t, c, Finished(Ok(Answer(s.serverNext, s.calls[c].items, s.calls[c].workerCount))))
  {
    assert CallInv(s, c);
    var call := s.calls[c];
    var serve := Serve(RequestOf(call));
    var served := Next(s, serve);
    StepKeepsInv(s, serve);
    AnswerIsValidWhenIdsAreDistinct(s.serverNext, call.items, call.workerCount);
    var rest;
    rest, t := IssuedAnswerCanReturn(served, c, Answer(s.serverNext, call.items, call.workerCount));
    steps := [serve] + rest;
    assert steps[1..] == rest;
  }

  lemma RegisteredCallCanReturn(s: System, c: nat) returns (steps: seq<Step>, t: System)
    requires Inv(s) && InPhase(s, c, Registered) && s.calls[c].mailbox == []
    requires s.calls[c].workerCount == 0 || DistinctIds(s.calls[c].items)
    ensures Reaches(s, steps, t)
    ensures InPhase(t, c, Finished(Ok(Answer(s.serverNext, s.calls[c].items, s.calls[c].workerCount))))
  {
    StepKeepsInv(s, SendRequest(c));
    var rest;
    rest, t := WaitingCallCanReturn(Next(s, SendRequest(c)), c);
    steps := [SendRequest(c)] + rest;
    assert steps[1..] == rest;
  }

  lemma NumberedCallCanReturn(s: System, c: nat) returns (steps: seq<Step>, t: System)
    requires Inv(s) && InPhase(s, c, Numbered)
    requires s.calls[c].workerCount == 0 || DistinctIds(s.calls[c].items)
    ensures Reaches(s, steps, t)
    ensures InPhase(t, c, Finished(Ok(Answer(s.serverNext, s.calls[c].items, s.calls[c].workerCount))))
  {
    assert CallInv(s, c);
    StepKeepsInv(s, Register(c));
    var rest;
    rest, t := RegisteredCallCanReturn(Next(s, Register(c)), c);
    steps := [Register(c)] + rest;
    assert steps[1..] == rest;
  }

  /** From every reachable state, an unanswered call that has not failed or timed out can still return Ok with
      the answer the server would give it now, unless its item ids repeat. */
  lemma UnansweredCallCanReturn(past: seq<Step>, s: System, c: nat) returns (steps: seq<Step>, t: System)
    requires Reaches(START, past, s) && c in s.calls && s.calls[c].mailbox == []
    requires s.calls[c].phase in {Numbered, Registered, Waiting}
    requires s.calls[c].workerCount == 0 || DistinctIds(s.calls[c].items)
    ensures Reaches(s, steps, t)
    ensures InPhase(t, c, Finished(Ok(Answer(s.serverNext, s.calls[c].items, s.calls[c].workerCount))))
  {
    RunKeepsInv(START, past, s);
    match s.calls[c].phase
    case Numbered => steps, t := NumberedCallCanReturn(s, c);
    case Registered => steps, t := RegisteredCallCanReturn(s, c);
    case Waiting => steps, t := WaitingCallCanReturn(s, c);
  }

  /** And a waiting call can always time out, which takes its entry out of the table. */
  lemma WaitingCallCanTimeOut(past: seq<Step>, s: System, c: nat) returns (steps: seq<Step>, t: System)
    requires Reaches(START, past, s) && InPhase(s, c, Waiting)
    ensures Reaches(s, steps, t) && InPhase(t, c, Finished(Err(Timeout))) && t.calls[c].requestId !in t.pending
  {
    var fired := Next(s, FireTimeout(c));
    t := Next(fired, ForgetRequest(c));
    steps := [FireTimeout(c), ForgetRequest(c)];
    assert steps[1..] == [ForgetRequest(c)] && [ForgetRequest(c)][1..] == [];
    assert Reaches(t, [], t) && Reaches(fired, [ForgetRequest(c)], t);
  }

  // ----- where a call stands, read from the steps

  predicate Concerns(e: Step, c: nat) {
    !e.Serve? && !e.Deliver? && e.c == c
  }

  /** The steps that call c took itself, in order. */
  function StepsOf(steps: seq<Step>, c: nat): seq<Step> {
    if steps == [] then []
    else (if Concerns(steps[0], c) then [steps[0]] else []) + StepsOf(steps[1..], c)
  }

  /** The steps that lead a call to where it stands. */
  ghost predicate IsTrail(trail: seq<Step>, c: nat, call: Call) {
    var begun := [Begin(c, call.items, call.workerCount)];
    var registered := begun + [Register(c)];
    var sent := registered + [SendRequest(c)];
    match call.phase
    case Numbered => trail == begun
    case Registered => trail == registered
    case Waiting => trail == sent
    case TimedOut => trail == sent + [FireTimeout(c)]
    case Finished(Ok(_)) => trail == sent + [TakeAnswer(c)]
    case Finished(Err(SerializationError)) => trail == begun + [FailSerialize(c)]
    case Finished(Err(NetworkError)) =>
      trail == registered + [FailSend(c, true)] || trail == registered + [FailSend(c, false)]
    case Finished(Err(Timeout)) => trail == sent + [FireTimeout(c)] + [ForgetRequest(c)]
    case Finished(Err(InvalidAssignment)) => trail == sent + [TakeAnswer(c)]
  }

  ghost predicate HasTrail(trail: seq<Step>, s: System, c: nat) {
    if c in s.calls then IsTrail(trail, c, s.calls[c]) else trail == []
  }

  lemma TrailStep(trail: seq<Step>, s: System, e: Step, c: nat)
    requires HasTrail(trail, s, c) && Enabled(s, e)
    ensures HasTrail(if Concerns(e, c) then trail + [e] else trail, Next(s, e), c)
  {
  }

  lemma TrailJoins(trail: seq<Step>, steps: seq<Step>, c: nat)
    requires steps != []
    ensures (if Concerns(steps[0], c) then trail + [steps[0]] else trail) + StepsOf(steps[1..], c)
         == trail + StepsOf(steps, c)
  {
  }

  lemma {:induction false} TrailRun(trail: seq<Step>, s: System, steps: seq<Step>, t: System, c: nat)
    returns (whole: seq<Step>)
    requires HasTrail(trail, s, c) && Reaches(s, steps, t)
    ensures whole == trail + StepsOf(steps, c) && HasTrail(whole, t, c)
    decreases |steps|
  {
    if steps == [] {
      whole := trail;
    } else {
      TrailStep(trail, s, steps[0], c);
      TrailJoins(trail, steps, c);
      var next := if Concerns(steps[0], c) then trail + [steps[0]] else trail;
      whole := TrailRun(next, Next(s, steps[0]), steps[1..], t, c);
    }
  }

  /** Where a call stands, and how it ended, is told by its own steps: Ok or an invalid assignment after an
      answer was taken, a timeout only after its timer fired, a network error only after a failed send. */
  lemma CallsFollowSteps(steps: seq<Step>, t: System, c: nat)
    requires Reaches(START, steps, t)
    ensures if c in t.calls then IsTrail(StepsOf(steps, c), c, t.calls[c]) else StepsOf(steps, c) == []
  {
    var whole := TrailRun([], START, steps, t, c);
    assert whole == StepsOf(steps, c);
  }

  /** The counter after the requests a run serves, one after another. */
  function CounterAfterAll(n: u64, steps: seq<Step>): u64
    decreases |steps|
  {
    if steps == [] then n
    else if steps[0].Serve? && steps[0].request.ScheduleRequest? then
      CounterAfterAll(CounterAfter(n, steps[0].request.items, steps[0].request.workerCount), steps[1..])
    else
      CounterAfterAll(n, steps[1..])
  }

  /** The server keeps one counter over everything it serves. */
  lemma {:induction false} ServerCountsOn(s: System, steps: seq<Step>, t: System)
    requires Reaches(s, steps, t)
    ensures t.serverNext == CounterAfterAll(s.serverNext, steps)
    decreases |steps|
  {
    if steps != [] {
      ServerCountsOn(Next(s, steps[0]), steps[1..], t);
    }
  }

  ghost predicate WentOut(steps: seq<Step>, c: nat) {
    SendRequest(c) in steps || FailSend(c, true) in steps
  }

  /** The requests out on the network are those of the calls that sent them. */
  lemma {:induction false} RequestsFollowSteps(s: System, steps: seq<Step>, t: System, c: nat)
    requires Inv(s) && Reaches(s, steps, t) && c in s.calls
    ensures c in t.calls && RequestOf(t.calls[c]) == RequestOf(s.calls[c])
    ensures RequestOf(s.calls[c]) in t.requests <==> RequestOf(s.calls[c]) in s.requests || WentOut(steps, c)
    decreases |steps|
  {
    if steps != [] {
      StepKeepsInv(s, steps[0]);
      RequestsAfterStep(s, steps[0], c);
      RequestsFollowSteps(Next(s, steps[0]), steps[1..], t, c);
      assert forall x :: x in steps <==> x == steps[0] || x in steps[1..];
    }
  }

  lemma RequestsAfterStep(s: System, e: Step, c: nat)
    requires Inv(s) && Enabled(s, e) && c in s.calls
    ensures c in Next(s, e).calls && RequestOf(Next(s, e).calls[c]) == RequestOf(s.calls[c])
    ensures RequestOf(s.calls[c]) in Next(s, e).requests
      <==> RequestOf(s.calls[c]) in s.requests || e == SendRequest(c) || e == FailSend(c, true)
  {
    if e.SendRequest? || e.FailSend? {
      assert RequestOf(s.calls[e.c]) == RequestOf(s.calls[c]) <==> e.c == c;
    }
  }

  /** A message changes something exactly when it is a response to a registered request. */
  lemma UnmatchedMessageChangesNothing(s: System, m: SchedulerMessage)
    requires Inv(s) && Enabled(s, Deliver(m))
    ensures Next(s, Deliver(m)) == s <==> !(m.ScheduleResponse? && m.requestId in s.pending)
  {
    if m.ScheduleResponse? && m.requestId in s.pending {
      assert m.requestId !in Next(s, Deliver(m)).pending;
    }
  }

  /** Once a call has returned, a response under its id changes nothing, ever, unless its sending failed and
      this is the first response to it. */
  lemma LateResponsesChangeNothing(s: System, steps: seq<Step>, t: System, c: nat, m: SchedulerMessage)
    requires Inv(s) && Reaches(s, steps, t) && c in s.calls && s.calls[c].phase.Finished?
    requires m.ScheduleResponse? && m.requestId == s.calls[c].requestId
    ensures c in t.calls && (Handle(t, m) == t <==>
      s.calls[c].phase.result != Err(NetworkError) || t.calls[c].mailbox != [])
  {
    ReturnedCallIsFinal(s, steps, t, c);
    RunKeepsInv(s, steps, t);
    if m.requestId in t.pending {
      assert m.requestId !in Handle(t, m).pending;
    }
  }

  /** The pending table holds exactly the unanswered calls in progress and the unanswered failed sends. */
  lemma LeftoverEntriesAreFailedSends(steps: seq<Step>, t: System)
    requires Reaches(START, steps, t)
    ensures forall c :: c in t.calls ==> (t.calls[c].requestId in t.pending <==> AwaitsAnswer(t.calls[c]))
    ensures forall id :: id in t.pending ==> t.pending[id] in t.calls && t.calls[t.pending[id]].requestId == id
  {
    RunKeepsInv(START, steps, t);
    assert forall c :: c in t.calls ==> CallInv(t, c);
  }

  /** A call that returned because its request was never sent: nothing can answer it. */
  ghost predicate IsLost(s: System, c: nat) {
    && InPhase(s, c, Finished(Err(NetworkError)))
    && s.calls[c].mailbox == []
    && RequestOf(s.calls[c]) !in s.requests
    && forall m :: m in s.responses && m.ScheduleResponse? ==> m.requestId != s.calls[c].requestId
  }

  lemma LostStep(s: System, e: Step, c: nat)
    requires Inv(s) && Enabled(s, e) && IsLost(s, c)
    ensures IsLost(Next(s, e), c)
  {
    FinishedCallStays(s, e, c);
    match e
    case Deliver(m) =>
      if m.ScheduleResponse? && m.requestId in s.pending {
        assert s.pending[m.requestId] != c;
      }
    case Serve(r) =>
      assert IsRequestOfSomeCall(s, r);
      var d :| d in s.calls && r == RequestOf(s.calls[d]);
      assert s.calls[d].requestId != s.calls[c].requestId;
    case SendRequest(d) => assert s.calls[d].requestId != s.calls[c].requestId;
    case FailSend(d, _) => assert s.calls[d].requestId != s.calls[c].requestId;
    case _ =>
  }

  /** Its entry stays in the table for the rest of the run. */
  lemma {:induction false} LostRequestStaysPending(s: System, steps: seq<Step>, t: System, c: nat)
    requires Inv(s) && Reaches(s, steps, t) && IsLost(s, c)
    ensures IsLost(t, c) && t.calls[c].requestId in t.pending
    decreases |steps|
  {
    if steps == [] {
      assert CallInv(s, c);
    } else {
      LostStep(s, steps[0], c);
      StepKeepsInv(s, steps[0]);
      LostRequestStaysPending(Next(s, steps[0]), steps[1..], t, c);
    }
  }

  /** Such a call: its send fails before anything goes out. */
  lemma FailedSendLeavesItsEntry(items: seq<ExecutionUnitData>, workerCount: nat)
    returns (steps: seq<Step>, t: System)
    ensures Reaches(START, steps, t) && IsLost(t, 0) && t.pending == map[1 := 0]
  {
    var begin, register, fail := Begin(0, items, workerCount), Register(0), FailSend(0, false);
    var numbered := Next(START, begin);
    var registered := Next(numbered, register);
    t := Next(registered, fail);
    steps := [begin, register, fail];
    assert steps[1..] == [register, fail] && [register, fail][1..] == [fail] && [fail][1..] == [];
    assert Reaches(t, [], t) && Reaches(registered, [fail], t) && Reaches(numbered, [register, fail], t);
  }

  /** A call whose request goes out although its sending fails: the answer comes after the call returned, and
      takes the entry away. */
  lemma LateAnswerWithdrawsFailedSend(items: seq<ExecutionUnitData>, workerCount: nat)
    returns (steps: seq<Step>, t: System, m: SchedulerMessage)
    ensures Reaches(START, steps, t) && InPhase(t, 0, Finished(Err(NetworkError))) && t.pending == map[1 := 0]
    ensures m.ScheduleResponse? && m.requestId == t.calls[0].requestId && Enabled(t, Deliver(m))
    ensures Next(t, Deliver(m)).pending == map[]
    ensures InPhase(Next(t, Deliver(m)), 0, Finished(Err(NetworkError)))
  {
    var request := ScheduleRequest(1, items, workerCount);
    var begin, register, fail, serve := Begin(0, items, workerCount), Register(0), FailSend(0, true), Serve(request);
    var numbered := Next(START, begin);
    var registered := Next(numbered, register);
    var failed := Next(registered, fail);
    assert failed.requests == {request};
    t := Next(failed, serve);
    m := ScheduleResponse(1, Answer(0, items, workerCount));
    steps := [begin, register, fail, serve];
    assert steps[1..] == [register, fail, serve] && [register, fail, serve][1..] == [fail, serve];
    assert [fail, serve][1..] == [serve] && [serve][1..] == [];
    assert Reaches(t, [], t) && Reaches(failed, [serve], t) && Reaches(registered, [fail, serve], t);
    assert Reaches(numbered, [register, fail, serve], t);
  }

  // ----- the client's tables

  /** The part of the system the client itself keeps. */
  datatype Tables = Tables(requestCounter: nat, pending: map<nat, nat>)

  function TablesOf(s: System): Tables {
    Tables(s.requestCounter, s.pending)
  }

  function TakeNumber(t: Tables): Tables {
    t.(requestCounter := t.requestCounter + 1)
  }

  function Enter(t: Tables, id: nat, call: nat): Tables {
    t.(pending := t.pending[id := call])
  }

  function Withdraw(t: Tables, id: nat): Tables {
    t.(pending := t.pending - {id})
  }

  /** The call a message wakes, and with what. */
  function Woken(t: Tables, m: SchedulerMessage): Option<(nat, seq<WorkerAssignment>)> {
    if m.ScheduleResponse? && m.requestId in t.pending then Some((t.pending[m.requestId], m.assignments)) else None
  }

  /** Each step does to the client's tables what the method of that name below does, and no other step
      touches them; a woken call finds its answer in its mailbox. */
  lemma StepsActOnTables(s: System, e: Step)
    requires Inv(s) && Enabled(s, e)
    ensures TablesOf(Next(s, e)) ==
      match e
      case Begin(_, _, _) => TakeNumber(TablesOf(s))
      case Register(c) => Enter(TablesOf(s), s.calls[c].requestId, c)
      case Deliver(m) => if Woken(TablesOf(s), m).Some? then Withdraw(TablesOf(s), m.requestId) else TablesOf(s)
      case ForgetRequest(c) => Withdraw(TablesOf(s), s.calls[c].requestId)
      case _ => TablesOf(s)
    ensures e.Deliver? ==>
      match Woken(TablesOf(s), e.message)
      case None => Next(s, e).calls == s.calls
      case Some((c, a)) => c in s.calls && Next(s, e).calls == s.calls[c := s.calls[c].(mailbox := [a])]
  {
    if e.Deliver? && Woken(TablesOf(s), e.message).Some? {
      var c, a := s.pending[e.message.requestId], e.message.assignments;
      assert CallInv(s, c) && s.calls[c].mailbox + [a] == [a];
    }
  }

  class ExternalSchedulerClient {
    var requestCounter: u64
    var pendingRequests: map<nat, nat>

    ghost function View(): Tables
      reads this
    {
      Tables(requestCounter, pendingRequests)
    }

    constructor ()
      ensures View() == TablesOf(START)
    {
      requestCounter, pendingRequests := 0, map[];
    }

    method NextRequestId() returns (id: nat)
      requires requestCounter < U64_MAX
      modifies this
      ensures View() == TakeNumber(old(View())) && id == requestCounter
    {
      requestCounter := requestCounter + 1;
      id := requestCounter;
    }

    method Register(id: nat, call: nat)
      modifies this
      ensures View() == Enter(old(View()), id, call)
    {
      pendingRequests := pendingRequests[id := call];
    }

    /** The call to wake and its answer, if the message is a response someone waits for. */
    method HandleMessage(message: SchedulerMessage) returns (wake: Option<(nat, seq<WorkerAssignment>)>)
      modifies this
      ensures wake == Woken(old(View()), message)
      ensures View() == if wake.Some? then Withdraw(old(View()), message.requestId) else old(View())
    {
      wake := None;
      if message.ScheduleResponse? && message.requestId in pendingRequests {
        wake := Some((pendingRequests[message.requestId], message.assignments));
        pendingRequests := pendingRequests - {message.requestId};
      }
    }

    method ForgetRequest(id: nat)
      modifies this
      ensures View() == Withdraw(old(View()), id)
    {
      pendingRequests := pendingRequests - {id};
    }
  }
}
