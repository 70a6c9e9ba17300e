/** The async worker pool: one producer, a FIFO queue per worker, a shared lock set, one completion
    channel. Every interleaving is a run of the atomic steps below. */
module WorkerPool {
  import opened Core
  import opened DisjointUnion

  /** What a worker needs of a transaction or bundle. */
  datatype Work = Work(unitId: string, accounts: set<Pubkey>)

  datatype WorkItem = TransactionItem(transaction: Transaction) | BundleItem(bundle: Bundle)

  function WorkOf(item: WorkItem): Work {
    match item
    case TransactionItem(t) => Work(t.signature, t.AllAccounts())
    case BundleItem(b) => Work(Decimal(b.id), b.AllAccounts())
  }

  ghost predicate ItemLists(item: WorkItem, key: Pubkey) {
    match item
    case TransactionItem(t) => t.Lists(key)
    case BundleItem(b) => b.Lists(key)
  }

  function ItemId(item: WorkItem): string {
    match item
    case TransactionItem(t) => t.signature
    case BundleItem(b) => Decimal(b.id)
  }

  /** A worker sees an item's id and exactly the accounts the item names. */
  lemma WorkIsTheItem(item: WorkItem)
    ensures WorkOf(item).unitId == ItemId(item)
    ensures forall key :: key in WorkOf(item).accounts <==> ItemLists(item, key)
  {
    forall key ensures key in WorkOf(item).accounts <==> ItemLists(item, key) {
      match item
      case TransactionItem(t) => TransactionAccountsAreListed(t, key);
      case BundleItem(b) => BundleAccountsAreListed(b, key);
    }
  }

  datatype WorkCompletion = WorkCompletion(workerId: nat, unitId: string, success: bool)

  /** Waiting for work; received a unit; holding its locks; done, completion not yet sent. */
  datatype Phase = Idle | Received(work: Work) | Executing(work: Work) | Reporting(work: Work, success: bool)

  /** Between calls; inside `send_work`, item sent but not yet counted; inside `wait_for_completions`. */
  datatype Producer = Ready | Counting | Waiting(target: nat, got: nat)

  /** The pool, with the history of what was sent to each worker and what was received back. */
  datatype Pool = Pool(
    queues: seq<seq<Work>>,
    phases: seq<Phase>,
    locked: set<Pubkey>,
    channel: seq<WorkCompletion>,
    pendingWork: nat,
    producer: Producer,
    sent: seq<seq<Work>>,
    received: seq<WorkCompletion>)

  datatype Step =
    | Send(w: nat, item: WorkItem)
    | CountSend
    | StartWait
    | TakeCompletion
    | Receive(w: nat)
    | AcquireLocks(w: nat)
    | ReleaseLocks(w: nat)
    | Report(w: nat)

  predicate WellFormed(s: Pool) {
    |s.queues| == |s.phases| == |s.sent|
  }

  predicate Enabled(s: Pool, e: Step) {
    WellFormed(s) &&
    match e
    case Send(_, _) => s.producer.Ready?
    case CountSend => s.producer.Counting?
    case StartWait => s.producer.Ready?
    case TakeCompletion => s.producer.Waiting? && s.channel != [] && s.pendingWork > 0
    case Receive(w) => w < |s.phases| && s.phases[w].Idle? && s.queues[w] != []
    case AcquireLocks(w) => w < |s.phases| && s.phases[w].Received?
    case ReleaseLocks(w) => w < |s.phases| && s.phases[w].Executing?
    case Report(w) => w < |s.phases| && s.phases[w].Reporting?
  }

  function Next(s: Pool, e: Step): (t: Pool)
    requires Enabled(s, e)
    ensures WellFormed(t) && |t.phases| == |s.phases|
  {
    match e
    case Send(w, item) =>
      if w >= |s.queues| then s  // "Invalid worker ID": nothing is sent or counted
      else s.(queues := s.queues[w := s.queues[w] + [WorkOf(item)]],
              sent := s.sent[w := s.sent[w] + [WorkOf(item)]],
              producer := Counting)
    case CountSend => s.(pendingWork := s.pendingWork + 1, producer := Ready)
    case StartWait => if s.pendingWork == 0 then s else s.(producer := Waiting(s.pendingWork, 0))
    case TakeCompletion =>
      var got := s.producer.got + 1;
      s.(channel := s.channel[1..],
         received := s.received + [s.channel[0]],
         pendingWork := s.pendingWork - 1,
         producer := if got < s.producer.target then Waiting(s.producer.target, got) else Ready)
    case Receive(w) =>
      s.(queues := s.queues[w := s.queues[w][1..]], phases := s.phases[w := Received(s.queues[w][0])])
    case AcquireLocks(w) =>
      var work := s.phases[w].work;
      if HasLocked(s.locked, work.accounts) then s.(phases := s.phases[w := Reporting(work, false)])
      else s.(locked := s.locked + work.accounts, phases := s.phases[w := Executing(work)])
    case ReleaseLocks(w) =>
      var work := s.phases[w].work;
      s.(locked := s.locked - work.accounts, phases := s.phases[w := Reporting(work, true)])
    case Report(w) =>
      var p := s.phases[w];
      s.(channel := s.channel + [WorkCompletion(w, p.work.unitId, p.success)], phases := s.phases[w := Idle])
  }

  predicate HasLocked(locked: set<Pubkey>, accounts: set<Pubkey>) {
    !(accounts !! locked)
  }

  // ----- runs

  /** A pool at rest, with history starting here. */
  ghost predicate Quiescent(s: Pool) {
    && WellFormed(s) && s.locked == {} && s.channel == [] && s.pendingWork == 0 && s.producer.Ready? && s.received == []
    && (forall w :: 0 <= w < |s.phases| ==> s.phases[w].Idle? && s.queues[w] == [] && s.sent[w] == [])
  }

  ghost predicate Reaches(s: Pool, steps: seq<Step>, t: Pool)
    decreases |steps|
  {
    if steps == [] then s == t
    else Enabled(s, steps[0]) && Reaches(Next(s, steps[0]), steps[1..], t)
  }

  lemma StepReaches(s: Pool, e: Step, rest: seq<Step>, t: Pool)
    requires Enabled(s, e) && Reaches(Next(s, e), rest, t)
    ensures Reaches(s, [e] + rest, t)
  {
    assert ([e] + rest)[1..] == rest;
  }

  function AfterAcquire(w: nat, success: bool): seq<Step> {
    if success then [ReleaseLocks(w)] + [Report(w)] else [Report(w)]
  }

  /** The steps of one turn of a worker's loop, in its program order. */
  function Turn(w: nat, success: bool): seq<Step> {
    [Receive(w)] + ([AcquireLocks(w)] + AfterAcquire(w, success))
  }

  // ----- what was sent, read from the steps

  /** The items the producer sent to worker w, in order. */
  function ItemsSent(steps: seq<Step>, w: nat): seq<WorkItem> {
    if steps == [] then []
    else (if steps[0].Send? && steps[0].w == w then [steps[0].item] else []) + ItemsSent(steps[1..], w)
  }

  function WorkOfAll(items: seq<WorkItem>): (work: seq<Work>)
    ensures |work| == |items|
  {
    seq(|items|, i requires 0 <= i < |items| => WorkOf(items[i]))
  }

  /** The history of what was sent is what the steps sent. */
  lemma {:induction false} SentFollowsSteps(s: Pool, steps: seq<Step>, t: Pool, w: nat)
    requires WellFormed(s) && Reaches(s, steps, t) && w < |s.sent|
    ensures w < |t.sent| && t.sent[w] == s.sent[w] + WorkOfAll(ItemsSent(steps, w))
    decreases |steps|
  {
    if steps != [] {
      var e, m := steps[0], Next(s, steps[0]);
      SentFollowsSteps(m, steps[1..], t, w);
      if e.Send? && e.w == w {
        assert WorkOfAll(ItemsSent(steps, w)) == [WorkOf(e.item)] + WorkOfAll(ItemsSent(steps[1..], w));
        assert m.sent[w] == s.sent[w] + [WorkOf(e.item)];
      } else {
        assert ItemsSent(steps, w) == ItemsSent(steps[1..], w);
        assert m.sent[w] == s.sent[w];
      }
    }
  }

  /** How often the producer took a completion. */
  function Takes(steps: seq<Step>): nat {
    if steps == [] then 0 else (if steps[0].TakeCompletion? then 1 else 0) + Takes(steps[1..])
  }

  lemma {:induction false} TakingReceives(s: Pool, steps: seq<Step>, t: Pool)
    requires Reaches(s, steps, t)
    ensures |t.received| == |s.received| + Takes(steps) && s.received <= t.received
    decreases |steps|
  {
    if steps != [] {
      TakingReceives(Next(s, steps[0]), steps[1..], t);
    }
  }

  // ----- the lock set

  ghost function Running(phases: seq<Phase>): map<nat, set<Pubkey>> {
    map w: nat | w < |phases| && phases[w].Executing? :: phases[w].work.accounts
  }

  lemma LocksStep(s: Pool, e: Step)
    requires Enabled(s, e) && IsDisjointUnion(s.locked, Running(s.phases))
    ensures IsDisjointUnion(Next(s, e).locked, Running(Next(s, e).phases))
  {
    var t := Next(s, e);
    match e
    case AcquireLocks(w) =>
      if t.phases[w].Executing? {
        AddPart(s.locked, Running(s.phases), w, s.phases[w].work.accounts);
        assert Running(t.phases) == Running(s.phases)[w := s.phases[w].work.accounts];
      } else {
        assert Running(t.phases) == Running(s.phases);
      }
    case ReleaseLocks(w) =>
      RemovePart(s.locked, Running(s.phases), w);
      assert Running(t.phases) == Running(s.phases) - {w};
    case _ => assert Running(t.phases) == Running(s.phases);
  }

  /** An acquisition fails exactly when another worker is executing a unit that shares an account. */
  lemma FailureIsARealConflict(s: Pool, w: nat)
    requires WellFormed(s) && IsDisjointUnion(s.locked, Running(s.phases)) && Enabled(s, AcquireLocks(w))
    ensures Next(s, AcquireLocks(w)).phases[w].Reporting? <==>
      exists v :: 0 <= v < |s.phases| && v != w && s.phases[v].Executing?
        && !(s.phases[v].work.accounts !! s.phases[w].work.accounts)
  {
    var accounts := s.phases[w].work.accounts;
    if HasLocked(s.locked, accounts) {
      var a :| a in accounts && a in s.locked;
      assert IsHeld(Running(s.phases), a);
      var v :| v in Running(s.phases) && a in Running(s.phases)[v];
      assert v != w && s.phases[v].Executing? && !(s.phases[v].work.accounts !! accounts);
    }
    forall v | 0 <= v < |s.phases| && s.phases[v].Executing? && !(s.phases[v].work.accounts !! accounts)
      ensures HasLocked(s.locked, accounts)
    {
      PartIsInside(s.locked, Running(s.phases), v);
    }
  }

  // ----- conservation

  function UnitsIn(work: seq<Work>): (ids: seq<string>)
    ensures |ids| == |work|
  {
    seq(|work|, i requires 0 <= i < |work| => work[i].unitId)
  }

  /** The unit ids that worker w completed, in channel order. */
  function CompletedBy(done: seq<WorkCompletion>, w: nat): seq<string> {
    if done == [] then []
    else
      var k := |done| - 1;
      CompletedBy(done[..k], w) + if done[k].workerId == w then [done[k].unitId] else []
  }

  function InHand(p: Phase): seq<Work> {
    if p.Idle? then [] else [p.work]
  }

  /** `sent` is the units named by `done`, in order, followed by `rest`. */
  ghost predicate Accounted(sent: seq<Work>, done: seq<string>, rest: seq<Work>) {
    |done| <= |sent| && UnitsIn(sent[..|done|]) == done && sent[|done|..] == rest
  }

  /** What was sent to worker w is what it completed, then what it has in hand, then its queue. */
  ghost predicate Conserved(s: Pool, w: nat)
    requires WellFormed(s) && w < |s.phases|
  {
    Accounted(s.sent[w], CompletedBy(s.received + s.channel, w), InHand(s.phases[w]) + s.queues[w])
  }

  lemma AccountsForOneMore(sent: seq<Work>, done: seq<string>, work: Work, rest: seq<Work>)
    requires Accounted(sent, done, [work] + rest)
    ensures Accounted(sent, done + [work.unitId], rest)
  {
    var n := |done|;
    assert sent[n] == sent[n..][0] && sent[n + 1..] == sent[n..][1..];
    assert sent[..n + 1] == sent[..n] + [work];
  }

  lemma CompletedByAppend(done: seq<WorkCompletion>, c: WorkCompletion, w: nat)
    ensures CompletedBy(done + [c], w) == CompletedBy(done, w) + if c.workerId == w then [c.unitId] else []
  {
    assert (done + [c])[..|done|] == done;
  }

  lemma ConservedSend(s: Pool, item: WorkItem, w: nat)
    requires Enabled(s, Send(w, item)) && w < |s.phases| && Conserved(s, w)
    ensures Conserved(Next(s, Send(w, item)), w)
  {
    var t := Next(s, Send(w, item));
    var n := |CompletedBy(s.received + s.channel, w)|;
    assert t.sent[w][..n] == s.sent[w][..n];
    assert t.sent[w][n..] == s.sent[w][n..] + [WorkOf(item)];
  }

  lemma ConservedReport(s: Pool, w: nat)
    requires Enabled(s, Report(w)) && Conserved(s, w)
    ensures Conserved(Next(s, Report(w)), w)
  {
    var t := Next(s, Report(w));
    var work := s.phases[w].work;
    var c := WorkCompletion(w, work.unitId, s.phases[w].success);
    assert t.received + t.channel == s.received + s.channel + [c];
    CompletedByAppend(s.received + s.channel, c, w);
    AccountsForOneMore(s.sent[w], CompletedBy(s.received + s.channel, w), work, s.queues[w]);
    assert [] + t.queues[w] == s.queues[w];
  }

  lemma ConservedReceive(s: Pool, w: nat)
    requires Enabled(s, Receive(w)) && Conserved(s, w)
    ensures Conserved(Next(s, Receive(w)), w)
  {
    assert s.queues[w] == [s.queues[w][0]] + s.queues[w][1..];
  }

  lemma ConservedElsewhere(s: Pool, t: Pool, w: nat)
    requires WellFormed(s) && WellFormed(t) && |s.phases| == |t.phases| && w < |s.phases| && Conserved(s, w)
    requires t.queues[w] == s.queues[w] && t.sent[w] == s.sent[w] && InHand(t.phases[w]) == InHand(s.phases[w])
    requires CompletedBy(t.received + t.channel, w) == CompletedBy(s.received + s.channel, w)
    ensures Conserved(t, w)
  {
  }

  lemma ConservedReportElsewhere(s: Pool, v: nat, w: nat)
    requires Enabled(s, Report(v)) && w < |s.phases| && v != w && Conserved(s, w)
    ensures Conserved(Next(s, Report(v)), w)
  {
    var t := Next(s, Report(v));
    var c := WorkCompletion(v, s.phases[v].work.unitId, s.phases[v].success);
    assert t.received + t.channel == s.received + s.channel + [c];
    CompletedByAppend(s.received + s.channel, c, w);
    ConservedElsewhere(s, t, w);
  }

  lemma ConservedByOthers(s: Pool, e: Step, w: nat)
    requires Enabled(s, e) && w < |s.phases| && Conserved(s, w) && !e.Report?
    requires !(e.Send? && e.w == w) && e != Receive(w)
    ensures Conserved(Next(s, e), w)
  {
    var t := Next(s, e);
    assert t.received + t.channel == s.received + s.channel;
    ConservedElsewhere(s, t, w);
  }

  lemma ConservedStep(s: Pool, e: Step, w: nat)
    requires Enabled(s, e) && w < |s.phases| && Conserved(s, w)
    ensures Conserved(Next(s, e), w)
  {
    if e.Send? && e.w == w {
      ConservedSend(s, e.item, w);
    } else if e.Report? {
      if e.w == w {
        ConservedReport(s, w);
      } else {
        ConservedReportElsewhere(s, e.w, w);
      }
    } else if e == Receive(w) {
      ConservedReceive(s, w);
    } else {
      ConservedByOthers(s, e, w);
    }
  }

  /** Units queued or in hand at workers below n. */
  function AtWorkers(s: Pool, n: nat): nat
    requires WellFormed(s) && n <= |s.phases|
  {
    if n == 0 then 0 else AtWorkers(s, n - 1) + |s.queues[n - 1]| + |InHand(s.phases[n - 1])|
  }

  /** `pending_work` counts what is queued, in hand, or completed but not received; a unit just sent
      is about to be counted, and a waiting producer counts down to zero. */
  ghost predicate Counted(s: Pool)
    requires WellFormed(s)
  {
    && s.pendingWork + (if s.producer.Counting? then 1 else 0) == AtWorkers(s, |s.phases|) + |s.channel|
    && (s.producer.Waiting? ==>
          s.producer.got < s.producer.target && s.pendingWork == s.producer.target - s.producer.got)
  }

  lemma {:induction false} AtWorkersChange(s: Pool, t: Pool, w: nat, n: nat)
    requires WellFormed(s) && WellFormed(t) && |s.phases| == |t.phases| && n <= |s.phases| && w < |s.phases|
    requires forall v :: 0 <= v < |s.phases| && v != w ==> t.queues[v] == s.queues[v] && t.phases[v] == s.phases[v]
    ensures AtWorkers(t, n) - AtWorkers(s, n) ==
      if w < n then |t.queues[w]| + |InHand(t.phases[w])| - |s.queues[w]| - |InHand(s.phases[w])| else 0
  {
    if n > 0 {
      AtWorkersChange(s, t, w, n - 1);
    }
  }

  lemma CountedStep(s: Pool, e: Step)
    requires Enabled(s, e) && Counted(s)
    ensures Counted(Next(s, e))
  {
    var t := Next(s, e);
    var n := |s.phases|;
    if e.Send? || e.Receive? || e.AcquireLocks? || e.ReleaseLocks? || e.Report? {
      if e.w < n {
        AtWorkersChange(s, t, e.w, n);
      }
    } else if n > 0 {
      AtWorkersChange(s, t, 0, n);
    }
  }

  // ----- the invariant over runs

  ghost predicate Inv(s: Pool) {
    && WellFormed(s)
    && IsDisjointUnion(s.locked, Running(s.phases))
    && Counted(s)
    && forall w :: 0 <= w < |s.phases| ==> Conserved(s, w)
  }

  lemma StepKeepsInv(s: Pool, e: Step)
    requires Inv(s) && Enabled(s, e)
    ensures Inv(Next(s, e))
  {
    LocksStep(s, e);
    CountedStep(s, e);
    forall w | 0 <= w < |s.phases| ensures Conserved(Next(s, e), w) {
      ConservedStep(s, e, w);
    }
  }

  lemma {:induction false} RunKeepsInv(s: Pool, steps: seq<Step>, t: Pool)
    requires Inv(s) && Reaches(s, steps, t)
    ensures Inv(t)
    decreases |steps|
  {
    if steps != [] {
      StepKeepsInv(s, steps[0]);
      RunKeepsInv(Next(s, steps[0]), steps[1..], t);
    }
  }

  lemma {:induction false} NothingAtIdleWorkers(s: Pool, n: nat)
    requires WellFormed(s) && n <= |s.phases|
    ensures AtWorkers(s, n) == 0 <==> forall w :: 0 <= w < n ==> s.phases[w].Idle? && s.queues[w] == []
  {
    if n > 0 {
      NothingAtIdleWorkers(s, n - 1);
    }
  }

  lemma QuiescentIsInv(s: Pool)
    requires Quiescent(s)
    ensures Inv(s)
  {
    NothingAtIdleWorkers(s, |s.phases|);
    assert Running(s.phases) == map[];
  }

  /** In every interleaving the lock set is the disjoint union of the executing units' accounts. */
  lemma LocksAreTheRunningUnits(s: Pool, steps: seq<Step>, t: Pool)
    requires Quiescent(s) && Reaches(s, steps, t)
    ensures WellFormed(t) && IsDisjointUnion(t.locked, Running(t.phases))
    ensures t.pendingWork + (if t.producer.Counting? then 1 else 0) == AtWorkers(t, |t.phases|) + |t.channel|
  {
    QuiescentIsInv(s);
    RunKeepsInv(s, steps, t);
  }

  /** When the producer is between calls with nothing pending, every unit sent to a worker has been
      received back exactly once, in the order it was sent, and no lock is held. */
  lemma EverythingComesBack(s: Pool, steps: seq<Step>, t: Pool)
    requires Quiescent(s) && Reaches(s, steps, t) && t.producer.Ready? && t.pendingWork == 0
    ensures WellFormed(t) && t.locked == {} && t.channel == []
    ensures forall w :: 0 <= w < |t.phases| ==> t.phases[w].Idle? && t.queues[w] == []
    ensures forall w :: 0 <= w < |t.phases| ==> CompletedBy(t.received, w) == UnitsIn(t.sent[w])
  {
    QuiescentIsInv(s);
    RunKeepsInv(s, steps, t);
    NothingAtIdleWorkers(t, |t.phases|);
    assert Running(t.phases) == map[];
    forall w | 0 <= w < |t.phases| ensures CompletedBy(t.received, w) == UnitsIn(t.sent[w]) {
      assert Conserved(t, w);
      var n := |CompletedBy(t.received, w)|;
      assert t.received + t.channel == t.received;
      assert t.sent[w][n..] == [];
      assert t.sent[w][..n] == t.sent[w];
    }
  }

  function IdsOf(items: seq<WorkItem>): (ids: seq<string>)
    ensures |ids| == |items|
  {
    seq(|items|, i requires 0 <= i < |items| => ItemId(items[i]))
  }

  /** So each item handed to `send_work` for a worker of the pool has come back, once, in the order sent. */
  lemma EveryItemComesBack(s: Pool, steps: seq<Step>, t: Pool, w: nat)
    requires Quiescent(s) && Reaches(s, steps, t) && t.producer.Ready? && t.pendingWork == 0 && w < |s.phases|
    ensures CompletedBy(t.received, w) == IdsOf(ItemsSent(steps, w))
  {
    EverythingComesBack(s, steps, t);
    SentFollowsSteps(s, steps, t, w);
    var items := ItemsSent(steps, w);
    assert t.sent[w] == WorkOfAll(items);
    forall i | 0 <= i < |items| ensures WorkOf(items[i]).unitId == ItemId(items[i]) {
      WorkIsTheItem(items[i]);
    }
    assert UnitsIn(WorkOfAll(items)) == IdsOf(items);
  }

  /** A wait that returns leaves nothing pending. */
  lemma WaitReturnsWhenDrained(s: Pool, steps: seq<Step>, t: Pool)
    requires Quiescent(s) && Reaches(s, steps, t) && Enabled(t, TakeCompletion)
    ensures Next(t, TakeCompletion).producer.Ready? <==> Next(t, TakeCompletion).pendingWork == 0
  {
    QuiescentIsInv(s);
    RunKeepsInv(s, steps, t);
  }

  // ----- a wait always finishes

  /** A waiting producer never gets stuck: a completion is there, or some worker can move. */
  lemma WaitNeverDeadlocks(s: Pool) returns (e: Step)
    requires Inv(s) && s.producer.Waiting?
    ensures Enabled(s, e) && !e.Send? && !e.StartWait?
  {
    if s.channel != [] {
      return TakeCompletion;
    }
    NothingAtIdleWorkers(s, |s.phases|);
    var w :| 0 <= w < |s.phases| && !(s.phases[w].Idle? && s.queues[w] == []);
    match s.phases[w]
    case Idle => e := Receive(w);
    case Received(_) => e := AcquireLocks(w);
    case Executing(_) => e := ReleaseLocks(w);
    case Reporting(_, _) => e := Report(w);
  }

  /** Steps a unit still has to go through: receive, lock, unlock, report, and be taken. */
  function StepsLeft(p: Phase): nat {
    match p
    case Idle => 0
    case Received(_) => 4
    case Executing(_) => 3
    case Reporting(_, _) => 2
  }

  function StepsLeftAt(s: Pool, n: nat): nat
    requires WellFormed(s) && n <= |s.phases|
  {
    if n == 0 then 0 else StepsLeftAt(s, n - 1) + 5 * |s.queues[n - 1]| + StepsLeft(s.phases[n - 1])
  }

  function Remaining(s: Pool): nat
    requires WellFormed(s)
  {
    StepsLeftAt(s, |s.phases|) + |s.channel|
  }

  lemma {:induction false} StepsLeftChange(s: Pool, t: Pool, w: nat, n: nat)
    requires WellFormed(s) && WellFormed(t) && |s.phases| == |t.phases| && n <= |s.phases| && w < |s.phases|
    requires forall v :: 0 <= v < |s.phases| && v != w ==> t.queues[v] == s.queues[v] && t.phases[v] == s.phases[v]
    ensures StepsLeftAt(t, n) - StepsLeftAt(s, n) ==
      if w < n then 5 * |t.queues[w]| + StepsLeft(t.phases[w]) - 5 * |s.queues[w]| - StepsLeft(s.phases[w]) else 0
  {
    if n > 0 {
      StepsLeftChange(s, t, w, n - 1);
    }
  }

  /** While the producer waits, every step of any worker or of the producer brings the end nearer. */
  lemma WaitingStepsRunOut(s: Pool, e: Step)
    requires Inv(s) && s.producer.Waiting? && Enabled(s, e)
    ensures Remaining(Next(s, e)) < Remaining(s)
  {
    var t := Next(s, e);
    var n := |s.phases|;
    if e.TakeCompletion? {
      if n > 0 {
        StepsLeftChange(s, t, 0, n);
      }
    } else {
      StepsLeftChange(s, t, e.w, n);
    }
  }

  /** The producer is waiting before each of the steps. */
  ghost predicate WaitsThroughout(s: Pool, steps: seq<Step>)
    decreases |steps|
  {
    steps != [] ==>
      s.producer.Waiting? && Enabled(s, steps[0]) && WaitsThroughout(Next(s, steps[0]), steps[1..])
  }

  /** A wait is over after at most `Remaining` steps of any tasks; `WaitNeverDeadlocks` says that one of them
      can always be taken. */
  lemma {:induction false} WaitIsBounded(s: Pool, steps: seq<Step>)
    requires Inv(s) && WaitsThroughout(s, steps)
    ensures |steps| <= Remaining(s)
    decreases |steps|
  {
    if steps != [] {
      StepKeepsInv(s, steps[0]);
      WaitingStepsRunOut(s, steps[0]);
      WaitIsBounded(Next(s, steps[0]), steps[1..]);
    }
  }

  /** During a wait the producer counts the completions it takes, up to its target. */
  lemma {:induction false} WaitProgress(s: Pool, steps: seq<Step>, t: Pool)
    requires s.producer.Waiting? && s.producer.got < s.producer.target
    requires WaitsThroughout(s, steps) && Reaches(s, steps, t)
    ensures var now := s.producer.got + Takes(steps);
      && now <= s.producer.target
      && t.producer == if now < s.producer.target then Waiting(s.producer.target, now) else Ready
    decreases |steps|
  {
    if steps != [] {
      var m := Next(s, steps[0]);
      if m.producer.Waiting? {
        WaitProgress(m, steps[1..], t);
      } else {
        assert steps[1..] == [];
      }
    }
  }

  /** A wait begun with p units pending returns exactly when it has received p completions; with none pending
      it returns at once. */
  lemma WaitReceivesWhatWasPending(s: Pool, steps: seq<Step>, t: Pool)
    requires Enabled(s, StartWait) && WaitsThroughout(Next(s, StartWait), steps)
    requires Reaches(Next(s, StartWait), steps, t)
    ensures t.producer.Ready? <==> Takes(steps) == s.pendingWork
    ensures Takes(steps) <= s.pendingWork && |t.received| == |s.received| + Takes(steps) && s.received <= t.received
  {
    TakingReceives(Next(s, StartWait), steps, t);
    if s.pendingWork > 0 {
      WaitProgress(Next(s, StartWait), steps, t);
    }
  }

  // ----- which units can fail

  /** Units sent to different workers share no account. */
  ghost predicate CrossDisjoint(sent: seq<seq<Work>>) {
    forall v, w, i, j :: 0 <= v < w < |sent| && 0 <= i < |sent[v]| && 0 <= j < |sent[w]| ==>
      sent[v][i].accounts !! sent[w][j].accounts
  }

  ghost predicate NoFailure(s: Pool) {
    && (forall w :: 0 <= w < |s.phases| && s.phases[w].Reporting? ==> s.phases[w].success)
    && (forall c :: c in s.channel || c in s.received ==> c.success)
  }

  lemma NoFailureStep(s: Pool, e: Step)
    requires Inv(s) && Enabled(s, e) && NoFailure(s) && CrossDisjoint(s.sent)
    ensures NoFailure(Next(s, e))
  {
    if e.AcquireLocks? {
      FailureIsARealConflict(s, e.w);
      forall v | 0 <= v < |s.phases| && v != e.w && s.phases[v].Executing?
        ensures s.phases[v].work.accounts !! s.phases[e.w].work.accounts
      {
        InHandWasSent(s, v);
        InHandWasSent(s, e.w);
      }
    }
  }

  lemma InHandWasSent(s: Pool, w: nat)
    requires WellFormed(s) && w < |s.phases| && Conserved(s, w) && !s.phases[w].Idle?
    ensures exists i :: 0 <= i < |s.sent[w]| && s.sent[w][i] == s.phases[w].work
  {
    var n := |CompletedBy(s.received + s.channel, w)|;
    assert s.sent[w][n] == s.sent[w][n..][0];
  }

  lemma {:induction false} CrossDisjointBefore(s: Pool, steps: seq<Step>, t: Pool)
    requires WellFormed(s) && Reaches(s, steps, t) && CrossDisjoint(t.sent)
    ensures CrossDisjoint(s.sent)
    decreases |steps|
  {
    if steps != [] {
      var m := Next(s, steps[0]);
      CrossDisjointBefore(m, steps[1..], t);
      forall w | 0 <= w < |s.sent| ensures s.sent[w] <= m.sent[w] {}
      forall v, w, i, j | 0 <= v < w < |s.sent| && 0 <= i < |s.sent[v]| && 0 <= j < |s.sent[w]|
        ensures s.sent[v][i].accounts !! s.sent[w][j].accounts
      {
        assert m.sent[v][i].accounts !! m.sent[w][j].accounts;
      }
    }
  }

  lemma {:induction false} NoFailureRun(s: Pool, steps: seq<Step>, t: Pool)
    requires Inv(s) && NoFailure(s) && Reaches(s, steps, t) && CrossDisjoint(t.sent)
    ensures NoFailure(t)
    decreases |steps|
  {
    if steps != [] {
      CrossDisjointBefore(s, steps, t);
      NoFailureStep(s, steps[0]);
      StepKeepsInv(s, steps[0]);
      NoFailureRun(Next(s, steps[0]), steps[1..], t);
    }
  }

  /** From a pool at rest, a batch whose units on different workers are disjoint succeeds entirely,
      in every interleaving. */
  lemma DisjointBatchSucceeds(s: Pool, steps: seq<Step>, t: Pool)
    requires Quiescent(s) && Reaches(s, steps, t) && CrossDisjoint(t.sent)
    ensures forall c :: c in t.channel || c in t.received ==> c.success
  {
    QuiescentIsInv(s);
    NoFailureRun(s, steps, t);
  }

  ghost predicate ItemsShare(one: WorkItem, two: WorkItem) {
    exists key :: ItemLists(one, key) && ItemLists(two, key)
  }

  /** No two items sent to different ones of n workers name a common account. */
  ghost predicate ItemsApart(steps: seq<Step>, n: nat) {
    forall v: nat, w: nat, one, two ::
      v < w < n && one in ItemsSent(steps, v) && two in ItemsSent(steps, w) ==> !ItemsShare(one, two)
  }

  lemma ApartItemsAreDisjoint(one: WorkItem, two: WorkItem)
    requires !ItemsShare(one, two)
    ensures WorkOf(one).accounts !! WorkOf(two).accounts
  {
    WorkIsTheItem(one);
    WorkIsTheItem(two);
  }

  lemma ApartItemsCrossDisjoint(steps: seq<Step>, sent: seq<seq<Work>>)
    requires ItemsApart(steps, |sent|)
    requires forall w :: 0 <= w < |sent| ==> sent[w] == WorkOfAll(ItemsSent(steps, w))
    ensures CrossDisjoint(sent)
  {
    forall v, w, i, j | 0 <= v < w < |sent| && 0 <= i < |sent[v]| && 0 <= j < |sent[w]|
      ensures sent[v][i].accounts !! sent[w][j].accounts
    {
      ApartItemsAreDisjoint(ItemsSent(steps, v)[i], ItemsSent(steps, w)[j]);
    }
  }

  /** The same, on the items as sent: if no two items sent to different workers name a common account, all
      succeed. */
  lemma ApartItemsSucceed(s: Pool, steps: seq<Step>, t: Pool)
    requires Quiescent(s) && Reaches(s, steps, t)
    requires ItemsApart(steps, |s.phases|)
    ensures forall c :: c in t.channel || c in t.received ==> c.success
  {
    SameWorkers(s, steps, t);
    forall w | 0 <= w < |t.sent| ensures t.sent[w] == WorkOfAll(ItemsSent(steps, w)) {
      SentFollowsSteps(s, steps, t, w);
    }
    ApartItemsCrossDisjoint(steps, t.sent);
    DisjointBatchSucceeds(s, steps, t);
  }

  lemma {:induction false} SameWorkers(s: Pool, steps: seq<Step>, t: Pool)
    requires WellFormed(s) && Reaches(s, steps, t)
    ensures WellFormed(t) && |t.phases| == |s.phases|
    decreases |steps|
  {
    if steps != [] {
      SameWorkers(Next(s, steps[0]), steps[1..], t);
    }
  }

  // ----- and which must, in some interleaving

  ghost predicate NoSends(steps: seq<Step>) {
    forall i :: 0 <= i < |steps| ==> !steps[i].Send?
  }

  /** A worker that runs a whole turn while nothing is locked completes its next unit and changes nothing else. */
  lemma TurnThen(s: Pool, w: nat, rest: seq<Step>, t: Pool) returns (steps: seq<Step>)
    requires WellFormed(s) && w < |s.phases| && s.phases[w].Idle? && s.queues[w] != [] && s.locked == {}
    requires NoSends(rest) && Reaches(AfterTurn(s, w), rest, t)
    ensures NoSends(steps) && Reaches(s, steps, t)
  {
    var work := s.queues[w][0];
    var received := Next(s, Receive(w));
    var executing := Next(received, AcquireLocks(w));
    var released := Next(executing, ReleaseLocks(w));
    assert Next(released, Report(w)) == AfterTurn(s, w) by {
      assert {} + work.accounts - work.accounts == {};
      assert s.phases[w := Idle] == s.phases;
    }
    StepReaches(released, Report(w), rest, t);
    StepReaches(executing, ReleaseLocks(w), [Report(w)] + rest, t);
    StepReaches(received, AcquireLocks(w), [ReleaseLocks(w)] + ([Report(w)] + rest), t);
    steps := [Receive(w)] + ([AcquireLocks(w)] + ([ReleaseLocks(w)] + ([Report(w)] + rest)));
    StepReaches(s, Receive(w), [AcquireLocks(w)] + ([ReleaseLocks(w)] + ([Report(w)] + rest)), t);
  }

  function AfterTurn(s: Pool, w: nat): Pool
    requires WellFormed(s) && w < |s.phases| && s.queues[w] != []
  {
    s.(queues := s.queues[w := s.queues[w][1..]],
       channel := s.channel + [WorkCompletion(w, s.queues[w][0].unitId, true)])
  }

  /** With two clashing units at the heads of their queues, one can be caught executing by the other. */
  lemma HeadsCanClash(s: Pool, v: nat, w: nat) returns (steps: seq<Step>, t: Pool)
    requires WellFormed(s) && v < |s.phases| && w < |s.phases| && v != w && s.locked == {}
    requires s.phases[v].Idle? && s.queues[v] != [] && s.phases[w].Idle? && s.queues[w] != []
    requires !(s.queues[v][0].accounts !! s.queues[w][0].accounts)
    ensures NoSends(steps) && Reaches(s, steps, t)
    ensures WorkCompletion(w, s.queues[w][0].unitId, false) in t.channel
  {
    var first := Next(s, Receive(v));
    var held := Next(first, AcquireLocks(v));
    var second := Next(held, Receive(w));
    var failed := Next(second, AcquireLocks(w));
    t := Next(failed, Report(w));
    assert t.channel[|s.channel|] == WorkCompletion(w, s.queues[w][0].unitId, false);
    StepReaches(failed, Report(w), [], t);
    StepReaches(second, AcquireLocks(w), [Report(w)], t);
    StepReaches(held, Receive(w), [AcquireLocks(w)] + [Report(w)], t);
    StepReaches(first, AcquireLocks(v), [Receive(w)] + ([AcquireLocks(w)] + [Report(w)]), t);
    StepReaches(s, Receive(v), [AcquireLocks(v)] + ([Receive(w)] + ([AcquireLocks(w)] + [Report(w)])), t);
    steps := [Receive(v)] + ([AcquireLocks(v)] + ([Receive(w)] + ([AcquireLocks(w)] + [Report(w)])));
  }

  /** Clashing units queued at two idle workers can fail: let both workers finish what comes before. */
  lemma {:induction false} QueuedUnitsCanClash(s: Pool, v: nat, w: nat, i: nat, j: nat)
    returns (steps: seq<Step>, t: Pool)
    requires WellFormed(s) && v < |s.phases| && w < |s.phases| && v != w && s.locked == {}
    requires s.phases[v].Idle? && i < |s.queues[v]| && s.phases[w].Idle? && j < |s.queues[w]|
    requires !(s.queues[v][i].accounts !! s.queues[w][j].accounts)
    ensures NoSends(steps) && Reaches(s, steps, t)
    ensures WorkCompletion(w, s.queues[w][j].unitId, false) in t.channel
    decreases i + j
  {
    if i > 0 {
      steps, t := QueuedUnitsCanClash(AfterTurn(s, v), v, w, i - 1, j);
      steps := TurnThen(s, v, steps, t);
    } else if j > 0 {
      steps, t := QueuedUnitsCanClash(AfterTurn(s, w), v, w, i, j - 1);
      steps := TurnThen(s, w, steps, t);
    } else {
      steps, t := HeadsCanClash(s, v, w);
    }
  }

  /** A batch has been sent and no worker has started on it. */
  ghost predicate Loaded(s: Pool) {
    && Inv(s) && s.sent == s.queues && s.channel == [] && s.received == []
    && (forall w :: 0 <= w < |s.phases| ==> s.phases[w].Idle?)
  }

  lemma {:induction false} SentStays(s: Pool, steps: seq<Step>, t: Pool)
    requires Reaches(s, steps, t) && NoSends(steps)
    ensures t.sent == s.sent
    decreases |steps|
  {
    if steps != [] {
      assert !steps[0].Send?;
      SentStays(Next(s, steps[0]), steps[1..], t);
    }
  }

  lemma ClashingBatchCanFail(s: Pool) returns (steps: seq<Step>, t: Pool)
    requires Loaded(s) && !CrossDisjoint(s.sent)
    ensures NoSends(steps) && Reaches(s, steps, t) && exists c :: c in t.channel && !c.success
  {
    var v, w, i, j :| 0 <= v < w < |s.sent| && 0 <= i < |s.sent[v]| && 0 <= j < |s.sent[w]|
      && !(s.sent[v][i].accounts !! s.sent[w][j].accounts);
    assert Running(s.phases) == map[];
    steps, t := QueuedUnitsCanClash(s, v, w, i, j);
  }

  lemma DisjointLoadNeverFails(s: Pool, steps: seq<Step>, t: Pool)
    requires Loaded(s) && CrossDisjoint(s.sent) && NoSends(steps) && Reaches(s, steps, t)
    ensures NoFailure(t)
  {
    SentStays(s, steps, t);
    NoFailureRun(s, steps, t);
  }

  /** No unit of the batch fails, whatever the interleaving. */
  ghost predicate NeverFails(s: Pool) {
    forall steps, t :: NoSends(steps) && Reaches(s, steps, t) ==> NoFailure(t)
  }

  /** A batch succeeds in every interleaving exactly when units on different workers share no account. */
  lemma BatchSucceedsExactlyWhenDisjoint(s: Pool)
    requires Loaded(s)
    ensures CrossDisjoint(s.sent) <==> NeverFails(s)
  {
    if CrossDisjoint(s.sent) {
      forall steps, t | NoSends(steps) && Reaches(s, steps, t) ensures NoFailure(t) {
        DisjointLoadNeverFails(s, steps, t);
      }
    } else {
      var steps, t := ClashingBatchCanFail(s);
      assert !NoFailure(t);
    }
  }

  ghost predicate SomeSuccess(s: Pool) {
    || (exists w :: 0 <= w < |s.phases| && (s.phases[w].Executing? || (s.phases[w].Reporting? && s.phases[w].success)))
    || (exists c :: c in s.received + s.channel && c.success)
  }

  ghost predicate SomeFailure(s: Pool) {
    || (exists w :: 0 <= w < |s.phases| && s.phases[w].Reporting? && !s.phases[w].success)
    || (exists c :: c in s.received + s.channel && !c.success)
  }

  lemma SuccessStep(s: Pool, e: Step)
    requires Inv(s) && Enabled(s, e) && (SomeFailure(s) ==> SomeSuccess(s))
    ensures SomeFailure(Next(s, e)) ==> SomeSuccess(Next(s, e))
  {
    var t := Next(s, e);
    if SomeSuccess(s) {
      SuccessLasts(s, e);
    }
    match e
    case AcquireLocks(w) =>
      if t.phases[w].Reporting? {
        FailureIsARealConflict(s, w);
        var v :| 0 <= v < |s.phases| && v != w && s.phases[v].Executing?;
        assert t.phases[v].Executing?;
      } else {
        assert t.phases[w].Executing?;
      }
    case TakeCompletion =>
      assert t.received + t.channel == s.received + s.channel;
    case _ =>
  }

  lemma SuccessLasts(s: Pool, e: Step)
    requires Enabled(s, e) && SomeSuccess(s)
    ensures SomeSuccess(Next(s, e))
  {
    var t := Next(s, e);
    if c :| c in s.received + s.channel && c.success {
      assert c in t.received + t.channel;
    } else {
      var w :| 0 <= w < |s.phases| && (s.phases[w].Executing? || (s.phases[w].Reporting? && s.phases[w].success));
      if e == Report(w) {
        assert t.channel[|s.channel|] in t.received + t.channel;
      } else {
        assert t.phases[w].Executing? || (t.phases[w].Reporting? && t.phases[w].success);
      }
    }
  }

  lemma {:induction false} SuccessRun(s: Pool, steps: seq<Step>, t: Pool)
    requires Inv(s) && (SomeFailure(s) ==> SomeSuccess(s)) && Reaches(s, steps, t)
    ensures SomeFailure(t) ==> SomeSuccess(t)
    decreases |steps|
  {
    if steps != [] {
      SuccessStep(s, steps[0]);
      StepKeepsInv(s, steps[0]);
      SuccessRun(Next(s, steps[0]), steps[1..], t);
    }
  }

  /** From a pool at rest, once a non-empty batch is fully received, at least one unit succeeded. */
  lemma SomeUnitSucceeds(s: Pool, steps: seq<Step>, t: Pool, w: nat)
    requires Quiescent(s) && Reaches(s, steps, t) && t.producer.Ready? && t.pendingWork == 0
    requires w < |t.sent| && t.sent[w] != []
    ensures exists c :: c in t.received && c.success
  {
    QuiescentIsInv(s);
    SuccessRun(s, steps, t);
    EverythingComesBack(s, steps, t);
    assert t.received + t.channel == t.received;
    assert |CompletedBy(t.received, w)| > 0;
    assert t.received != [];
    var c := t.received[0];
    assert c in t.received + t.channel;
    assert !c.success ==> SomeFailure(t);
  }

  /** On the steps: once everything sent is received and something was sent to a worker of the pool, some
      unit succeeded. */
  lemma SomeItemSucceeds(s: Pool, steps: seq<Step>, t: Pool, w: nat)
    requires Quiescent(s) && Reaches(s, steps, t) && t.producer.Ready? && t.pendingWork == 0
    requires w < |s.phases| && ItemsSent(steps, w) != []
    ensures exists c :: c in t.received && c.success
  {
    SentFollowsSteps(s, steps, t, w);
    SomeUnitSucceeds(s, steps, t, w);
  }

  // ----- the shared lock set, as the worker's two methods update it

  class LockSet {
    var locked: set<Pubkey>

    constructor ()
      ensures locked == {}
    {
      locked := {};
    }

    /** All of the accounts or none, under one write lock. */
    method AcquireLocks(accounts: set<Pubkey>) returns (r: Result<(), LockError>)
      modifies this
      ensures r.Ok? <==> !HasLocked(old(locked), accounts)
      ensures locked == if r.Ok? then old(locked) + accounts else old(locked)
    {
      var todo := accounts;
      while todo != {}
        invariant todo <= accounts && (accounts - todo) !! locked && locked == old(locked)
        decreases todo
      {
        var acc :| acc in todo;
        if acc in locked {
          return Err(LockAcquisitionFailed);
        }
        todo := todo - {acc};
      }
      locked := locked + accounts;
      return Ok(());
    }

    method ReleaseLocks(accounts: set<Pubkey>)
      modifies this
      ensures locked == old(locked) - accounts
    {
      var todo := accounts;
      while todo != {}
        invariant todo <= accounts && locked == old(locked) - (accounts - todo)
        decreases todo
      {
        var acc :| acc in todo;
        locked := locked - {acc};
        todo := todo - {acc};
      }
    }
  }
}
