/** The pool and its workers as objects. Each method is a stretch of the source between two points at which
    other tasks may run, and moves the pool by the corresponding steps of `WorkerPool`. */
module AsyncWorkers {
  import opened Core
  import opened WorkerPool

  datatype SendError = InvalidWorkerId

  class AsyncWorkerPool {
    const globalLocks: LockSet
    var queues: seq<seq<Work>>
    var phases: seq<Phase>
    var completions: seq<WorkCompletion>
    var pendingWork: nat
    ghost var producer: Producer
    ghost var sent: seq<seq<Work>>
    ghost var received: seq<WorkCompletion>

    ghost function View(): Pool
      reads this, globalLocks
    {
      Pool(queues, phases, globalLocks.locked, completions, pendingWork, producer, sent, received)
    }

    constructor (workerCount: nat)
      ensures Quiescent(View()) && |phases| == workerCount && fresh(globalLocks)
    {
      globalLocks := new LockSet();
      queues, phases := seq(workerCount, w => []), seq(workerCount, w => Idle);
      completions, pendingWork := [], 0;
      producer, sent, received := Ready, seq(workerCount, w => []), [];
    }

    /** First half of `send_work`: put the unit on the worker's queue. */
    method Enqueue(workerId: nat, item: WorkItem) returns (r: Result<(), SendError>)
      requires Enabled(View(), Send(workerId, item))
      modifies this
      ensures r.Ok? <==> workerId < |old(queues)|
      ensures queues == if workerId < |old(queues)|
        then old(queues)[workerId := old(queues)[workerId] + [WorkOf(item)]] else old(queues)
      ensures View() == Next(old(View()), Send(workerId, item))
    {
      if workerId >= |queues| {
        return Err(InvalidWorkerId);
      }
      queues := queues[workerId := queues[workerId] + [WorkOf(item)]];
      sent := sent[workerId := sent[workerId] + [WorkOf(item)]];
      producer := Counting;
      return Ok(());
    }

    /** Second half: count it. The unit may already have run. */
    method CountPending()
      requires Enabled(View(), CountSend)
      modifies this
      ensures pendingWork == old(pendingWork) + 1
      ensures View() == Next(old(View()), CountSend)
    {
      pendingWork := pendingWork + 1;
      producer := Ready;
    }

    method ReceiveCompletion() returns (completion: WorkCompletion)
      requires Enabled(View(), TakeCompletion)
      modifies this
      ensures [completion] + completions == old(completions) && pendingWork == old(pendingWork) - 1
      ensures View() == Next(old(View()), TakeCompletion)
    {
      completion := completions[0];
      completions := completions[1..];
      received := received + [completion];
      pendingWork := pendingWork - 1;
      var got := producer.got + 1;
      producer := if got < producer.target then Waiting(producer.target, got) else Ready;
    }

    method ReceiveWork(w: nat) returns (work: Work)
      requires Enabled(View(), Receive(w))
      modifies this
      ensures View() == Next(old(View()), Receive(w)) && phases[w] == Received(work)
    {
      work := queues[w][0];
      queues, phases := queues[w := queues[w][1..]], phases[w := Received(work)];
    }

    method Acquire(w: nat, work: Work) returns (ok: bool)
      requires Enabled(View(), AcquireLocks(w)) && phases[w] == Received(work)
      modifies this, globalLocks
      ensures View() == Next(old(View()), AcquireLocks(w))
      ensures phases[w] == if ok then Executing(work) else Reporting(work, false)
    {
      var r := globalLocks.AcquireLocks(work.accounts);
      ok := r.Ok?;
      phases := phases[w := if ok then Executing(work) else Reporting(work, false)];
    }

    method Release(w: nat, work: Work)
      requires Enabled(View(), ReleaseLocks(w)) && phases[w] == Executing(work)
      modifies this, globalLocks
      ensures View() == Next(old(View()), ReleaseLocks(w)) && phases[w] == Reporting(work, true)
    {
      globalLocks.ReleaseLocks(work.accounts);
      phases := phases[w := Reporting(work, true)];
    }

    method SendCompletion(w: nat, work: Work, success: bool)
      requires Enabled(View(), Report(w)) && phases[w] == Reporting(work, success)
      modifies this
      ensures View() == Next(old(View()), Report(w))
    {
      completions := completions + [WorkCompletion(w, work.unitId, success)];
      phases := phases[w := Idle];
    }

    /** One turn of a worker's loop, when no other task runs in between: the locks it took are given back. */
    method RunOnce(w: nat) returns (success: bool)
      requires Enabled(View(), Receive(w))
      modifies this, globalLocks
      ensures Reaches(old(View()), Turn(w, success), View())
      ensures success <==> !HasLocked(old(View()).locked, old(queues)[w][0].accounts)
      ensures globalLocks.locked == old(globalLocks.locked)
    {
      ghost var start := View();
      var work := ReceiveWork(w);
      ghost var received := View();
      success := Acquire(w, work);
      ghost var tried := View();
      if success {
        Release(w, work);
      }
      ghost var done := View();
      SendCompletion(w, work, success);
      StepReaches(done, Report(w), [], View());
      if success {
        StepReaches(tried, ReleaseLocks(w), [Report(w)], View());
      }
      StepReaches(received, AcquireLocks(w), AfterAcquire(w, success), View());
      StepReaches(start, Receive(w), [AcquireLocks(w)] + AfterAcquire(w, success), View());
    }
  }
}
