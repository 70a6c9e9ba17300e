# Blunder, verified

A Dafny model of Blunder's scheduling core: the conflict-graph scheduler, the bundle auction, the account
lock table, the async worker pool, the two first-fit schedulers and the protocol between engine and
external scheduler, the Bloom-prefiltered conflict test, and the fee-per-compute-unit score. Check it with
`dafny verify dfyconfig.toml`.

| file | models |
|---|---|
| `Core.dfy`, `Protocol.dfy` | accounts, transactions, bundles, assignments, u64 arithmetic; the wire messages |
| `Permutations.dfy`, `StableSort.dfy`, `DisjointUnion.dfy` | counting, stable descending sort, lock sets as disjoint unions |
| `PriorityGraph.dfy`, `WorkerPlacement.dfy`, `ListScheduling.dfy`, `PrioGraphScheduler.dfy` | the PrioGraph scheduler |
| `BlockEngine.dfy` | the bundle auction |
| `LockTable.dfy`, `LockGuard.dfy` | every run of lock guards; the lock table's classes |
| `WorkerPool.dfy`, `AsyncWorker.dfy` | every interleaving of the worker pool; its methods |
| `FirstFit.dfy`, `GreedyScheduler.dfy`, `RoundRobinScheduler.dfy` | the first-fit schedulers |
| `ExternalClient.dfy` | the external scheduler's client |
| `BloomFilter.dfy`, `Prioritizer.dfy` | the conflict prefilter; the score and the ranking |

How the source is read:

- A `HashSet` is a `set`, a `HashMap` or `DashMap` a `map`; loops over them visit the elements in any order.
- `BinaryHeap::pop` returns some entry of greatest priority (`Ord` ignores the index), so what is proved of
  the emission order holds for every tie-break. `sort_by_key` is a stable sort: there is exactly one list of
  the positions by (key descending, input position), and that is what it returns.
- Sums of u64 wrap, as in a release build, where the source does not saturate: a bundle's compute units, the
  worker load counters, the round-robin counter (`usize` taken as 64 bits). The counters that number bundles
  and requests are required not to have reached their maximum.
- An async task may be interrupted at each `await` that can yield; what happens between two such points, or
  under one lock, is one step. A timeout may fire at any time, and a `try_write` may fail at any time.
- The network is a bag of messages, each usable at any time, any number of times, or never.
- The Bloom hash is an arbitrary function of seed and account.

What the code does that a reader may not expect:

- With several workers and disjoint units, the first u64 load counter to wrap before the last unit is placed
  sends the next unit to the most loaded worker (`WrappedWorkerIsChosen`). Four bundles without transactions
  and with a tip of 18,446,744,073,710 do it on two workers: their priorities saturate, three share a worker,
  and the 4/3 bound fails (`OverflowBreaksLptBound`).
- When price times limit saturates, the score can fall behind the price by more than the two roundings
  explain; `ScoreErrorBound` says on which inputs it does not.
- A bundle without compute units that carries a tip scores 0 in the prioritizer, and its tip times a million
  in the graph scheduler (`ScoreIsNodePriority` says these are the only disagreements).
- A fallback drop of an async guard that fails to get its lock leaves those locks behind for good. The
  source's warning says the locks "may not be released immediately"; nothing releases them later
  (`AbandonedAccountStaysBlocked`).
- A request whose sending fails stays in the client's pending table until a response to it arrives
  (`LeftoverEntriesAreFailedSends`), and if it never left, forever (`LostRequestStaysPending`).
- A batch with a repeated unit id is answered by the server but refused by the client's validation
  (`AnswerIsValidWhenIdsAreDistinct`).

## Model

| member | source | states |
|---|---|---|
| `Core.TransactionAccountsAreListed` | core/src/transaction.rs:52-54 | a transaction's accounts are exactly the keys its entries name |
| `Core.BundleAccountsAreListed` | core/src/bundle.rs:34-39 | a bundle's accounts are exactly the keys that entries of any of its transactions name |
| `Core.TotalsAddUp` | core/src/bundle.rs:27-32 | compute units of joined bundles add up modulo 2^64, from one transaction's limit on |
| `Core.DecimalReadsBack` | scheduler/src/priograph.rs:49-49 | the decimal text of an id reads back as the id, so different bundles get different unit ids |
| `PriorityGraph.NodesAreTheBatch` | scheduler/src/priograph.rs:44-68 | node i carries the id, the kind and exactly the named accounts of submitted unit i, bundles first |
| `PriorityGraph.BundlePriorityIsTipPerUnit` | scheduler/src/priograph.rs:47-50 | a bundle's priority is its tip times a million, capped at u64, divided by its compute units (at least 1), rounded down |
| `PriorityGraph.TransactionPriorityIsFeePerUnit` | scheduler/src/priograph.rs:57-64 | a transaction's priority is its capped fee, rounded down to whole units and scaled back, divided by its limit (at least 1), rounded down |
| `PriorityGraph.ConflictIsASharedAccount` | scheduler/src/priograph.rs:75-75 | two nodes conflict if and only if the submitted units name a common account |
| `PriorityGraph.BuildPriorityGraph` | scheduler/src/priograph.rs:39-87 | the nodes are the bundles and then the transactions, and row u of the adjacency list holds, once each, exactly the nodes that conflict with u and that u outranks |
| `PriorityGraph.ConnectConflicts` | scheduler/src/priograph.rs:73-85 | the pair loop yields exactly the edges of the conflict relation, directed by priority and then index |
| `PriorityGraph.OneEdgePerConflict` | scheduler/src/priograph.rs:73-85 | a pair of nodes has an edge if and only if it conflicts, and never edges both ways |
| `PriorityGraph.CountInDegrees` | scheduler/src/priograph.rs:89-97 | the counting loop gives each node its number of predecessors |
| `PriorityGraph.Pop` | scheduler/src/priograph.rs:22-32 | popping the heap removes one entry, of greatest priority, with ties open |
| `PriorityGraph.ReleaseNeighbors` | scheduler/src/priograph.rs:115-123 | releasing a node's neighbours keeps every in-degree equal to the number of unemitted predecessors, never decrements a zero, and pushes exactly the nodes that became ready |
| `PriorityGraph.EmitNext` | scheduler/src/priograph.rs:112-124 | one turn of the main loop keeps the emitted prefix in order ahead of everything unemitted, and in-degrees, heap and push history consistent |
| `PriorityGraph.TopologicalSort` | scheduler/src/priograph.rs:89-126 | every index is emitted once, priorities never rise anywhere in the output, of two conflicting nodes the higher priority (then lower index) comes first, and every node enters the heap exactly once |
| `PriorityGraph.ReadyAbove` | scheduler/src/priograph.rs:102-109 | any unemitted node is matched or outranked by one that is ready, so the graph cannot block the heap |
| `PriorityGraph.HeapMaximumIsGlobal` | scheduler/src/priograph.rs:112-113 | the heap's maximum is a maximum over all unemitted nodes, not only the ready ones |
| `PriorityGraph.HeapRunsAreEmissionOrders` | scheduler/src/priograph.rs:112-126 | the orders that some tie-break of the heap can produce are exactly the complete, globally sorted, conflict-respecting ones |
| `WorkerPlacement.FirstLeast` | scheduler/src/priograph.rs:140-153 | the minimum search returns the first worker of smallest load |
| `WorkerPlacement.FreeWorkers` | scheduler/src/priograph.rs:136-138 | the filter returns exactly the workers that hold none of the accounts, in order |
| `WorkerPlacement.PlaceNext` | scheduler/src/priograph.rs:133-158 | one turn picks the first least-loaded worker among the free ones, or among all when none is free, and updates locks and wrapped load there alone |
| `WorkerPlacement.AssignWorkers` | scheduler/src/priograph.rs:128-165 | the assignments name the emitted units in order and their workers follow the placement rule at every position |
| `WorkerPlacement.GreedyPlacementIsUnique` | scheduler/src/priograph.rs:128-165 | the rule leaves exactly one placement for each emission order |
| `WorkerPlacement.SharingNeedsManyConflicts` | scheduler/src/priograph.rs:136-153 | a unit joins a worker that holds one of its accounts only if at least `worker_count` distinct earlier units conflict with it |
| `WorkerPlacement.ColouringIsProper` | scheduler/src/priograph.rs:136-153 | if every unit conflicts with fewer than `worker_count` others, no two conflicting units share a worker |
| `WorkerPlacement.DisjointIsLeastLoaded` | scheduler/src/priograph.rs:136-156 | on disjoint units the rule is the least-loaded rule if and only if the textbook placement keeps every load within u64 before the last unit, or there is one worker |
| `WorkerPlacement.WrappedWorkerIsChosen` | scheduler/src/priograph.rs:155-155 | when a counter first wraps before the last unit, the next unit joins the same worker, whose load is then above every other's |
| `WorkerPlacement.LightBatchSuffices` | scheduler/src/priograph.rs:155-155 | the counters suffice whenever total + (m−1)·largest ≤ m·(2^64−1) |
| `WorkerPlacement.DisjointBatchMeetsLptBound` | scheduler/src/priograph.rs:128-165 | when the counters suffice, on a disjoint batch in priority order, 3·m·L ≤ (4m−1)·L' against every other placement |
| `WorkerPlacement.DisjointBatchIsBalanced` | scheduler/src/priograph.rs:128-165 | when they suffice, in any order, two loads differ by at most the largest priority, and m times a load is at most the total plus (m−1) times the largest |
| `WorkerPlacement.CrowdedBatchIsBalanced` | scheduler/src/priograph.rs:145-152 | where every two units conflict and total + (m−1)·largest ≤ m·(2^64−1), the fallback makes the placement least-loaded, with the list bound and the balance bound |
| `ListScheduling.ListBound` | scheduler/src/priograph.rs:140-153 | Graham's list-scheduling bound for the least-loaded rule in any order |
| `ListScheduling.LoadsAreBalanced` | scheduler/src/priograph.rs:140-153 | any two loads differ by at most the largest item |
| `ListScheduling.LptBound` | scheduler/src/priograph.rs:111-165 | longest-processing-time-first is within 4/3 − 1/(3m) of every other placement |
| `ListScheduling.LightBatchFits` | scheduler/src/priograph.rs:140-155 | if total + (m−1)·largest ≤ m·cap, no worker of the textbook least-loaded placement exceeds the cap |
| `PrioGraphScheduler.Schedule` | scheduler/src/priograph.rs:169-183 | one assignment per submitted unit, in an emission order of the batch's conflict graph, placed by the rule |
| `PrioGraphScheduler.LoadUnderPermutation` | scheduler/src/priograph.rs:133-134 | reordering units together with their workers changes no load |
| `PrioGraphScheduler.ScheduleMeetsLptBound` | scheduler/src/priograph.rs:169-183 | when the counters suffice for the batch's priorities, highest first, scheduling a disjoint batch meets the bound against any placement of it as submitted |
| `PrioGraphScheduler.CrowdedScheduleMeetsLptBound` | scheduler/src/priograph.rs:145-152 | such a batch meets the 4/3 bound too, against any placement of it as submitted |
| `PrioGraphScheduler.ScheduleIsLeastLoaded` | scheduler/src/priograph.rs:169-183 | a disjoint batch is placed by the least-loaded rule if and only if the counters suffice |
| `PrioGraphScheduler.LightScheduleSuffices` | scheduler/src/priograph.rs:155-155 | a test on the submitted batch under which they do: total + (m−1)·largest ≤ m·(2^64−1) |
| `PrioGraphScheduler.EmittedPriorities` | scheduler/src/priograph.rs:111-126 | whatever the heap does with ties, the emitted priorities are the submitted ones in descending order |
| `PrioGraphScheduler.OverflowBreaksLptBound` | scheduler/src/priograph.rs:155-155 | a batch of four bundles that is scheduled beyond the bound, because a counter wraps |
| `PrioGraphScheduler.OverflowCanMeetLptBound` | scheduler/src/priograph.rs:155-155 | a batch on which a counter wraps, the placement is not least-loaded, and the bound holds all the same |
| `PrioGraphScheduler.ScheduleSeparatesConflicts` | scheduler/src/priograph.rs:169-183 | if every submitted unit is outranked by fewer than `worker_count` of the units it conflicts with, conflicting units get different workers |
| `PrioGraphScheduler.SubmittedUnitsAreScheduled` | scheduler/src/priograph.rs:169-183 | each submitted unit gets one assignment under its own id and kind, and of two that name a common account the outranking one comes first |
| `PrioGraphScheduler.SharingUnitsAreSeparated` | scheduler/src/priograph.rs:169-183 | submitted units that name a common account get different workers, if each is outranked by fewer than `worker_count` units naming one of its accounts |
| `Prioritizer.SecondMultiplicationIsExact` | engine/src/prioritizer.rs:20-21 | for a transaction the second `saturating_mul` never saturates and restores at most the first product |
| `Prioritizer.ScoreIsAtMostPrice` | engine/src/prioritizer.rs:15-23 | the score never exceeds the price |
| `Prioritizer.ScoreIsMonotone` | engine/src/prioritizer.rs:15-23 | at one compute-unit limit, a higher price never scores lower |
| `Prioritizer.ScoreErrorBound` | engine/src/prioritizer.rs:15-23 | c·(p−s) < 1,000,000 + c if and only if p·c fits u64 or, with F the saturated fee of 18,446,744,073,709,000,000, p·c + F mod c < F + 1,000,000 + c |
| `Prioritizer.ScoreIsNodePriority` | scheduler/src/priograph.rs:46-68 | score and graph priority agree if and only if the unit is not a zero-CU bundle with a tip; zero-CU units score 0 |
| `Prioritizer.Prioritize` | engine/src/prioritizer.rs:25-39 | the units by descending score, equal scores in arrival order, bundles before transactions |
| `Prioritizer.RankingIsAnEmissionOrder` | engine/src/prioritizer.rs:25-39 | without zero-CU bundles with a tip, that ranking is an order in which the graph scheduler may emit the batch |
| `StableSort.RankOrderIsUnique` | engine/src/block_engine.rs:43-43 | a stable descending sort has only one possible result |
| `BlockEngine.SelectWinners` | engine/src/block_engine.rs:42-56 | on the submissions' own fields: no two winners name a common account, every loser names one of a winner with a higher score or the same score and an earlier place, and the winners' bundles are returned in that order |
| `BlockEngine.SubmissionsHaveOneOutcome` | engine/src/block_engine.rs:42-56 | those conditions on the submissions single out one set of winners |
| `BlockEngine.WinnersAreWithinFactor` | engine/src/block_engine.rs:42-56 | if each submitted bundle names at most k ≥ 1 accounts, no choice of submissions without a common account has a total submitted score above k times the winners' |
| `BlockEngine.WinnersKeepWinning` | engine/src/block_engine.rs:42-56 | raising a winner's submitted score leaves it winning, and a bundle that names no account always wins |
| `BlockEngine.WinnersAreTheOutcome` | engine/src/block_engine.rs:42-56 | the winners are the one set that is pairwise account-disjoint and in which every loser shares an account with a winner ranked above it |
| `BlockEngine.OutcomeIsUnique` | engine/src/block_engine.rs:42-56 | no two different sets satisfy those conditions |
| `BlockEngine.WinnersFormAnOutcome` | engine/src/block_engine.rs:48-53 | the greedy loop's selection satisfies them |
| `BlockEngine.BlockedMeansLocked` | engine/src/block_engine.rs:36-38 | testing a bundle against the accumulated accounts is testing it against every winner so far |
| `BlockEngine.WinningBundlesListTheWinners` | engine/src/block_engine.rs:42-56 | the winner list is the winning set in rank order |
| `BlockEngine.RaisingAWinningBidStillWins` | engine/src/block_engine.rs:42-56 | raising the score of a winner, all else unchanged, leaves it winning, ties included |
| `BlockEngine.SubmissionOrderIsIrrelevant` | engine/src/block_engine.rs:42-56 | with distinct scores any permutation of the submissions gives the same winner list |
| `BlockEngine.AuctionIsWithinFactor` | engine/src/block_engine.rs:42-56 | if every bundle touches at most k ≥ 1 accounts, no disjoint choice of submissions scores more than k times the winners |
| `BlockEngine.AccountFreeBundlesWin` | engine/src/block_engine.rs:36-38 | a bundle without accounts always wins |
| `BlockEngine.Engine.SubmitBundle` | engine/src/block_engine.rs:19-30 | an id not in use is given out, the bundle stored under it with that id, and nothing else changes |
| `BlockEngine.Engine.ClearSubmission` | engine/src/block_engine.rs:32-34 | the submissions are emptied and the id counter kept |
| `LockTable.ConflictMeansHolder` | core/src/lock_guard.rs:33-56 | the conflict test is true if and only if some guard still holds one of the accounts in a clashing mode |
| `LockTable.HolderIsInTable` | core/src/lock_guard.rs:144-163 | what a guard holds is in the table with a positive count, so no decrement underflows |
| `LockTable.StepKeepsInv` | core/src/lock_guard.rs:221-332 | every acquisition, release and half of a fallback drop keeps the table equal to what guards hold |
| `LockTable.RunFromStartKeepsInv` | core/src/lock_guard.rs:221-332 | so does every run |
| `LockTable.HoldingsFollowEvents` | core/src/lock_guard.rs:302-332 | in every run a guard is live until it is released or dropped, and holds its write set if and only if it was not released and its drop did not get the write lock, and its read set likewise |
| `LockTable.AcquireIsExact` | core/src/lock_guard.rs:86-121 | a request is granted if and only if no guard holds one of its accounts in a clashing mode, and a refusal changes nothing |
| `LockTable.TableIsLiveGuardsPlusLeftovers` | core/src/lock_guard.rs:302-332 | in every run live guards' locks are in the table, no account one writes is held by another, reader counts are live readers plus left readers and never 0, and the excess is exactly what unfinished or failed fallback drops left |
| `LockTable.ReleasingRunsAreExact` | core/src/lock_guard.rs:143-163 | when guards always release, the table is exactly the live guards', and empty once none is live, in any order of drops |
| `LockTable.EmptyExactlyWhenNothingHeld` | core/src/lock_guard.rs:143-163 | the table is empty if and only if no guard holds an account |
| `LockTable.LeftoversBlockForever` | core/src/lock_guard.rs:302-332 | locks a failed fallback drop leaves behind block every clashing request for the rest of the run |
| `LockTable.DropCanLeaveALock` | core/src/lock_guard.rs:302-332 | a run from the empty table in which one guard takes a write lock and its drop leaves it behind |
| `LockTable.AbandonedAccountStaysBlocked` | core/src/lock_guard.rs:302-332 | for every account there is a run after which no guard is live and no continuation can ever lock it again |
| `LockGuard.AccountLocks.WouldConflict` | core/src/lock_guard.rs:33-56 | the scanning loops decide the clash of sets |
| `LockGuard.AccountLocks.TryAcquire` | core/src/lock_guard.rs:91-115 | all locks are taken exactly when nothing conflicts, otherwise nothing changes |
| `LockGuard.AccountLockGuard.Acquire` | core/src/lock_guard.rs:86-121 | a guard is returned exactly when nothing conflicts, and holds what was asked |
| `LockGuard.AccountLockGuard.AcquireAllAsWrite` | core/src/lock_guard.rs:125-130 | succeeds exactly when none of the accounts is locked in any mode |
| `LockGuard.AccountLockGuard.Drop` | core/src/lock_guard.rs:144-163 | dropping performs the release step, removing counts that reach 0 |
| `LockGuard.AsyncAccountLockGuard.Acquire` | core/src/lock_guard.rs:221-259 | as for the synchronous guard, with the released flag clear |
| `LockGuard.AsyncAccountLockGuard.Release` | core/src/lock_guard.rs:271-289 | the release step, and the flag is set |
| `LockGuard.AsyncAccountLockGuard.DropWrites` | core/src/lock_guard.rs:303-319 | releases the write set if unreleased and the lock was got, otherwise changes nothing |
| `LockGuard.AsyncAccountLockGuard.DropReads` | core/src/lock_guard.rs:303-331 | the same for the reader counts |
| `WorkerPool.WorkIsTheItem` | engine/src/async_worker.rs:50-72 | a worker uses an item's own id and exactly the accounts it names |
| `WorkerPool.SentFollowsSteps` | engine/src/async_worker.rs:172-186 | in every run each worker has been sent exactly the items of the send calls to it, in order |
| `WorkerPool.TakingReceives` | engine/src/async_worker.rs:198-203 | the completions received are one for each taking step, added at the end |
| `WorkerPool.LocksStep` | engine/src/async_worker.rs:98-114 | each step keeps the lock set the disjoint union of executing units' accounts |
| `WorkerPool.LocksAreTheRunningUnits` | engine/src/async_worker.rs:45-136 | in every interleaving the lock set is that union, and pending work equals queued, in hand and unreceived units |
| `WorkerPool.FailureIsARealConflict` | engine/src/async_worker.rs:98-107 | a unit fails if and only if another worker is executing one that shares an account |
| `WorkerPool.ConservedStep` | engine/src/async_worker.rs:45-96 | each step keeps: what was sent to a worker is what it completed, then what it has in hand, then its queue |
| `WorkerPool.CountedStep` | engine/src/async_worker.rs:172-209 | each step keeps `pending_work` exact, counting a unit sent but not yet counted |
| `WorkerPool.EverythingComesBack` | engine/src/async_worker.rs:172-209 | when nothing is pending between calls, each unit sent was received back exactly once, in order per worker, no worker is busy and no lock is held |
| `WorkerPool.EveryItemComesBack` | engine/src/async_worker.rs:172-209 | on the steps: when nothing is pending between calls, each item sent to a worker has come back once, in the order sent |
| `WorkerPool.WaitReturnsWhenDrained` | engine/src/async_worker.rs:189-209 | a wait returns on a completion if and only if that leaves nothing pending |
| `WorkerPool.WaitReceivesWhatWasPending` | engine/src/async_worker.rs:189-209 | a wait begun with p units pending returns if and only if it has received p completions |
| `WorkerPool.WaitNeverDeadlocks` | engine/src/async_worker.rs:189-209 | while the producer waits, some worker or the producer can always move |
| `WorkerPool.WaitingStepsRunOut` | engine/src/async_worker.rs:189-209 | every step taken during a wait lowers the number of steps that remain |
| `WorkerPool.WaitIsBounded` | engine/src/async_worker.rs:189-209 | in every interleaving a wait is over after at most that number of steps |
| `WorkerPool.DisjointBatchSucceeds` | engine/src/async_worker.rs:98-136 | from a quiescent pool, if units on different workers share no account, no unit fails in any interleaving of sending and working |
| `WorkerPool.ApartItemsSucceed` | engine/src/async_worker.rs:98-136 | the same on the items as sent: if no two sent to different workers name a common account, none fails |
| `WorkerPool.BatchSucceedsExactlyWhenDisjoint` | engine/src/async_worker.rs:98-136 | a batch that is sent and not yet started succeeds in every interleaving if and only if units on different workers share no account |
| `WorkerPool.QueuedUnitsCanClash` | engine/src/async_worker.rs:98-136 | for any two units queued at different idle workers that share an account, an interleaving in which the second fails |
| `WorkerPool.SomeUnitSucceeds` | engine/src/async_worker.rs:98-136 | from a quiescent pool any non-empty batch has at least one success |
| `WorkerPool.SomeItemSucceeds` | engine/src/async_worker.rs:98-136 | on the steps: once everything is received, if something was sent, some unit succeeded |
| `WorkerPool.LockSet.AcquireLocks` | engine/src/async_worker.rs:98-107 | all of the accounts are locked or none, and none exactly when one was already locked |
| `WorkerPool.LockSet.ReleaseLocks` | engine/src/async_worker.rs:109-114 | exactly the given accounts are unlocked |
| `AsyncWorkers.AsyncWorkerPool.Enqueue` | engine/src/async_worker.rs:172-180 | the unit is put last on that worker's queue, which is the send step; an unknown worker id is refused and changes nothing |
| `AsyncWorkers.AsyncWorkerPool.CountPending` | engine/src/async_worker.rs:182-184 | the counting step |
| `AsyncWorkers.AsyncWorkerPool.ReceiveCompletion` | engine/src/async_worker.rs:198-204 | one turn of the wait loop is the take-completion step |
| `AsyncWorkers.AsyncWorkerPool.RunOnce` | engine/src/async_worker.rs:45-136 | a worker's turn is the run receive, acquire, release if acquired, report; it succeeds exactly when no account was locked, and undisturbed it leaves the lock set as it was |
| `FirstFit.UnitsAreTheBatch` | scheduler/src/greedy.rs:60-92 | unit i of a batch, bundles first, has the id, the kind and exactly the named accounts of what was submitted |
| `FirstFit.LocksAreWhatWasGiven` | scheduler-external/src/round_robin.rs:48-56 | found free or fallen back upon, a worker is locked on its starting locks and the accounts of every unit given to it, and on nothing else |
| `FirstFit.SchedulersAgreeUntilFirstDrop` | scheduler-external/src/round_robin.rs:46-53 | from the same locks the two schedulers choose alike until greedy's first drop, which is round robin's first fallback and goes to the worker the counter named |
| `FirstFit.SchedulersAgreeWithoutDrops` | scheduler-external/src/round_robin.rs:41-64 | if greedy drops nothing the outputs are equal and the counter does not move |
| `FirstFit.FallbacksTakeTurns` | scheduler-external/src/round_robin.rs:50-53 | the counter advances once per fallback and not otherwise, and the fallbacks take the workers in turn from where it stood |
| `FirstFit.GreedyCallsCompose` | scheduler/src/greedy.rs:96-118 | consecutive calls without release act as one call on the concatenated batch |
| `GreedyScheduling.GreedyScheduler.FindAvailableWorker` | scheduler/src/greedy.rs:47-58 | the search returns the lowest-numbered worker that holds none of the accounts, if any |
| `GreedyScheduling.GreedyScheduler.ScheduleBundle` | scheduler/src/greedy.rs:60-75 | a bundle takes the first free worker and locks its accounts there, or fails and changes nothing |
| `GreedyScheduling.GreedyScheduler.ScheduleTransaction` | scheduler/src/greedy.rs:77-92 | the same for a transaction |
| `GreedyScheduling.GreedyScheduler.Schedule` | scheduler/src/greedy.rs:96-118 | the assignments and locks of placing bundles and then transactions by first fit, dropping blocked units |
| `GreedyScheduling.GreedyScheduler.ReleaseAccounts` | scheduler/src/greedy.rs:37-44 | exactly the given accounts leave that worker's set; an unknown worker id changes nothing |
| `GreedyScheduling.GreedyScheduler.Reset` | scheduler/src/greedy.rs:30-35 | every lock set is emptied and the number of workers kept |
| `GreedyScheduling.StepKeepsInv` | scheduler/src/greedy.rs:29-92 | placing, releasing a placed unit and resetting each keep every lock set the disjoint union of live units' accounts |
| `GreedyScheduling.UnitsLiveUntilReleased` | scheduler/src/greedy.rs:30-44 | in every run a placed unit is live if and only if it was not released and nothing was reset since |
| `GreedyScheduling.RunPlacesFirstFit` | scheduler/src/greedy.rs:47-92 | in every run a unit is dropped if and only if every worker has a live unit sharing an account, and otherwise joins a worker with none, each lower-numbered one having one |
| `GreedyScheduling.AccountCapacity` | scheduler/src/greedy.rs:47-92 | in every run no account is in more live units than there are workers |
| `GreedyScheduling.UnreleasedUnitsStack` | scheduler/src/greedy.rs:47-92 | in every run without releases, each placed unit shares an account with a placed unit on every lower-numbered worker |
| `GreedyScheduling.ScheduleCallIsARun` | scheduler/src/greedy.rs:96-118 | a call to `schedule` is a run of placements: it leaves that run's locks and returns the assignments of the units the run placed, in order |
| `RoundRobinScheduling.RoundRobinScheduler.Schedule` | scheduler-external/src/round_robin.rs:29-65 | the answer and the counter of first fit with round-robin fallback; no answer and no change for zero workers |
| `RoundRobinScheduling.AnswerIsFirstFitInTurn` | scheduler-external/src/round_robin.rs:41-64 | read from the items and the answer alone: item k goes, under its own id and kind, to the lowest worker given no earlier item that names one of its accounts, and if there is none to worker (counter + earlier such items) mod m |
| `RoundRobinScheduling.CounterCountsFallbacks` | scheduler-external/src/round_robin.rs:34-53 | the counter moves on by one for each such item and no other; with no workers there is no answer and it stays |
| `RoundRobinScheduling.RoundRobinScheduler.ChooseWorker` | scheduler-external/src/round_robin.rs:48-53 | the search and its fallback are one step of that rule |
| `RoundRobinScheduling.ExternalMatchesGreedy` | scheduler-external/src/round_robin.rs:29-65 | on the wire form of a batch, the answer is a freshly reset greedy scheduler's when that drops nothing |
| `RoundRobinScheduling.ExternalPartsAtFirstDrop` | scheduler-external/src/round_robin.rs:29-65 | otherwise the answers agree up to the first dropped unit, which the counter places |
| `ExternalClient.ValidateAssignments` | core/src/external_scheduler/client.rs:196-227 | accepts exactly the answers with distinct known unit ids and worker ids below the count, and otherwise reports the first fault in order |
| `ExternalClient.ValidMeansNoFault` | core/src/external_scheduler/client.rs:204-224 | an answer is valid if and only if no position has a fault |
| `ExternalClient.FaultsAreInOrder` | core/src/external_scheduler/client.rs:204-224 | a repeated unit id is a duplicate, an id no item has is unknown, and only then does the worker id count |
| `ExternalClient.AnswerIsValidWhenIdsAreDistinct` | core/src/external_scheduler/client.rs:196-227 | the server's answer passes validation if and only if it is empty for want of workers or the item ids are distinct |
| `ExternalClient.StepKeepsInv` | core/src/external_scheduler/client.rs:108-166 | every step of calls, server, network and receive loop keeps ids unique, the pending table exact, and every answer one the server issued to that request |
| `ExternalClient.IdsAreUniqueAndAnsweredOnce` | core/src/external_scheduler/client.rs:113-132 | in every run request ids never repeat and a call's response channel receives at most one answer |
| `ExternalClient.ResultIsOwnAnswer` | core/src/external_scheduler/client.rs:154-166 | every Ok result is a response the server issued under that call's id, its answer to that call's own items and worker count, and valid; an invalid-assignment error happens only to a call whose item ids repeat |
| `ExternalClient.TakingAnswerSucceedsWhenIdsAreDistinct` | core/src/external_scheduler/client.rs:154-158 | taking an answer yields Ok if and only if no workers were asked for or the item ids are distinct |
| `ExternalClient.UnansweredCallCanReturn` | core/src/external_scheduler/client.rs:125-166 | from every reachable state, an unanswered call that has not failed or timed out has a continuation that returns Ok with what the server would answer now, unless its item ids repeat |
| `ExternalClient.WaitingCallCanTimeOut` | core/src/external_scheduler/client.rs:159-162 | a waiting call can always time out, which withdraws its entry |
| `ExternalClient.CallsFollowSteps` | core/src/external_scheduler/client.rs:108-166 | in every run where a call stands, and how it ended, is told exactly by its own steps in order |
| `ExternalClient.RequestsFollowSteps` | core/src/external_scheduler/client.rs:134-152 | a call's request is out on the network if and only if it was sent, or went out although sending failed |
| `ExternalClient.ServerCountsOn` | scheduler-external/src/main.rs:75-104 | the server's counter runs on over everything it serves |
| `ExternalClient.UnmatchedMessageChangesNothing` | core/src/external_scheduler/client.rs:256-270 | handling a message changes something if and only if it is a response to a registered request |
| `ExternalClient.LateResponsesChangeNothing` | core/src/external_scheduler/client.rs:159-166 | in every continuation a response under a returned call's id changes nothing, if and only if its sending had not failed or it was answered before |
| `ExternalClient.ReturnedCallIsFinal` | core/src/external_scheduler/client.rs:154-166 | a returned call keeps its result and id in every continuation, and is registered there if and only if its sending failed and no response has come |
| `ExternalClient.LeftoverEntriesAreFailedSends` | core/src/external_scheduler/client.rs:128-163 | in every run a call's id is in the pending table if and only if it is unanswered and registered, waiting, timed out or failed in sending |
| `ExternalClient.FailedSendLeavesItsEntry` | core/src/external_scheduler/client.rs:128-152 | for any request, a run in which sending fails and its entry stays |
| `ExternalClient.LateAnswerWithdrawsFailedSend` | core/src/external_scheduler/client.rs:128-152 | for any request, a run in which sending fails although the request goes out, and the late response removes the entry without changing the result |
| `ExternalClient.LostRequestStaysPending` | core/src/external_scheduler/client.rs:128-152 | when the failed request never left, its entry stays in every continuation |
| `ExternalClient.StepsActOnTables` | core/src/external_scheduler/client.rs:108-166 | each protocol step acts on the client's counter and table as the method below of that purpose, and no other step touches them |
| `ExternalClient.ExternalSchedulerClient.NextRequestId` | core/src/external_scheduler/client.rs:113-117 | the counter is incremented, its new value taken, and the table left alone |
| `ExternalClient.ExternalSchedulerClient.Register` | core/src/external_scheduler/client.rs:128-132 | the request is entered under its id and nothing else changes |
| `ExternalClient.ExternalSchedulerClient.HandleMessage` | core/src/external_scheduler/client.rs:256-270 | a response wakes the registered call with its assignments and removes its entry; anything else changes nothing |
| `ExternalClient.ExternalSchedulerClient.ForgetRequest` | core/src/external_scheduler/client.rs:160-160 | a timeout withdraws its own entry and nothing else |
| `BloomFilters.ComputeBloomFilter` | core/src/external_scheduler/messages.rs:198-219 | the filter has exactly the bits on which the accounts' three hashes land |
| `BloomFilters.ThreeHashesPerAccount` | core/src/external_scheduler/messages.rs:204-216 | a bit is set if and only if the hash of some account with seed 0, 1 or 2 lands on it |
| `BloomFilters.LandingBits` | core/src/external_scheduler/messages.rs:211-212 | a hash lands on the word of its bits 0 to 3 and the bit of its bits 32 to 37 |
| `BloomFilters.BitIsAPosition` | core/src/external_scheduler/messages.rs:214-214 | bit b of a word is the one a shift by b brings to the bottom |
| `BloomFilters.FilterDependsOnSetOnly` | core/src/external_scheduler/messages.rs:198-219 | two filters of the same set of accounts are equal word for word, whatever order or repetition the lists had |
| `BloomFilters.BloomsMightConflict` | core/src/external_scheduler/messages.rs:221-228 | the scan finds whether some word pair has a common bit |
| `BloomFilters.MightConflictMeansCollision` | core/src/external_scheduler/messages.rs:221-228 | the prefilter answers yes if and only if an account of each side lands on the same bit, so these are all its false positives |
| `BloomFilters.CommonAccountIsNoticed` | core/src/external_scheduler/messages.rs:221-228 | two sets with a common account never pass for conflict-free |
| `BloomFilters.HybridIsExact` | core/src/external_scheduler/messages.rs:270-282 | with filters over all accounts, the prefiltered test is true if and only if the sets share an account |
| `BloomFilters.HybridRwIsExact` | core/src/external_scheduler/messages.rs:241-266 | the read-write test is true if and only if there is a write-write or write-read overlap |
| `BloomFilters.UncoveredConflictIsMissed` | core/src/external_scheduler/messages.rs:270-282 | a filter that leaves out accounts can hide a real conflict |

## Left out

- QUIC, TLS, certificates, stream I/O and bincode: the network is a bag of messages, and a send or serialization may fail.
- `engine/src/worker.rs`: a synchronous worker that locks, executes and unlocks one unit at a time, as the async one does.
- `scheduler/src/adaptive.rs` and `scheduler/src/load_monitor.rs`: they hand a batch of more than 2000 units to the greedy scheduler and any other to PrioGraph.
- The pipelines and demo drivers, which pass batches between the parts modelled here, and `id_generator.rs`, which packs a kind and a counter into an id.
- Fields no modelled decision reads: instructions, blockhash, sequence, searcher id, the atomic flag; and the texts of errors.
- Shutdown of the worker pool with items queued, closed channels, several producers, and several waiters on one pool.
- Wrap-around of the request and bundle id counters, excluded by precondition.
- A `release` future cancelled while it waits for the second lock, and a `schedule` future dropped by its caller.
- `report_completion` and the heartbeat messages: the first sends and ignores errors, and no modelled code sends the others.
- Sorting, hashing, heap and hash-set internals, which are specified by what they promise.
- DisjointBatchMeetsLptBound: goes one way. Whether the placement is least-loaded is characterised exactly (`DisjointIsLeastLoaded`), but a placement that is not may break the bound (`OverflowBreaksLptBound`) or meet it (`OverflowCanMeetLptBound`).
- DisjointBatchIsBalanced: goes one way, likewise.
- ScheduleMeetsLptBound: goes one way, likewise.
- CrowdedBatchIsBalanced: asks for a total that surely fits the counters; on heavier batches a counter may wrap as it does on disjoint ones.
- CrowdedScheduleMeetsLptBound: likewise.
- RunOnce: is one worker's turn without interference; what interleaving can do to it is covered by the runs of `WorkerPool`, whose atomic steps the other methods of that class perform.
- A second class for `AsyncAccountLocks`: its methods differ from those of `AccountLocks` only in awaiting their locks, so one class stands for both.
