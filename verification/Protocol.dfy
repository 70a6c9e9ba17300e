/** Messages between the engine and an external scheduler. */
module Protocol {
  import opened Core
  import opened FirstFit

  datatype ExecutionUnitData =
    | TransactionData(id: string, priority: u64, accounts: seq<Pubkey>)
    | BundleData(id: string, tip: u64, accounts: seq<Pubkey>, numTransactions: nat)

  function UnitOf(item: ExecutionUnitData): WorkUnit {
    WorkUnit(item.id, ElementsOf(item.accounts), item.BundleData?)
  }

  function UnitsOfItems(items: seq<ExecutionUnitData>): (units: seq<WorkUnit>)
    ensures |units| == |items|
  {
    seq(|items|, i requires 0 <= i < |items| => UnitOf(items[i]))
  }

  datatype EngineMessage =
    | ScheduleRequest(requestId: nat, items: seq<ExecutionUnitData>, workerCount: nat)
    | WorkerCompleted(workerId: nat, itemId: string, success: bool, computeUnits: u64)
    | Heartbeat(timestampUs: u64)

  datatype SchedulerMessage =
    | ScheduleResponse(requestId: nat, assignments: seq<WorkerAssignment>)
    | HeartbeatAck(timestampUs: u64)
    | SchedulerReady
}
