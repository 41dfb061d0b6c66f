/** The closed vocabularies of the runtime (runtime_contracts.py) and the status machines over them. */
module RuntimeContracts {
  import opened Common

  datatype EventType =
    | WorkflowStarted | WorkflowCompleted | WorkflowFailed | WorkflowRetrying | WorkflowWaitingApproval
    | TaskClaimed | TaskRunning | TaskVerifying | TaskCompleted | TaskFailed | TaskHeartbeat | TaskReclaimed
    | TaskGraphUpdated | TaskTodoUpdated
    | ApprovalRequested | ApprovalResolved | NotificationSent | ArtifactLinked
    | MemoryRecalled | MemoryWritten | RuntimeGraphInterrupted | RuntimeGraphCompleted | WorkerHealthReported

  datatype TaskStatus =
    | Queued | Claimed | Running | Verifying | WaitingApproval | Retrying
    | Completed | Failed | Reclaimed | Cancelled

  datatype WorkflowRunStatus =
    | Created | Queued | Running | WaitingApproval | Paused | Retrying | Completed | Failed | Cancelled

  datatype ClaimStatus = Active | Released | Expired | Reclaimed

  /** The wire value of an event type. */
  function EventTypeValue(t: EventType): string {
    match t
    case WorkflowStarted => "workflow.started"
    case WorkflowCompleted => "workflow.completed"
    case WorkflowFailed => "workflow.failed"
    case WorkflowRetrying => "workflow.retrying"
    case WorkflowWaitingApproval => "workflow.waiting_approval"
    case TaskClaimed => "task.claimed"
    case TaskRunning => "task.running"
    case TaskVerifying => "task.verifying"
    case TaskCompleted => "task.completed"
    case TaskFailed => "task.failed"
    case TaskHeartbeat => "task.heartbeat"
    case TaskReclaimed => "task.reclaimed"
    case TaskGraphUpdated => "task.graph.updated"
    case TaskTodoUpdated => "task.todo.updated"
    case ApprovalRequested => "approval.requested"
    case ApprovalResolved => "approval.resolved"
    case NotificationSent => "notification.sent"
    case ArtifactLinked => "artifact.linked"
    case MemoryRecalled => "memory.recalled"
    case MemoryWritten => "memory.written"
    case RuntimeGraphInterrupted => "runtime.graph.interrupted"
    case RuntimeGraphCompleted => "runtime.graph.completed"
    case WorkerHealthReported => "worker.health.reported"
  }

  /** `TaskStatus(value)`, with the ValueError case as None. */
  function ParseTaskStatus(value: string): Option<TaskStatus> {
    match value
    case "queued" => Some(TaskStatus.Queued)
    case "claimed" => Some(TaskStatus.Claimed)
    case "running" => Some(TaskStatus.Running)
    case "verifying" => Some(TaskStatus.Verifying)
    case "waiting_approval" => Some(TaskStatus.WaitingApproval)
    case "retrying" => Some(TaskStatus.Retrying)
    case "completed" => Some(TaskStatus.Completed)
    case "failed" => Some(TaskStatus.Failed)
    case "reclaimed" => Some(TaskStatus.Reclaimed)
    case "cancelled" => Some(TaskStatus.Cancelled)
    case _ => None
  }

  /** The wire value of a task status. */
  function StatusValue(s: TaskStatus): string {
    match s
    case Queued => "queued"
    case Claimed => "claimed"
    case Running => "running"
    case Verifying => "verifying"
    case WaitingApproval => "waiting_approval"
    case Retrying => "retrying"
    case Completed => "completed"
    case Failed => "failed"
    case Reclaimed => "reclaimed"
    case Cancelled => "cancelled"
  }

  /** A text parses to the status whose wire value it is, and no other text parses. */
  lemma ParsesExactly(value: string)
    ensures forall s: TaskStatus :: ParseTaskStatus(value) == Some(s) <==> value == StatusValue(s)
    ensures ParseTaskStatus(value).None? <==> forall s: TaskStatus :: value != StatusValue(s)
  {
    forall s: TaskStatus ensures ParseTaskStatus(StatusValue(s)) == Some(s) {}
  }

  /** The claim transition table. */
  function ClaimTransitions(from: ClaimStatus): set<ClaimStatus> {
    match from
    case Active => {ClaimStatus.Released, ClaimStatus.Expired, ClaimStatus.Reclaimed}
    case Expired => {ClaimStatus.Reclaimed}
    case Released => {}
    case Reclaimed => {}
  }

  /** The check `_transition` makes: staying put, or following the table. */
  predicate ClaimTransitionAllowed(from: ClaimStatus, target: ClaimStatus) {
    from == target || target in ClaimTransitions(from)
  }

  /** A claim moves only from active, to anything, and from expired to reclaimed. */
  lemma MovesExactly(from: ClaimStatus, target: ClaimStatus)
    ensures ClaimTransitionAllowed(from, target) <==>
            from == target || from.Active? || (from.Expired? && target.Reclaimed?)
  {
  }
}
