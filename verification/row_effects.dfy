/** What sessions leave in the rows, field by field: statuses, times and texts. */
module RowEffects {
  import opened Common
  import opened RuntimeContracts
  import opened Events
  import opened EventStore
  import opened AttemptHistories
  import opened Leases
  import opened RuntimePersistence

  // ----- what closing a run leaves -----

  /** A task or an attempt that nothing is expected of any more. */
  predicate IsDone(s: TaskStatus) {
    s.Completed? || s.Failed? || s.Reclaimed? || s.Cancelled?
  }

  /** A row in flight ends failed in a failed run, and cancelled in a completed or cancelled one. */
  predicate EndsWith(after: TaskStatus, run: WorkflowRunStatus) {
    match run
    case Failed => after == TaskStatus.Failed
    case Completed => after == TaskStatus.Cancelled
    case Cancelled => after == TaskStatus.Cancelled
    case _ => false
  }

  /** How the reason names the run's status. */
  function RunWord(run: WorkflowRunStatus): string {
    match run
    case Failed => "failed"
    case Completed => "completed"
    case Cancelled => "cancelled"
    case _ => ""
  }

  /** The reason a task is given that has none. */
  function ReasonFor(run: WorkflowRunStatus): string {
    "workflow " + RunWord(run) + " before task reached terminal state"
  }

  /** A value that was there stays. */
  predicate KeepsOr<T(==)>(before: Option<T>, after: Option<T>, default: T) {
    after == if before.Some? then before else Some(default)
  }

  predicate TaskClosed(before: Task, after: Task, run: WorkflowRunStatus, at: int) {
    if IsDone(before.status) then after == before
    else
      && EndsWith(after.status, run) && KeepsOr(before.completedAt, after.completedAt, at)
      && KeepsOr(before.blockedReason, after.blockedReason, ReasonFor(run))
      && after.runId == before.runId && after.title == before.title && after.executorSummary == before.executorSummary
  }

  predicate AttemptClosed(before: Attempt, after: Attempt, run: WorkflowRunStatus, at: int) {
    if IsDone(before.status) then after == before
    else
      && EndsWith(after.status, run) && KeepsOr(before.endedAt, after.endedAt, at) && after.closedBy == Some(run)
      && after.taskId == before.taskId && after.runId == before.runId && after.startedAt == before.startedAt
  }

  predicate ClaimClosed(before: Claim, after: Claim, at: int) {
    if !before.status.Active? then after == before
    else
      && after.status.Reclaimed? && KeepsOr(before.reclaimedAt, after.reclaimedAt, at)
      && KeepsOr(before.expiredAt, after.expiredAt, at) && SameLease(before, after)
      && after.heartbeatAt == before.heartbeatAt && after.releasedAt == before.releasedAt
  }

  /** The runs that are closed, and how: with which status and at which time. */
  type Closes = map<string, (WorkflowRunStatus, int)>

  ghost predicate TasksClosed(before: map<string, Task>, after: map<string, Task>, closes: Closes) {
    && before.Keys == after.Keys
    && forall id :: id in before ==>
         var r := before[id].runId;
         if r in closes then TaskClosed(before[id], after[id], closes[r].0, closes[r].1) else after[id] == before[id]
  }

  ghost predicate AttemptsClosed(before: map<string, Attempt>, after: map<string, Attempt>, closes: Closes) {
    && before.Keys == after.Keys
    && forall id :: id in before ==>
         var r := before[id].runId;
         if r in closes then AttemptClosed(before[id], after[id], closes[r].0, closes[r].1) else after[id] == before[id]
  }

  ghost predicate ClaimsClosed(before: map<string, Claim>, after: map<string, Claim>, closes: Closes) {
    && before.Keys == after.Keys
    && forall id :: id in before ==>
         var r := before[id].runId;
         if r in closes then ClaimClosed(before[id], after[id], closes[r].1) else after[id] == before[id]
  }

  /** Every row of a closed run is closed, and every other row stays. */
  ghost predicate RowsClosed(before: Db, after: Db, closes: Closes) {
    && TasksClosed(before.tasks, after.tasks, closes) && AttemptsClosed(before.attempts, after.attempts, closes)
    && ClaimsClosed(before.claims, after.claims, closes)
  }

  ghost predicate SameClosings(closings: map<string, Closing>, closes: Closes) {
    && closings.Keys == closes.Keys
    && forall r :: r in closes ==> TerminalRun(closes[r].0) && closings[r] == Closing(closes[r].0, closes[r].1)
  }

  lemma CloseTaskCloses(t: Task, c: Closing)
    requires TerminalRun(c.status)
    ensures TaskClosed(t, ClosedTask(t, map[t.runId := c]), c.status, c.at)
  {
    assert RunStatusValue(c.status) == RunWord(c.status);
  }

  lemma CloseAttemptCloses(a: Attempt, c: Closing)
    requires TerminalRun(c.status)
    ensures AttemptClosed(a, ClosedAttempt(a, map[a.runId := c]), c.status, c.at)
  {
  }

  lemma TasksClose(tasks: map<string, Task>, closings: map<string, Closing>, closes: Closes)
    requires SameClosings(closings, closes)
    ensures TasksClosed(tasks, CloseTasks(tasks, closings), closes)
  {
    forall id | id in tasks && tasks[id].runId in closings {
      CloseTaskCloses(tasks[id], closings[tasks[id].runId]);
    }
  }

  lemma AttemptsClose(attempts: map<string, Attempt>, closings: map<string, Closing>, closes: Closes)
    requires SameClosings(closings, closes)
    ensures AttemptsClosed(attempts, CloseAttempts(attempts, closings), closes)
  {
    forall id | id in attempts && attempts[id].runId in closings {
      CloseAttemptCloses(attempts[id], closings[attempts[id].runId]);
    }
  }

  lemma ClosingsClose(db: Db, closings: map<string, Closing>, closes: Closes)
    requires SameClosings(closings, closes)
    ensures RowsClosed(db, CloseRuns(db, closings), closes)
  {
    TasksClose(db.tasks, closings, closes);
    AttemptsClose(db.attempts, closings, closes);
  }

  // ----- transitions and reconciliation -----

  predicate EndsWorkflow(s: WorkflowRunStatus) {
    s.Completed? || s.Failed? || s.Cancelled?
  }

  /** A workflow status written from outside: the run's row has it, with the time it started running first or the time
      it ended; when it ends the run, the run's rows are closed with it, and no other row changes. */
  lemma TransitionWrites(db: Db, runId: string, target: WorkflowRunStatus, now: int)
    requires runId in db.runs
    ensures var before, after := db.runs[runId], Transitioned(db, runId, target, now);
            && after.runs.Keys == db.runs.Keys && after.log == db.log
            && (forall r :: r in db.runs && r != runId ==> after.runs[r] == db.runs[r])
            && after.runs[runId].status == target && after.runs[runId].name == before.name
            && after.runs[runId].startedAt ==
                 (if target.Running? && before.startedAt.None? then Some(now) else before.startedAt)
            && after.runs[runId].completedAt == (if EndsWorkflow(target) then Some(now) else before.completedAt)
            && RowsClosed(db, after, if EndsWorkflow(target) then map[runId := (target, now)] else map[])
  {
    if EndsWorkflow(target) {
      var after := Transitioned(db, runId, target, now);
      ClosingsClose(db.(runs := after.runs), map[runId := Closing(target, now)], map[runId := (target, now)]);
    }
  }

  /** The runs a reconciliation closes: those asked for (all, when none are named) that are over, each with its own
      status, at the time it ended, or now if it has none. */
  function Reconciled(runs: map<string, Run>, ids: seq<string>, now: int): Closes {
    map r | r in runs && EndsWorkflow(runs[r].status) && (ids == [] || r in ids) ::
      (runs[r].status, if runs[r].completedAt.Some? then runs[r].completedAt.value else now)
  }

  lemma ReconciliationCloses(db: Db, ids: seq<string>, now: int)
    ensures RowsClosed(db, Commit(db, Reconciling(ids, now)), Reconciled(db.runs, ids, now))
    ensures Commit(db, Reconciling(ids, now)).runs == db.runs && Commit(db, Reconciling(ids, now)).log == db.log
  {
    ClosingsClose(db, TerminalClosings(db.runs, ids, now), Reconciled(db.runs, ids, now));
  }

  // ----- events -----

  /** What an accepted event makes of its run: the status its type stands for, and the time of the first start or of the
      end. A run that is missing is created first. */
  ghost predicate RunTold(before: Option<Run>, after: Run, e: Event) {
    var wire := EventTypeValue(e.eventType);
    var status := if before.Some? then before.value.status else WorkflowRunStatus.Created;
    var startedAt := if before.Some? then before.value.startedAt else None;
    var completedAt := if before.Some? then before.value.completedAt else None;
    && after.status == (if wire == "workflow.started" then WorkflowRunStatus.Running
                        else if wire == "workflow.completed" then WorkflowRunStatus.Completed
                        else if wire == "workflow.failed" then WorkflowRunStatus.Failed
                        else if wire == "workflow.retrying" then WorkflowRunStatus.Retrying
                        else if wire == "workflow.waiting_approval" then WorkflowRunStatus.WaitingApproval
                        else status)
    && (if wire == "workflow.started" then KeepsOr(startedAt, after.startedAt, e.occurredAt)
        else after.startedAt == startedAt)
    && after.completedAt == (if wire == "workflow.completed" || wire == "workflow.failed" then Some(e.occurredAt)
                             else completedAt)
    && after.name == (if wire == "workflow.started" && e.payload.workflowName.Some? then e.payload.workflowName.value
                      else if before.Some? then before.value.name
                      else if Truthy(e.payload.workflowName) then e.payload.workflowName.value
                      else "runtime.unknown")
  }

  lemma EventTellsRun(db: Db, e: Event)
    requires Accepts(db.log, e)
    ensures e.runId in Appended(db, e).runs && RunTold(Lookup(db.runs, e.runId), Appended(db, e).runs[e.runId], e)
    ensures forall r :: r != e.runId ==> Lookup(Appended(db, e).runs, r) == Lookup(db.runs, r)
  {
    WorkflowTypes(e.eventType);
  }

  /** The wire values of the five types that move a run. */
  lemma WorkflowTypes(t: EventType)
    ensures EventTypeValue(t) == "workflow.started" <==> t.WorkflowStarted?
    ensures EventTypeValue(t) == "workflow.completed" <==> t.WorkflowCompleted?
    ensures EventTypeValue(t) == "workflow.failed" <==> t.WorkflowFailed?
    ensures EventTypeValue(t) == "workflow.retrying" <==> t.WorkflowRetrying?
    ensures EventTypeValue(t) == "workflow.waiting_approval" <==> t.WorkflowWaitingApproval?
  {
    var v := EventTypeValue(t);
    assert |v| > 9;
    assert v[0] == 'w' ==> v[1] == 'o';
  }

  /** How an event closes its run, if it does. */
  function ClosesOf(e: Event): Closes {
    if EventTypeValue(e.eventType) == "workflow.completed"
    then map[e.runId := (WorkflowRunStatus.Completed, e.occurredAt)]
    else if EventTypeValue(e.eventType) == "workflow.failed"
    then map[e.runId := (WorkflowRunStatus.Failed, e.occurredAt)]
    else map[]
  }

  /** The rows an event needs are there before anything else is done: queued, with the event's names. */
  ghost predicate RowsCreated(before: Db, after: Db, e: Event) {
    && after.tasks.Keys == before.tasks.Keys + (if e.taskId.Some? then {e.taskId.value} else {})
    && after.attempts.Keys ==
         before.attempts.Keys + (if e.taskId.Some? && e.attemptId.Some? then {e.attemptId.value} else {})
    && (forall id :: id in before.tasks ==> after.tasks[id] == before.tasks[id])
    && (forall id :: id in before.attempts ==> after.attempts[id] == before.attempts[id])
    && (forall id :: id in after.tasks && id !in before.tasks ==>
          after.tasks[id] ==
          Task(e.runId, if Truthy(e.payload.taskTitle) then e.payload.taskTitle.value else id, TaskStatus.Queued, None,
               e.payload.executorSummary, None))
    && (forall id :: id in after.attempts && id !in before.attempts ==>
          after.attempts[id] == Attempt(e.taskId.value, e.runId, TaskStatus.Queued, None, None, None))
    && after.claims == before.claims
  }

  /** The status of a row after an event that names it: what the event says, or what it was. */
  ghost predicate StatusTold(before: TaskStatus, after: TaskStatus, e: Event) {
    && (forall s :: SaysStatus(e, s) ==> after == s)
    && ((forall s :: !SaysStatus(e, s)) ==> after == before)
  }

  /** The end of a row after the event: its time when it says the row is done. */
  ghost predicate EndTold(before: Option<int>, after: Option<int>, e: Event) {
    && ((exists s :: SaysStatus(e, s) && IsDone(s)) ==> after == Some(e.occurredAt))
    && ((forall s :: SaysStatus(e, s) ==> !IsDone(s)) ==> after == before)
  }

  predicate TextTold(before: Option<string>, after: Option<string>, said: Option<string>) {
    after == if said.Some? then said else before
  }

  ghost predicate TaskTold(before: Task, after: Task, e: Event) {
    && StatusTold(before.status, after.status, e) && EndTold(before.completedAt, after.completedAt, e)
    && TextTold(before.blockedReason, after.blockedReason, e.payload.blockedReason)
    && TextTold(before.executorSummary, after.executorSummary, e.payload.executorSummary)
    && after.runId == before.runId && after.title == before.title
  }

  ghost predicate AttemptTold(before: Attempt, after: Attempt, e: Event) {
    && StatusTold(before.status, after.status, e) && EndTold(before.endedAt, after.endedAt, e)
    && KeepsOr(before.startedAt, after.startedAt, e.occurredAt)
    && after.runId == before.runId && after.taskId == before.taskId && after.closedBy == before.closedBy
  }

  /** The rows an event names are told; every other row stays. */
  ghost predicate RowsTold(before: Db, after: Db, e: Event) {
    && after.tasks.Keys == before.tasks.Keys && after.attempts.Keys == before.attempts.Keys
    && (forall id :: id in before.tasks ==>
          if e.taskId == Some(id) then TaskTold(before.tasks[id], after.tasks[id], e)
          else after.tasks[id] == before.tasks[id])
    && (forall id :: id in before.attempts ==>
          if e.attemptId == Some(id) then AttemptTold(before.attempts[id], after.attempts[id], e)
          else after.attempts[id] == before.attempts[id])
    && after.claims == before.claims
  }

  lemma StatusIsTold(before: TaskStatus, e: Event)
    ensures var status := StatusFromEvent(e);
            StatusTold(before, if status.Some? then status.value else before, e)
  {
    forall s: TaskStatus { StatusIsSaid(e, s); }
    if StatusFromEvent(e).Some? { StatusIsSaid(e, StatusFromEvent(e).value); }
  }

  lemma EndIsTold(before: Option<int>, e: Event)
    ensures var status := StatusFromEvent(e);
            EndTold(before, if status.Some? && TerminalTask(status.value) then Some(e.occurredAt) else before, e)
  {
    forall s: TaskStatus { StatusIsSaid(e, s); }
    if StatusFromEvent(e).Some? { StatusIsSaid(e, StatusFromEvent(e).value); }
  }

  lemma TaskIsTold(t: Task, e: Event)
    ensures TaskTold(t, TaskEffect(t, e), e)
  {
    StatusIsTold(t.status, e);
    EndIsTold(t.completedAt, e);
  }

  lemma AttemptIsTold(a: Attempt, e: Event)
    ensures AttemptTold(a, AttemptEffect(a, e), e)
  {
    StatusIsTold(a.status, e);
    EndIsTold(a.endedAt, e);
  }

  lemma ClosingsOfEvent(e: Event)
    ensures SameClosings(ClosingsOf(e), ClosesOf(e))
  {
    WorkflowTypes(e.eventType);
  }

  /** The tables once the rows the event needs are there. */
  function WithMinimum(db: Db, e: Event): Db {
    Db(db.runs, MinimumTasks(db.tasks, e), MinimumAttempts(db.attempts, e), db.claims, db.log)
  }

  lemma MinimumIsCreated(db: Db, e: Event)
    ensures RowsCreated(db, WithMinimum(db, e), e)
  {
  }

  lemma EventCloses(created: Db, e: Event)
    ensures RowsClosed(created, CloseRuns(created, ClosingsOf(e)), ClosesOf(e))
  {
    ClosingsOfEvent(e);
    ClosingsClose(created, ClosingsOf(e), ClosesOf(e));
  }

  /** An accepted event on the tables: the rows it needs are created, the rows of a run it ends are closed, and then the
      rows it names are told. */
  lemma EventWrites(db: Db, e: Event) returns (created: Db, closed: Db)
    requires Accepts(db.log, e)
    ensures RowsCreated(db, created, e) && RowsClosed(created, closed, ClosesOf(e))
    ensures RowsTold(closed, Appended(db, e), e)
  {
    created := WithMinimum(db, e);
    closed := CloseRuns(created, ClosingsOf(e));
    MinimumIsCreated(db, e);
    EventCloses(created, e);
    EventTellsRows(closed, Appended(db, e), e);
  }

  lemma EventTellsRows(closed: Db, after: Db, e: Event)
    requires after.tasks == TouchTasks(closed.tasks, e) && after.attempts == TouchAttempts(closed.attempts, e)
    requires after.claims == closed.claims
    ensures RowsTold(closed, after, e)
  {
    forall t: Task { TaskIsTold(t, e); }
    forall a: Attempt { AttemptIsTold(a, e); }
  }

  lemma RecordShows(log: seq<Event>, e: Event, s: TaskStatus)
    requires Truthy(e.taskId) && Truthy(e.attemptId) && !IsBroken(e) && SaysStatus(e, s)
    ensures var t, a := e.taskId.value, e.attemptId.value;
            Summarize(AttemptLog(log + [e], t, a), t, a).status == Some(s)
  {
    StatusIsSaid(e, s);
    assert (log + [e])[..|log|] == log;
  }

  /** An accepted event that names a task and an attempt and says a status: the in-memory record and the rows of both
      show that status. */
  lemma StatusShownEverywhere(db: Db, e: Event, s: TaskStatus)
    requires Accepts(db.log, e) && Truthy(e.taskId) && Truthy(e.attemptId) && !IsBroken(e) && SaysStatus(e, s)
    ensures var after, t, a := Appended(db, e), e.taskId.value, e.attemptId.value;
            && t in after.tasks && after.tasks[t].status == s
            && a in after.attempts && after.attempts[a].status == s
            && Summarize(AttemptLog(after.log, t, a), t, a).status == Some(s)
  {
    var created, closed := EventWrites(db, e);
    assert e.taskId.value in closed.tasks && e.attemptId.value in closed.attempts;
    RecordShows(db.log, e, s);
  }

  // ----- claims, task transitions and ensure calls -----

  /** A claim without a heartbeat, release or sweep since it was granted at this time. */
  predicate FreshClaim(c: Claim, id: string, r: Request, now: int) {
    && c.claimId == id && c.taskId == r.taskId && c.runId == r.runId && c.attemptId == r.attemptId
    && c.workerId == r.workerId && c.leaseSeconds == r.leaseSeconds && c.status.Active?
    && c.claimedAt == now && c.heartbeatAt == now
    && c.expiredAt.None? && c.reclaimedAt.None? && c.releasedAt.None?
  }

  /** The task is held: some active claim of it in the run. */
  ghost predicate Held(claims: map<string, Claim>, taskId: string, runId: string) {
    exists id :: id in claims && claims[id].taskId == taskId && claims[id].runId == runId && claims[id].status.Active?
  }

  /** A claim that is refused, or handed its old row, writes nothing; otherwise the claim, the attempt (created, or put
      back to claimed) and the task, if it has a row, are written, and nothing else. */
  lemma ClaimWrites(db: Db, r: Request, now: int)
    ensures var (after, outcome) := GrantClaim(db, r, now);
            var id := "claim-" + r.attemptId;
            if Held(db.claims, r.taskId, r.runId) then after == db && outcome == Refused(AlreadyActive)
            else if id in db.claims then after == db && outcome == Granted(db.claims[id])
            else
              && id in after.claims && FreshClaim(after.claims[id], id, r, now) && outcome == Granted(after.claims[id])
              && (forall j :: j != id ==> Lookup(after.claims, j) == Lookup(db.claims, j))
              && r.attemptId in after.attempts
              && AttemptClaimed(Lookup(db.attempts, r.attemptId), after.attempts[r.attemptId], r, now)
              && (forall j :: j != r.attemptId ==> Lookup(after.attempts, j) == Lookup(db.attempts, j))
              && after.tasks.Keys == db.tasks.Keys
              && (forall j :: j in db.tasks ==>
                    after.tasks[j] ==
                    if j == r.taskId then db.tasks[j].(status := TaskStatus.Claimed) else db.tasks[j])
              && after.runs == db.runs && after.log == db.log
  {
    assert HasActiveClaim(db.claims, r.taskId, r.runId) <==> Held(db.claims, r.taskId, r.runId);
  }

  predicate AttemptClaimed(before: Option<Attempt>, after: Attempt, r: Request, now: int) {
    if before.None? then after == Attempt(r.taskId, r.runId, TaskStatus.Claimed, Some(now), None, None)
    else
      && after.status.Claimed? && KeepsOr(before.value.startedAt, after.startedAt, now)
      && after.taskId == before.value.taskId && after.runId == before.value.runId
      && after.endedAt == before.value.endedAt && after.closedBy == before.value.closedBy
  }

  /** A heartbeat moves the heartbeat of an active claim; a release marks any claim released, with the time. */
  lemma HeartbeatAndReleaseWrite(claims: map<string, Claim>, id: string, now: int)
    ensures var (beaten, answer) := HeartbeatRow(claims, id, now);
            if id !in claims then beaten == claims && answer == Refused(UnknownClaim)
            else if !claims[id].status.Active? then beaten == claims && answer == Refused(NotActive)
            else beaten == claims[id := claims[id].(heartbeatAt := now)] && answer == Granted(beaten[id])
    ensures var (released, answer) := ReleaseRow(claims, id, now);
            if id !in claims then released == claims && answer == Refused(UnknownClaim)
            else
              && released == claims[id := claims[id].(status := ClaimStatus.Released, releasedAt := Some(now))]
              && answer == Granted(released[id])
  {
  }

  /** A task status written from outside: the task's row, and the attempt's if one is named, have it, with the time when
      it ends them; a reason is written when one is given. */
  lemma TaskTransitionWrites(db: Db, w: TaskWrite, now: int)
    ensures var after := TaskTransitioned(db, w, now);
            && after.tasks.Keys == db.tasks.Keys && after.attempts.Keys == db.attempts.Keys
            && after.runs == db.runs && after.claims == db.claims && after.log == db.log
            && (forall id :: id in db.tasks ==>
                  if id == w.taskId then TaskWritten(db.tasks[id], after.tasks[id], w, now)
                  else after.tasks[id] == db.tasks[id])
            && (forall id :: id in db.attempts ==>
                  if Truthy(w.attemptId) && id == w.attemptId.value
                  then AttemptWritten(db.attempts[id], after.attempts[id], w, now)
                  else after.attempts[id] == db.attempts[id])
  {
  }

  predicate TaskWritten(before: Task, after: Task, w: TaskWrite, now: int) {
    && after.status == w.target && TextTold(before.blockedReason, after.blockedReason, w.reason)
    && after.completedAt == (if IsDone(w.target) then Some(now) else before.completedAt)
    && after.runId == before.runId && after.title == before.title && after.executorSummary == before.executorSummary
  }

  predicate AttemptWritten(before: Attempt, after: Attempt, w: TaskWrite, now: int) {
    && after.status == w.target && KeepsOr(before.startedAt, after.startedAt, now)
    && after.endedAt == (if IsDone(w.target) then Some(now) else before.endedAt)
    && after.runId == before.runId && after.taskId == before.taskId && after.closedBy == before.closedBy
  }

  /** The ensure calls create what is missing; of what is there, a run takes a name that is not empty, a task its title
      and summary, an attempt its status. Nothing else changes. */
  lemma EnsureWrites(db: Db, runId: string, name: Option<string>, t: TaskEntry, a: AttemptEntry)
    ensures var runs := Commit(db, EnsuringRun(runId, name)).runs;
            && runId in runs && (forall id :: id != runId ==> Lookup(runs, id) == Lookup(db.runs, id))
            && if runId in db.runs
               then runs[runId] == db.runs[runId].(name := if Truthy(name) then name.value else db.runs[runId].name)
               else
                 && runs[runId].status.Created? && runs[runId].startedAt.None? && runs[runId].completedAt.None?
                 && runs[runId].name == if Truthy(name) then name.value else "runtime.unknown"
    ensures var tasks := Commit(db, EnsuringTask(t)).tasks;
            && t.taskId in tasks && (forall id :: id != t.taskId ==> Lookup(tasks, id) == Lookup(db.tasks, id))
            && tasks[t.taskId].title == t.title && tasks[t.taskId].executorSummary == t.executorSummary
            && if t.taskId in db.tasks
               then
                 && tasks[t.taskId].status == db.tasks[t.taskId].status
                 && tasks[t.taskId].runId == db.tasks[t.taskId].runId
                 && tasks[t.taskId].blockedReason == db.tasks[t.taskId].blockedReason
                 && tasks[t.taskId].completedAt == db.tasks[t.taskId].completedAt
               else
                 && tasks[t.taskId].status.Queued? && tasks[t.taskId].runId == t.runId
                 && tasks[t.taskId].blockedReason.None? && tasks[t.taskId].completedAt.None?
    ensures var attempts := Commit(db, EnsuringAttempt(a)).attempts;
            && a.attemptId in attempts && attempts[a.attemptId].status == a.status
            && (forall id :: id != a.attemptId ==> Lookup(attempts, id) == Lookup(db.attempts, id))
            && if a.attemptId in db.attempts
               then attempts[a.attemptId] == db.attempts[a.attemptId].(status := a.status)
               else
                 && attempts[a.attemptId].taskId == a.taskId && attempts[a.attemptId].runId == a.runId
                 && attempts[a.attemptId].startedAt.None? && attempts[a.attemptId].endedAt.None?
                 && attempts[a.attemptId].closedBy.None?
  {
  }
}
