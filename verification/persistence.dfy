/** The runtime tables (runs, tasks, attempts, claims, events) and the service that writes them. A committed
    session is one step; a session that raises leaves the tables as they were. */
module RuntimePersistence {
  import opened Common
  import opened RuntimeContracts
  import opened Events
  import opened EventStore
  import opened Leases

  datatype Run = Run(name: string, status: WorkflowRunStatus, startedAt: Option<int>, completedAt: Option<int>)

  datatype Task = Task(
    runId: string, title: string, status: TaskStatus,
    blockedReason: Option<string>, executorSummary: Option<string>, completedAt: Option<int>)

  /** `closedBy` is the workflow_terminal_status entry of the attempt's metadata. */
  datatype Attempt = Attempt(
    taskId: string, runId: string, status: TaskStatus,
    startedAt: Option<int>, endedAt: Option<int>, closedBy: Option<WorkflowRunStatus>)

  datatype Db = Db(
    runs: map<string, Run>, tasks: map<string, Task>, attempts: map<string, Attempt>,
    claims: map<string, Claim>, log: seq<Event>)

  // ----- statuses -----

  predicate InFlight(s: TaskStatus) {
    s.Queued? || s.Claimed? || s.Running? || s.Verifying? || s.WaitingApproval? || s.Retrying?
  }

  predicate TerminalTask(s: TaskStatus) {
    s.Completed? || s.Failed? || s.Reclaimed? || s.Cancelled?
  }

  predicate TerminalRun(s: WorkflowRunStatus) {
    s.Completed? || s.Failed? || s.Cancelled?
  }

  function ClosingStatus(s: WorkflowRunStatus): TaskStatus {
    if s.Failed? then TaskStatus.Failed else TaskStatus.Cancelled
  }

  function RunStatusValue(s: WorkflowRunStatus): string {
    match s
    case Created => "created"
    case Queued => "queued"
    case Running => "running"
    case WaitingApproval => "waiting_approval"
    case Paused => "paused"
    case Retrying => "retrying"
    case Completed => "completed"
    case Failed => "failed"
    case Cancelled => "cancelled"
  }

  function ClosingReason(s: WorkflowRunStatus): string {
    "workflow " + RunStatusValue(s) + " before task reached terminal state"
  }

  // ----- closing what a terminal run leaves behind -----

  /** How a run that is over closes its rows: its status, and the time given to rows without one. */
  datatype Closing = Closing(status: WorkflowRunStatus, at: int)

  function CloseTask(t: Task, c: Closing): Task {
    t.(status := ClosingStatus(c.status),
       completedAt := Latest(Some(c.at), t.completedAt),
       blockedReason := Latest(Some(ClosingReason(c.status)), t.blockedReason))
  }

  function CloseAttempt(a: Attempt, c: Closing): Attempt {
    a.(status := ClosingStatus(c.status), endedAt := Latest(Some(c.at), a.endedAt), closedBy := Some(c.status))
  }

  function CloseClaim(k: Claim, c: Closing): Claim {
    k.(status := ClaimStatus.Reclaimed,
       reclaimedAt := Latest(Some(c.at), k.reclaimedAt), expiredAt := Latest(Some(c.at), k.expiredAt))
  }

  /** One row, when the runs of `closings` are closed. */
  function ClosedTask(t: Task, closings: map<string, Closing>): Task {
    if t.runId in closings && InFlight(t.status) then CloseTask(t, closings[t.runId]) else t
  }

  function ClosedAttempt(a: Attempt, closings: map<string, Closing>): Attempt {
    if a.runId in closings && InFlight(a.status) then CloseAttempt(a, closings[a.runId]) else a
  }

  function ClosedClaim(k: Claim, closings: map<string, Closing>): Claim {
    if k.runId in closings && k.status.Active? then CloseClaim(k, closings[k.runId]) else k
  }

  function CloseTasks(tasks: map<string, Task>, closings: map<string, Closing>): map<string, Task> {
    map id | id in tasks :: ClosedTask(tasks[id], closings)
  }

  function CloseAttempts(attempts: map<string, Attempt>, closings: map<string, Closing>): map<string, Attempt> {
    map id | id in attempts :: ClosedAttempt(attempts[id], closings)
  }

  function CloseClaims(claims: map<string, Claim>, closings: map<string, Closing>): map<string, Claim> {
    map id | id in claims :: ClosedClaim(claims[id], closings)
  }

  /** Close, all at once, everything the given runs left open. */
  function CloseRuns(db: Db, closings: map<string, Closing>): Db {
    Db(db.runs, CloseTasks(db.tasks, closings), CloseAttempts(db.attempts, closings),
       CloseClaims(db.claims, closings), db.log)
  }

  /** The rows the given runs left open. */
  function OpenTasks(tasks: map<string, Task>, runs: set<string>): set<string> {
    set id | id in tasks && tasks[id].runId in runs && InFlight(tasks[id].status)
  }

  function OpenAttempts(attempts: map<string, Attempt>, runs: set<string>): set<string> {
    set id | id in attempts && attempts[id].runId in runs && InFlight(attempts[id].status)
  }

  function OpenClaims(claims: map<string, Claim>, runs: set<string>): set<string> {
    set id | id in claims && claims[id].runId in runs && claims[id].status.Active?
  }

  /** Nothing of these runs is in flight or holds a lease. */
  ghost predicate Clean(db: Db, runs: set<string>) {
    OpenTasks(db.tasks, runs) == {} && OpenAttempts(db.attempts, runs) == {} && OpenClaims(db.claims, runs) == {}
  }

  lemma CloseRunsCleans(db: Db, closings: map<string, Closing>)
    ensures Clean(CloseRuns(db, closings), closings.Keys)
  {
  }

  /** Closing changes exactly the open rows. */
  lemma CloseRunsChangesOpenRows(db: Db, closings: map<string, Closing>)
    ensures var after := CloseRuns(db, closings);
            && after.tasks.Keys == db.tasks.Keys && after.attempts.Keys == db.attempts.Keys
            && after.claims.Keys == db.claims.Keys
            && OpenTasks(db.tasks, closings.Keys) == (set id | id in db.tasks && after.tasks[id] != db.tasks[id])
            && OpenAttempts(db.attempts, closings.Keys) ==
                (set id | id in db.attempts && after.attempts[id] != db.attempts[id])
            && OpenClaims(db.claims, closings.Keys) == (set id | id in db.claims && after.claims[id] != db.claims[id])
  {
  }

  lemma CloseCleanRuns(db: Db, closings: map<string, Closing>)
    requires Clean(db, closings.Keys)
    ensures CloseRuns(db, closings) == db
  {
    forall id | id in db.tasks ensures ClosedTask(db.tasks[id], closings) == db.tasks[id] {
      assert id !in OpenTasks(db.tasks, closings.Keys);
    }
    forall id | id in db.attempts ensures ClosedAttempt(db.attempts[id], closings) == db.attempts[id] {
      assert id !in OpenAttempts(db.attempts, closings.Keys);
    }
    forall id | id in db.claims ensures ClosedClaim(db.claims[id], closings) == db.claims[id] {
      assert id !in OpenClaims(db.claims, closings.Keys);
    }
  }

  lemma CloseOneMoreTask(t: Task, closings: map<string, Closing>, runId: string, c: Closing)
    requires runId !in closings
    ensures ClosedTask(ClosedTask(t, closings), map[runId := c]) == ClosedTask(t, closings[runId := c])
  {
  }

  lemma CloseOneMoreAttempt(a: Attempt, closings: map<string, Closing>, runId: string, c: Closing)
    requires runId !in closings
    ensures ClosedAttempt(ClosedAttempt(a, closings), map[runId := c]) == ClosedAttempt(a, closings[runId := c])
  {
  }

  lemma CloseOneMoreClaim(k: Claim, closings: map<string, Closing>, runId: string, c: Closing)
    requires runId !in closings
    ensures ClosedClaim(ClosedClaim(k, closings), map[runId := c]) == ClosedClaim(k, closings[runId := c])
  {
  }

  /** Runs can be closed one by one, in any order: a row belongs to one run. */
  lemma {:induction false} CloseOneMore(db: Db, closings: map<string, Closing>, runId: string, c: Closing)
    requires runId !in closings
    ensures CloseRuns(CloseRuns(db, closings), map[runId := c]) == CloseRuns(db, closings[runId := c])
  {
    forall id | id in db.tasks { CloseOneMoreTask(db.tasks[id], closings, runId, c); }
    forall id | id in db.attempts { CloseOneMoreAttempt(db.attempts[id], closings, runId, c); }
    forall id | id in db.claims { CloseOneMoreClaim(db.claims[id], closings, runId, c); }
  }

  /** Closing other runs leaves what a run has open as it was. */
  lemma OpenAfterOthersClosed(db: Db, closings: map<string, Closing>, runId: string)
    requires runId !in closings
    ensures var after := CloseRuns(db, closings);
            && OpenTasks(after.tasks, {runId}) == OpenTasks(db.tasks, {runId})
            && OpenAttempts(after.attempts, {runId}) == OpenAttempts(db.attempts, {runId})
            && OpenClaims(after.claims, {runId}) == OpenClaims(db.claims, {runId})
  {
  }

  // ----- appending an event -----

  /** The rows an event needs: its run, its task, and its attempt when it names a task too. */
  function MinimumRuns(runs: map<string, Run>, e: Event): map<string, Run> {
    if e.runId in runs then runs
    else runs[e.runId :=
      Run(if Truthy(e.payload.workflowName) then e.payload.workflowName.value else "runtime.unknown",
          WorkflowRunStatus.Created, None, None)]
  }

  function MinimumTasks(tasks: map<string, Task>, e: Event): map<string, Task> {
    if e.taskId.None? || e.taskId.value in tasks then tasks
    else tasks[e.taskId.value :=
      Task(e.runId, if Truthy(e.payload.taskTitle) then e.payload.taskTitle.value else e.taskId.value,
           TaskStatus.Queued, None, e.payload.executorSummary, None)]
  }

  function MinimumAttempts(attempts: map<string, Attempt>, e: Event): map<string, Attempt> {
    if e.attemptId.None? || e.taskId.None? || e.attemptId.value in attempts then attempts
    else attempts[e.attemptId.value := Attempt(e.taskId.value, e.runId, TaskStatus.Queued, None, None, None)]
  }

  function RunEffect(r: Run, e: Event): Run {
    match e.eventType
    case WorkflowStarted =>
      r.(status := WorkflowRunStatus.Running,
         startedAt := Latest(Some(e.occurredAt), r.startedAt),
         name := if e.payload.workflowName.Some? then e.payload.workflowName.value else r.name)
    case WorkflowCompleted => r.(status := WorkflowRunStatus.Completed, completedAt := Some(e.occurredAt))
    case WorkflowFailed => r.(status := WorkflowRunStatus.Failed, completedAt := Some(e.occurredAt))
    case WorkflowRetrying => r.(status := WorkflowRunStatus.Retrying)
    case WorkflowWaitingApproval => r.(status := WorkflowRunStatus.WaitingApproval)
    case _ => r
  }

  function TaskEffect(t: Task, e: Event): Task {
    var status := StatusFromEvent(e);
    t.(status := if status.Some? then status.value else t.status,
       blockedReason := Latest(t.blockedReason, e.payload.blockedReason),
       executorSummary := Latest(t.executorSummary, e.payload.executorSummary),
       completedAt := if status.Some? && TerminalTask(status.value) then Some(e.occurredAt) else t.completedAt)
  }

  function AttemptEffect(a: Attempt, e: Event): Attempt {
    var status := StatusFromEvent(e);
    a.(startedAt := Latest(Some(e.occurredAt), a.startedAt),
       status := if status.Some? then status.value else a.status,
       endedAt := if status.Some? && TerminalTask(status.value) then Some(e.occurredAt) else a.endedAt)
  }

  /** The runs an event closes: its own, when it reports the workflow completed or failed. */
  function ClosingsOf(e: Event): map<string, Closing> {
    match e.eventType
    case WorkflowCompleted => map[e.runId := Closing(WorkflowRunStatus.Completed, e.occurredAt)]
    case WorkflowFailed => map[e.runId := Closing(WorkflowRunStatus.Failed, e.occurredAt)]
    case _ => map[]
  }

  function TouchTasks(tasks: map<string, Task>, e: Event): map<string, Task> {
    if e.taskId.Some? && e.taskId.value in tasks
    then tasks[e.taskId.value := TaskEffect(tasks[e.taskId.value], e)] else tasks
  }

  function TouchAttempts(attempts: map<string, Attempt>, e: Event): map<string, Attempt> {
    if e.attemptId.Some? && e.attemptId.value in attempts
    then attempts[e.attemptId.value := AttemptEffect(attempts[e.attemptId.value], e)] else attempts
  }

  /** The tables after one delivery: rows are created, closed if the run is over, then touched by the event. */
  function Appended(db: Db, e: Event): (after: Db)
    ensures after.log == Deliver(db.log, e)
  {
    if Accepts(db.log, e) then
      var runs := MinimumRuns(db.runs, e);
      Db(runs[e.runId := RunEffect(runs[e.runId], e)],
         TouchTasks(CloseTasks(MinimumTasks(db.tasks, e), ClosingsOf(e)), e),
         TouchAttempts(CloseAttempts(MinimumAttempts(db.attempts, e), ClosingsOf(e)), e),
         CloseClaims(db.claims, ClosingsOf(e)),
         db.log + [e])
    else db
  }

  function AppendAll(db: Db, deliveries: seq<Event>): (after: Db)
    ensures after.log == DeliverAll(db.log, deliveries)
  {
    if deliveries == [] then db
    else Appended(AppendAll(db, deliveries[..|deliveries| - 1]), deliveries[|deliveries| - 1])
  }

  lemma DuplicateChangesNothing(db: Db, e: Event)
    requires KeyIn(db.log, e.key)
    ensures Appended(db, e) == db
  {
  }

  /** Redelivery changes no table: runs, tasks, attempts, claims and log are those of the deliveries kept. */
  lemma {:induction false} RepeatsHaveNoTableEffect(db: Db, deliveries: seq<Event>, keep: seq<bool>)
    requires |keep| == |deliveries| && OnlyRepeatsDropped(db.log, deliveries, keep)
    ensures AppendAll(db, deliveries) == AppendAll(db, Kept(deliveries, keep))
  {
    if deliveries != [] {
      var n := |deliveries| - 1;
      forall i | 0 <= i < n ensures deliveries[..n][..i] == deliveries[..i] {}
      RepeatsHaveNoTableEffect(db, deliveries[..n], keep[..n]);
      if keep[n] {
        var kept := Kept(deliveries[..n], keep[..n]);
        assert (kept + [deliveries[n]])[..|kept|] == kept;
      } else {
        DuplicateChangesNothing(AppendAll(db, deliveries[..n]), deliveries[n]);
      }
    }
  }

  predicate EndsRun(e: Event) {
    e.eventType.WorkflowCompleted? || e.eventType.WorkflowFailed?
  }

  predicate CarriesInFlight(e: Event) {
    StatusFromEvent(e).Some? && InFlight(StatusFromEvent(e).value)
  }

  /** The event puts a task of its run back in flight after the run was closed. */
  predicate RevivesTask(tasks: map<string, Task>, e: Event) {
    CarriesInFlight(e) && e.taskId.Some? && (e.taskId.value in tasks ==> tasks[e.taskId.value].runId == e.runId)
  }

  predicate RevivesAttempt(attempts: map<string, Attempt>, e: Event) {
    && CarriesInFlight(e) && e.attemptId.Some?
    && if e.attemptId.value in attempts then attempts[e.attemptId.value].runId == e.runId else e.taskId.Some?
  }

  lemma TasksAfterTerminalEvent(tasks: map<string, Task>, e: Event)
    requires EndsRun(e)
    ensures OpenTasks(TouchTasks(CloseTasks(MinimumTasks(tasks, e), ClosingsOf(e)), e), {e.runId}) ==
            if RevivesTask(tasks, e) then {e.taskId.value} else {}
  {
    var closed := CloseTasks(MinimumTasks(tasks, e), ClosingsOf(e));
    assert forall id :: id in closed ==> closed[id].runId == e.runId ==> !InFlight(closed[id].status);
  }

  lemma AttemptsAfterTerminalEvent(attempts: map<string, Attempt>, e: Event)
    requires EndsRun(e)
    ensures OpenAttempts(TouchAttempts(CloseAttempts(MinimumAttempts(attempts, e), ClosingsOf(e)), e), {e.runId}) ==
            if RevivesAttempt(attempts, e) then {e.attemptId.value} else {}
  {
    var closed := CloseAttempts(MinimumAttempts(attempts, e), ClosingsOf(e));
    assert forall id :: id in closed ==> closed[id].runId == e.runId ==> !InFlight(closed[id].status);
  }

  lemma ClaimsAfterTerminalEvent(claims: map<string, Claim>, e: Event)
    requires EndsRun(e)
    ensures OpenClaims(CloseClaims(claims, ClosingsOf(e)), {e.runId}) == {}
  {
  }

  /** An event that ends its run leaves nothing of the run in flight, exactly when it does not itself carry an
      in-flight status for a task or attempt of the run. */
  lemma TerminalEventCleansExactly(db: Db, e: Event)
    requires EndsRun(e) && Accepts(db.log, e)
    ensures Clean(Appended(db, e), {e.runId}) <==> !RevivesTask(db.tasks, e) && !RevivesAttempt(db.attempts, e)
  {
    TasksAfterTerminalEvent(db.tasks, e);
    AttemptsAfterTerminalEvent(db.attempts, e);
    ClaimsAfterTerminalEvent(db.claims, e);
  }

  /** Such an event on empty tables: it reports the workflow failed and a task of it running, and is accepted. The run
      is failed, and its task is in flight. */
  lemma TerminalEventCanRevive(db: Db, e: Event)
    requires db == Db(map[], map[], map[], map[], [])
    requires e.eventType.WorkflowFailed? && e.payload.toStatus == Some("running")
    requires e.runId == "r" && e.taskId == Some("t") && e.attemptId.None? && e.sequence == 1
    ensures Accepts(db.log, e)
    ensures var after := Appended(db, e);
            && "r" in after.runs && after.runs["r"].status.Failed?
            && "t" in after.tasks && after.tasks["t"].runId == "r" && after.tasks["t"].status.Running?
            && !Clean(after, {"r"})
  {
    assert RevivesTask(db.tasks, e);
    TerminalEventCleansExactly(db, e);
  }

  /** Whatever the event, rows of other runs change only if the event names them. */
  lemma {:induction false} AppendTouchesOwnRun(db: Db, e: Event)
    ensures var after := Appended(db, e);
            && (forall id :: id in db.runs && id != e.runId ==> id in after.runs && after.runs[id] == db.runs[id])
            && (forall id :: id in db.tasks && db.tasks[id].runId != e.runId && e.taskId != Some(id) ==>
                  id in after.tasks && after.tasks[id] == db.tasks[id])
            && (forall id :: id in db.attempts && db.attempts[id].runId != e.runId && e.attemptId != Some(id) ==>
                  id in after.attempts && after.attempts[id] == db.attempts[id])
            && (forall id :: id in db.claims && db.claims[id].runId != e.runId ==>
                  id in after.claims && after.claims[id] == db.claims[id])
  {
    assert forall id :: id in ClosingsOf(e) ==> id == e.runId;
    forall t: Task | t.runId != e.runId ensures ClosedTask(t, ClosingsOf(e)) == t {}
    forall a: Attempt | a.runId != e.runId ensures ClosedAttempt(a, ClosingsOf(e)) == a {}
    forall k: Claim | k.runId != e.runId ensures ClosedClaim(k, ClosingsOf(e)) == k {}
  }

  // ----- status transitions and reconciliation -----

  /** A workflow status written from outside; an unknown run is ignored. */
  function Transitioned(db: Db, runId: string, target: WorkflowRunStatus, now: int): Db {
    if runId !in db.runs then db
    else
      var r := db.runs[runId].(status := target);
      var r := if target.Running? && r.startedAt.None? then r.(startedAt := Some(now)) else r;
      if TerminalRun(target)
      then CloseRuns(db.(runs := db.runs[runId := r.(completedAt := Some(now))]), map[runId := Closing(target, now)])
      else db.(runs := db.runs[runId := r])
  }

  /** The rows that the ensure sessions create, or bring up to date when they exist. */
  function EnsuredRuns(runs: map<string, Run>, runId: string, name: Option<string>): map<string, Run> {
    if runId !in runs
    then runs[runId := Run(if Truthy(name) then name.value else "runtime.unknown", WorkflowRunStatus.Created, None,
        None)]
    else if Truthy(name) then runs[runId := runs[runId].(name := name.value)]
    else runs
  }

  datatype TaskEntry = TaskEntry(taskId: string, runId: string, title: string, executorSummary: Option<string>)

  function EnsuredTasks(tasks: map<string, Task>, t: TaskEntry): map<string, Task> {
    tasks[t.taskId :=
      if t.taskId in tasks then tasks[t.taskId].(title := t.title, executorSummary := t.executorSummary)
      else Task(t.runId, t.title, TaskStatus.Queued, None, t.executorSummary, None)]
  }

  datatype AttemptEntry = AttemptEntry(attemptId: string, taskId: string, runId: string, status: TaskStatus)

  function EnsuredAttempts(attempts: map<string, Attempt>, a: AttemptEntry): map<string, Attempt> {
    attempts[a.attemptId :=
      if a.attemptId in attempts then attempts[a.attemptId].(status := a.status)
      else Attempt(a.taskId, a.runId, a.status, None, None, None)]
  }

  /** A status written from outside into a task's row. */
  function WrittenTask(t: Task, target: TaskStatus, reason: Option<string>, now: int): Task {
    t.(status := target,
       blockedReason := Latest(t.blockedReason, reason),
       completedAt := if TerminalTask(target) then Some(now) else t.completedAt)
  }

  /** ... and into an attempt's. */
  function WrittenAttempt(a: Attempt, target: TaskStatus, now: int): Attempt {
    a.(startedAt := Latest(Some(now), a.startedAt),
       status := target,
       endedAt := if TerminalTask(target) then Some(now) else a.endedAt)
  }

  /** A task status written from outside; rows that do not exist and the empty attempt id are ignored. */
  function TaskTransitioned(db: Db, w: TaskWrite, now: int): Db {
    db.(
    tasks := if w.taskId in db.tasks
      then db.tasks[w.taskId := WrittenTask(db.tasks[w.taskId], w.target, w.reason, now)] else db.tasks,
    attempts := if Truthy(w.attemptId) && w.attemptId.value in db.attempts
      then db.attempts[w.attemptId.value := WrittenAttempt(db.attempts[w.attemptId.value], w.target, now)]
      else db.attempts)
  }

  /** What `transition_task_status` is asked to write. */
  datatype TaskWrite = TaskWrite(taskId: string, attemptId: Option<string>, target: TaskStatus, reason: Option<string>)

  /** The rows of every run but one are as they were. */
  ghost predicate OthersUntouched(before: Db, after: Db, runId: string) {
    && (forall id :: id in before.runs && id != runId ==> Lookup(after.runs, id) == Some(before.runs[id]))
    && (forall id :: id in before.tasks && before.tasks[id].runId != runId ==>
        Lookup(after.tasks, id) == Some(before.tasks[id]))
    && (forall id :: id in before.attempts && before.attempts[id].runId != runId ==>
          Lookup(after.attempts, id) == Some(before.attempts[id]))
    && (forall id :: id in before.claims && before.claims[id].runId != runId ==>
        Lookup(after.claims, id) == Some(before.claims[id]))
  }

  lemma CloseTouchesOwnRun(db: Db, runId: string, c: Closing)
    ensures OthersUntouched(db, CloseRuns(db, map[runId := c]), runId)
  {
  }

  /** A terminal transition leaves the run clean and the rows of every other run alone. */
  lemma TerminalTransitionCleans(db: Db, runId: string, target: WorkflowRunStatus, now: int)
    requires runId in db.runs && TerminalRun(target)
    ensures Clean(Transitioned(db, runId, target, now), {runId})
    ensures OthersUntouched(db, Transitioned(db, runId, target, now), runId)
  {
    var after := Transitioned(db, runId, target, now);
    var before := db.(runs := after.runs);
    assert after == CloseRuns(before, map[runId := Closing(target, now)]);
    CloseRunsCleans(before, map[runId := Closing(target, now)]);
    CloseTouchesOwnRun(before, runId, Closing(target, now));
  }

  /** The terminal runs a reconciliation looks at (all, when no ids are given) and how each is closed. */
  function TerminalClosings(runs: map<string, Run>, ids: seq<string>, now: int): map<string, Closing> {
    map r | r in runs && TerminalRun(runs[r].status) && (ids == [] || r in ids) ::
      Closing(runs[r].status, if runs[r].completedAt.Some? then runs[r].completedAt.value else now)
  }

  predicate LeftOpen(db: Db, runId: string) {
    || OpenTasks(db.tasks, {runId}) != {}
    || OpenAttempts(db.attempts, {runId}) != {}
    || OpenClaims(db.claims, {runId}) != {}
  }

  datatype Summary = Summary(runsScanned: nat, runsReconciled: nat, tasks: nat, attempts: nat, claims: nat)

  /** The numbers a reconciliation reports that scans `scanned` runs and has closed these. */
  function SummaryOf(db: Db, closed: set<string>, scanned: nat): Summary {
    Summary(scanned, |RunsLeftOpen(db, closed)|, |OpenTasks(db.tasks, closed)|,
            |OpenAttempts(db.attempts, closed)|, |OpenClaims(db.claims, closed)|)
  }

  lemma DisjointUnionSize(a: set<string>, b: set<string>, u: set<string>)
    requires u == a + b && a !! b
    ensures |u| == |a| + |b|
  {
  }

  lemma OpenRowsOneMore(db: Db, scanned: set<string>, runId: string)
    requires runId !in scanned
    ensures |OpenTasks(db.tasks, scanned + {runId})| == |OpenTasks(db.tasks, scanned)| + |OpenTasks(db.tasks, {runId})|
    ensures |OpenAttempts(db.attempts, scanned + {runId})| ==
            |OpenAttempts(db.attempts, scanned)| + |OpenAttempts(db.attempts, {runId})|
    ensures |OpenClaims(db.claims, scanned + {runId})| ==
            |OpenClaims(db.claims, scanned)| + |OpenClaims(db.claims, {runId})|
  {
    var all := scanned + {runId};
    DisjointUnionSize(OpenTasks(db.tasks, scanned), OpenTasks(db.tasks, {runId}), OpenTasks(db.tasks, all));
    DisjointUnionSize(OpenAttempts(db.attempts, scanned), OpenAttempts(db.attempts, {runId}),
        OpenAttempts(db.attempts, all));
    DisjointUnionSize(OpenClaims(db.claims, scanned), OpenClaims(db.claims, {runId}), OpenClaims(db.claims, all));
  }

  function RunsLeftOpen(db: Db, scanned: set<string>): set<string> {
    set r | r in scanned && LeftOpen(db, r)
  }

  lemma RunsLeftOpenOneMore(db: Db, scanned: set<string>, runId: string)
    requires runId !in scanned
    ensures |RunsLeftOpen(db, scanned + {runId})| == |RunsLeftOpen(db, scanned)| + if LeftOpen(db, runId) then 1 else 0
  {
    assert RunsLeftOpen(db, scanned + {runId}) ==
           if LeftOpen(db, runId) then RunsLeftOpen(db, scanned) + {runId} else RunsLeftOpen(db, scanned);
  }

  datatype Counters = Counters(tasks: nat, attempts: nat, claims: nat)

  /** The numbers of rows closing these runs changes. */
  function CountersOf(db: Db, runs: set<string>): Counters {
    Counters(|OpenTasks(db.tasks, runs)|, |OpenAttempts(db.attempts, runs)|, |OpenClaims(db.claims, runs)|)
  }

  /** One more run entered into the summary. */
  function AddRun(s: Summary, c: Counters): Summary {
    Summary(s.runsScanned, s.runsReconciled + if c.tasks > 0 || c.attempts > 0 || c.claims > 0 then 1 else 0,
            s.tasks + c.tasks, s.attempts + c.attempts, s.claims + c.claims)
  }

  /** A visit of the closings: some are done, the others to do. */
  ghost predicate Visited(closings: map<string, Closing>, done: map<string, Closing>, todo: set<string>) {
    && done.Keys !! todo && done.Keys + todo == closings.Keys
    && forall r :: r in done ==> done[r] == closings[r]
  }

  lemma VisitedOneMore(closings: map<string, Closing>, done: map<string, Closing>, todo: set<string>, runId: string)
    requires Visited(closings, done, todo) && runId in todo
    ensures Visited(closings, done[runId := closings[runId]], todo - {runId})
  {
  }

  lemma VisitedAll(closings: map<string, Closing>, done: map<string, Closing>)
    requires Visited(closings, done, {})
    ensures done == closings
  {
    assert done.Keys == closings.Keys;
  }

  /** Closing one more run, after others: the tables and the numbers. */
  lemma ReconcileStep(db: Db, done: map<string, Closing>, runId: string, c: Closing, scanned: nat)
    requires runId !in done
    ensures CloseRuns(CloseRuns(db, done), map[runId := c]) == CloseRuns(db, done[runId := c])
    ensures SummaryOf(db, done[runId := c].Keys, scanned) ==
            AddRun(SummaryOf(db, done.Keys, scanned), CountersOf(CloseRuns(db, done), {runId}))
  {
    CloseOneMore(db, done, runId, c);
    OpenAfterOthersClosed(db, done, runId);
    OpenRowsOneMore(db, done.Keys, runId);
    RunsLeftOpenOneMore(db, done.Keys, runId);
    assert done[runId := c].Keys == done.Keys + {runId};
  }

  /** After reconciliation every scanned run is clean, the numbers are the numbers of rows changed, and a second
      reconciliation, at whatever time, scans the same runs, changes nothing and reports no row. */
  lemma {:induction false} ReconcileOnce(db: Db, ids: seq<string>, now: int, later: int)
    ensures var closings := TerminalClosings(db.runs, ids, now);
            var after := CloseRuns(db, closings);
            var again := TerminalClosings(after.runs, ids, later);
            && Clean(after, closings.Keys)
            && CountersOf(db, closings.Keys).tasks == |set id | id in db.tasks && after.tasks[id] != db.tasks[id]|
            && CountersOf(db, closings.Keys).attempts ==
                 |set id | id in db.attempts && after.attempts[id] != db.attempts[id]|
            && CountersOf(db, closings.Keys).claims == |set id | id in db.claims && after.claims[id] != db.claims[id]|
            && again.Keys == closings.Keys
            && CloseRuns(after, again) == after
            && SummaryOf(after, again.Keys, |again|) == Summary(|closings.Keys|, 0, 0, 0, 0)
  {
    var closings := TerminalClosings(db.runs, ids, now);
    var after := CloseRuns(db, closings);
    var again := TerminalClosings(after.runs, ids, later);
    CloseRunsCleans(db, closings);
    CloseRunsChangesOpenRows(db, closings);
    assert again.Keys == closings.Keys;
    CloseCleanRuns(after, again);
    forall r | r in again ensures !LeftOpen(after, r) {
      assert OpenTasks(after.tasks, {r}) <= OpenTasks(after.tasks, again.Keys);
      assert OpenAttempts(after.attempts, {r}) <= OpenAttempts(after.attempts, again.Keys);
      assert OpenClaims(after.claims, {r}) <= OpenClaims(after.claims, again.Keys);
    }
    assert RunsLeftOpen(after, again.Keys) == {};
  }

  /** What a reconciliation reports: the runs it looked at, those of them that had something open, and how many tasks,
      attempts and claims it changed. */
  lemma SummaryCounts(db: Db, ids: seq<string>, now: int)
    ensures var closings := TerminalClosings(db.runs, ids, now);
            var s, after := SummaryOf(db, closings.Keys, |closings|), CloseRuns(db, closings);
            && s.runsScanned == |closings|
            && s.runsReconciled == |set r | r in closings && LeftOpen(db, r)|
            && s.tasks == |set id | id in db.tasks && after.tasks[id] != db.tasks[id]|
            && s.attempts == |set id | id in db.attempts && after.attempts[id] != db.attempts[id]|
            && s.claims == |set id | id in db.claims && after.claims[id] != db.claims[id]|
  {
    var closings := TerminalClosings(db.runs, ids, now);
    CloseRunsChangesOpenRows(db, closings);
    assert RunsLeftOpen(db, closings.Keys) == set r | r in closings && LeftOpen(db, r);
  }

  // ----- claims as rows -----

  function ClaimId(attemptId: string): string {
    "claim-" + attemptId
  }

  predicate HasActiveClaim(claims: map<string, Claim>, taskId: string, runId: string) {
    exists id :: id in claims && claims[id].taskId == taskId && claims[id].runId == runId && claims[id].status.Active?
  }

  /** A claim row is filed under its own id. */
  ghost predicate Keyed(claims: map<string, Claim>) {
    forall id :: id in claims ==> claims[id].claimId == id
  }

  function ClaimedAttempt(attempts: map<string, Attempt>, r: Request, now: int): Attempt {
    if r.attemptId in attempts
    then attempts[r.attemptId].(startedAt := Latest(Some(now), attempts[r.attemptId].startedAt),
        status := TaskStatus.Claimed)
    else Attempt(r.taskId, r.runId, TaskStatus.Claimed, Some(now), None, None)
  }

  /** `claim_task`: one active claim per task and run; an attempt that was claimed before gets its old row back. */
  function GrantClaim(db: Db, r: Request, now: int): (Db, Outcome) {
    var id := ClaimId(r.attemptId);
    if HasActiveClaim(db.claims, r.taskId, r.runId) then (db, Refused(AlreadyActive))
    else if id in db.claims then (db, Granted(db.claims[id]))
    else
      (db.(claims := db.claims[id := NewClaim(id, r, now)],
           attempts := db.attempts[r.attemptId := ClaimedAttempt(db.attempts, r, now)],
           tasks := if r.taskId in db.tasks
             then db.tasks[r.taskId := db.tasks[r.taskId].(status := TaskStatus.Claimed)] else db.tasks),
       Granted(NewClaim(id, r, now)))
  }

  function HeartbeatRow(claims: map<string, Claim>, id: string, now: int): (map<string, Claim>, Outcome) {
    if id !in claims then (claims, Refused(UnknownClaim))
    else if !claims[id].status.Active? then (claims, Refused(NotActive))
    else (claims[id := claims[id].(heartbeatAt := now)], Granted(claims[id].(heartbeatAt := now)))
  }

  function ReleaseRow(claims: map<string, Claim>, id: string, now: int): (map<string, Claim>, Outcome) {
    if id !in claims then (claims, Refused(UnknownClaim))
    else
      var released := claims[id].(status := ClaimStatus.Released, releasedAt := Some(now));
      (claims[id := released], Granted(released))
  }

  function SweptIds(claims: map<string, Claim>, sweep: Sweep): set<string> {
    set id | id in claims && Sweeps(claims[id], sweep)
  }

  function TasksOf(claims: map<string, Claim>, ids: set<string>): set<string> {
    set id | id in ids && id in claims :: claims[id].taskId
  }

  function AttemptsOf(claims: map<string, Claim>, ids: set<string>): set<string> {
    set id | id in ids && id in claims :: claims[id].attemptId
  }

  function TakenBackRows(claims: map<string, Claim>, ids: set<string>, now: int): map<string, Claim> {
    map id | id in claims :: if id in ids then TakenBack(claims[id], now) else claims[id]
  }

  /** Taking back some claims: their rows, and the rows of their tasks and attempts. */
  function TakeBack(db: Db, ids: set<string>, now: int): Db {
    db.(
    claims := TakenBackRows(db.claims, ids, now),
    tasks := map id | id in db.tasks ::
      if id in TasksOf(db.claims, ids) then db.tasks[id].(status := TaskStatus.Reclaimed) else db.tasks[id],
    attempts := map id | id in db.attempts ::
      if id in AttemptsOf(db.claims, ids) then db.attempts[id].(status := TaskStatus.Reclaimed, endedAt := Some(now))
      else db.attempts[id])
  }

  /** `reclaim_stale_claims` on the tables. */
  function SweptDb(db: Db, sweep: Sweep): Db {
    TakeBack(db, SweptIds(db.claims, sweep), sweep.now)
  }

  /** At most one active claim for a task of a run. */
  ghost predicate OneActive(claims: map<string, Claim>) {
    forall a, b ::
      (&& a in claims && b in claims && claims[a].status.Active? && claims[b].status.Active?
       && claims[a].taskId == claims[b].taskId && claims[a].runId == claims[b].runId) ==> a == b
  }

  /** Every claim active afterwards was active before, for the same task and run. */
  ghost predicate NoNewActive(before: map<string, Claim>, after: map<string, Claim>) {
    forall id :: id in after && after[id].status.Active? ==>
      id in before && before[id].status.Active? && before[id].taskId == after[id].taskId
          && before[id].runId == after[id].runId
  }

  lemma FewerActive(before: map<string, Claim>, after: map<string, Claim>)
    requires OneActive(before) && NoNewActive(before, after)
    ensures OneActive(after)
  {
  }

  /** The sessions that write the tables. */
  datatype Session =
    | Claiming(request: Request, now: int)
    | Heartbeating(id: string, now: int)
    | Releasing(id: string, now: int)
    | Sweeping(sweep: Sweep)
    | Transitioning(runId: string, target: WorkflowRunStatus, now: int)
    | Writing(write: TaskWrite, now: int)
    | EnsuringRun(runId: string, name: Option<string>)
    | EnsuringTask(task: TaskEntry)
    | EnsuringAttempt(attempt: AttemptEntry)
    | Reconciling(ids: seq<string>, now: int)
    | Appending(event: Event)

  function Commit(db: Db, s: Session): Db {
    match s
    case Claiming(r, now) => GrantClaim(db, r, now).0
    case Heartbeating(id, now) => db.(claims := HeartbeatRow(db.claims, id, now).0)
    case Releasing(id, now) => db.(claims := ReleaseRow(db.claims, id, now).0)
    case Sweeping(sweep) => SweptDb(db, sweep)
    case Transitioning(runId, target, now) => Transitioned(db, runId, target, now)
    case Writing(w, now) => TaskTransitioned(db, w, now)
    case EnsuringRun(runId, name) => db.(runs := EnsuredRuns(db.runs, runId, name))
    case EnsuringTask(t) => db.(tasks := EnsuredTasks(db.tasks, t))
    case EnsuringAttempt(a) => db.(attempts := EnsuredAttempts(db.attempts, a))
    case Reconciling(ids, now) => CloseRuns(db, TerminalClosings(db.runs, ids, now))
    case Appending(e) => Appended(db, e)
  }

  function CommitAll(db: Db, sessions: seq<Session>): Db {
    if sessions == [] then db else Commit(CommitAll(db, sessions[..|sessions| - 1]), sessions[|sessions| - 1])
  }

  lemma SweepActivatesNone(db: Db, sweep: Sweep)
    ensures NoNewActive(db.claims, SweptDb(db, sweep).claims)
  {
  }

  lemma CloseActivatesNone(claims: map<string, Claim>, closings: map<string, Closing>)
    ensures NoNewActive(claims, CloseClaims(claims, closings))
  {
  }

  lemma GrantKeepsOneActive(db: Db, r: Request, now: int)
    requires OneActive(db.claims)
    ensures OneActive(GrantClaim(db, r, now).0.claims)
  {
  }

  /** Only a claim session makes a claim active. */
  lemma CommitActivatesNone(db: Db, s: Session)
    requires !s.Claiming?
    ensures NoNewActive(db.claims, Commit(db, s).claims)
  {
    match s
    case Sweeping(sweep) => SweepActivatesNone(db, sweep);
    case Transitioning(runId, target, now) => CloseActivatesNone(db.claims, map[runId := Closing(target, now)]);
    case Reconciling(ids, now) => CloseActivatesNone(db.claims, TerminalClosings(db.runs, ids, now));
    case Appending(e) => CloseActivatesNone(db.claims, ClosingsOf(e));
    case Releasing(_, _) =>
    case Heartbeating(_, _) =>
    case Writing(_, _) =>
    case EnsuringRun(_, _) =>
    case EnsuringTask(_) =>
    case EnsuringAttempt(_) =>
  }

  lemma CommitKeepsOneActive(db: Db, s: Session)
    requires OneActive(db.claims)
    ensures OneActive(Commit(db, s).claims)
  {
    if s.Claiming? {
      GrantKeepsOneActive(db, s.request, s.now);
    } else {
      CommitActivatesNone(db, s);
      FewerActive(db.claims, Commit(db, s).claims);
    }
  }

  /** The table form needs no discipline from its callers: over any sequence of sessions, releases of claims that
      are no longer active included, a task of a run never has two active claims. */
  lemma {:induction false} TablesKeepOneActive(db: Db, sessions: seq<Session>)
    requires OneActive(db.claims)
    ensures OneActive(CommitAll(db, sessions).claims)
  {
    if sessions != [] {
      TablesKeepOneActive(db, sessions[..|sessions| - 1]);
      CommitKeepsOneActive(CommitAll(db, sessions[..|sessions| - 1]), sessions[|sessions| - 1]);
    }
  }

  /** Every claim row stays filed under its own id. */
  lemma CommitKeepsKeyed(db: Db, s: Session)
    requires Keyed(db.claims)
    ensures Keyed(Commit(db, s).claims)
  {
  }

  lemma {:induction false} TablesKeepKeyed(db: Db, sessions: seq<Session>)
    requires Keyed(db.claims)
    ensures Keyed(CommitAll(db, sessions).claims)
  {
    if sessions != [] {
      TablesKeepKeyed(db, sessions[..|sessions| - 1]);
      CommitKeepsKeyed(CommitAll(db, sessions[..|sessions| - 1]), sessions[|sessions| - 1]);
    }
  }

  // ----- the service as it runs -----

  class RuntimePersistenceService {
    var runs: map<string, Run>
    var tasks: map<string, Task>
    var attempts: map<string, Attempt>
    var claims: map<string, Claim>
    var log: seq<Event>

    ghost function Contents(): Db
      reads this
    {
      Db(runs, tasks, attempts, claims, log)
    }

    constructor ()
      ensures Contents() == Db(map[], map[], map[], map[], [])
    {
      runs, tasks, attempts, claims, log := map[], map[], map[], map[], [];
    }

    method EnsureWorkflowRun(runId: string, name: Option<string>)
      modifies this`runs
      ensures runs == EnsuredRuns(old(runs), runId, name)
    {
      if runId !in runs {
        var effective := if Truthy(name) then name.value else "runtime.unknown";
        runs := runs[runId := Run(effective, WorkflowRunStatus.Created, None, None)];
      } else if Truthy(name) {
        runs := runs[runId := runs[runId].(name := name.value)];
      }
    }

    method EnsureTask(t: TaskEntry)
      modifies this`tasks
      ensures tasks == EnsuredTasks(old(tasks), t)
    {
      if t.taskId !in tasks {
        tasks := tasks[t.taskId := Task(t.runId, t.title, TaskStatus.Queued, None, t.executorSummary, None)];
      } else {
        tasks := tasks[t.taskId := tasks[t.taskId].(title := t.title)];
        tasks := tasks[t.taskId := tasks[t.taskId].(executorSummary := t.executorSummary)];
      }
    }

    method EnsureAttempt(a: AttemptEntry)
      modifies this`attempts
      ensures attempts == EnsuredAttempts(old(attempts), a)
    {
      if a.attemptId !in attempts {
        attempts := attempts[a.attemptId := Attempt(a.taskId, a.runId, a.status, None, None, None)];
      } else {
        attempts := attempts[a.attemptId := attempts[a.attemptId].(status := a.status)];
      }
    }

    method FinalizeTasks(runId: string, c: Closing) returns (n: nat)
      modifies this`tasks
      ensures tasks == CloseTasks(old(tasks), map[runId := c])
      ensures n == |OpenTasks(old(tasks), {runId})|
    {
      var todo := OpenTasks(tasks, {runId});
      n := |todo|;
      while todo != {}
        invariant todo <= OpenTasks(old(tasks), {runId})
        invariant tasks == map id | id in old(tasks) ::
                    if id in todo then old(tasks)[id] else ClosedTask(old(tasks)[id], map[runId := c])
        decreases todo
      {
        var id :| id in todo;
        var task := tasks[id];
        task := task.(status := ClosingStatus(c.status));
        if task.completedAt.None? { task := task.(completedAt := Some(c.at)); }
        if task.blockedReason.None? { task := task.(blockedReason := Some(ClosingReason(c.status))); }
        tasks := tasks[id := task];
        todo := todo - {id};
      }
    }

    method FinalizeAttempts(runId: string, c: Closing) returns (n: nat)
      modifies this`attempts
      ensures attempts == CloseAttempts(old(attempts), map[runId := c])
      ensures n == |OpenAttempts(old(attempts), {runId})|
    {
      var todo := OpenAttempts(attempts, {runId});
      n := |todo|;
      while todo != {}
        invariant todo <= OpenAttempts(old(attempts), {runId})
        invariant attempts == map id | id in old(attempts) ::
                    if id in todo then old(attempts)[id] else ClosedAttempt(old(attempts)[id], map[runId := c])
        decreases todo
      {
        var id :| id in todo;
        var attempt := attempts[id].(status := ClosingStatus(c.status), closedBy := Some(c.status));
        if attempt.endedAt.None? { attempt := attempt.(endedAt := Some(c.at)); }
        attempts := attempts[id := attempt];
        todo := todo - {id};
      }
    }

    method FinalizeClaims(runId: string, c: Closing) returns (n: nat)
      modifies this`claims
      ensures claims == CloseClaims(old(claims), map[runId := c])
      ensures n == |OpenClaims(old(claims), {runId})|
    {
      var todo := OpenClaims(claims, {runId});
      n := |todo|;
      while todo != {}
        invariant todo <= OpenClaims(old(claims), {runId})
        invariant claims == map id | id in old(claims) ::
                    if id in todo then old(claims)[id] else ClosedClaim(old(claims)[id], map[runId := c])
        decreases todo
      {
        var id :| id in todo;
        var claim := claims[id].(status := ClaimStatus.Reclaimed);
        if claim.reclaimedAt.None? { claim := claim.(reclaimedAt := Some(c.at)); }
        if claim.expiredAt.None? { claim := claim.(expiredAt := Some(c.at)); }
        claims := claims[id := claim];
        todo := todo - {id};
      }
    }

    /** Close what a terminal run left open, and count the rows changed. */
    method FinalizeInflight(runId: string, c: Closing) returns (counters: Counters)
      modifies this`tasks, this`attempts, this`claims
      ensures Contents() == CloseRuns(old(Contents()), map[runId := c])
      ensures counters == CountersOf(old(Contents()), {runId})
    {
      var t := FinalizeTasks(runId, c);
      var a := FinalizeAttempts(runId, c);
      var k := FinalizeClaims(runId, c);
      counters := Counters(t, a, k);
    }

    method FindByKey(key: string) returns (found: Option<Event>)
      ensures found.Some? <==> KeyIn(log, key)
      ensures found.Some? ==> found.value in log && found.value.key == key
    {
      for i := 0 to |log|
        invariant forall j :: 0 <= j < i ==> log[j].key != key
      {
        if log[i].key == key { return Some(log[i]); }
      }
      found := None;
    }

    method EnsureMinimumRecords(e: Event)
      modifies this`runs, this`tasks, this`attempts
      ensures runs == MinimumRuns(old(runs), e)
      ensures tasks == MinimumTasks(old(tasks), e)
      ensures attempts == MinimumAttempts(old(attempts), e)
    {
      if e.runId !in runs {
        var name := if Truthy(e.payload.workflowName) then e.payload.workflowName.value else "runtime.unknown";
        runs := runs[e.runId := Run(name, WorkflowRunStatus.Created, None, None)];
      }
      if e.taskId.Some? && e.taskId.value !in tasks {
        var title := if Truthy(e.payload.taskTitle) then e.payload.taskTitle.value else e.taskId.value;
        tasks := tasks[e.taskId.value :=
            Task(e.runId, title, TaskStatus.Queued, None, e.payload.executorSummary, None)];
      }
      if e.attemptId.Some? && e.taskId.Some? && e.attemptId.value !in attempts {
        attempts := attempts[e.attemptId.value :=
            Attempt(e.taskId.value, e.runId, TaskStatus.Queued, None, None, None)];
      }
    }

    method ApplyEventSideEffects(e: Event)
      requires e.runId in runs
      modifies this`runs, this`tasks, this`attempts, this`claims
      ensures runs == old(runs)[e.runId := RunEffect(old(runs)[e.runId], e)]
      ensures tasks == TouchTasks(CloseTasks(old(tasks), ClosingsOf(e)), e)
      ensures attempts == TouchAttempts(CloseAttempts(old(attempts), ClosingsOf(e)), e)
      ensures claims == CloseClaims(old(claims), ClosingsOf(e))
    {
      runs := runs[e.runId := RunEffect(runs[e.runId], e)];
      FinalizeIfOver(e);
      TouchRows(e);
    }

    method FinalizeIfOver(e: Event)
      modifies this`tasks, this`attempts, this`claims
      ensures tasks == CloseTasks(old(tasks), ClosingsOf(e))
      ensures attempts == CloseAttempts(old(attempts), ClosingsOf(e))
      ensures claims == CloseClaims(old(claims), ClosingsOf(e))
    {
      CloseNothing(tasks, attempts, claims);
      if EndsRun(e) {
        var status := if e.eventType.WorkflowFailed? then WorkflowRunStatus.Failed else WorkflowRunStatus.Completed;
        var _ := FinalizeInflight(e.runId, Closing(status, e.occurredAt));
      }
    }

    method TouchRows(e: Event)
      modifies this`tasks, this`attempts
      ensures tasks == TouchTasks(old(tasks), e) && attempts == TouchAttempts(old(attempts), e)
    {
      if e.taskId.Some? && e.taskId.value in tasks {
        tasks := tasks[e.taskId.value := TaskEffect(tasks[e.taskId.value], e)];
      }
      if e.attemptId.Some? && e.attemptId.value in attempts {
        attempts := attempts[e.attemptId.value := AttemptEffect(attempts[e.attemptId.value], e)];
      }
    }

    /** Rows are created before the sequence is checked; a refused event rolls them back. */
    method AppendEvent(e: Event) returns (result: AppendResult)
      modifies this
      ensures Contents() == Appended(old(Contents()), e)
      ensures result.Stored? <==> Accepts(old(log), e)
      ensures result.Existing? <==> KeyIn(old(log), e.key)
      ensures result.Stored? ==> result.event == e
      ensures result.Existing? ==> result.event in old(log) && result.event.key == e.key
      ensures result.WrongSequence? ==> result.expected == |RunLog(old(log), e.runId)| + 1 && result.got == e.sequence
    {
      var existing := FindByKey(e.key);
      if existing.Some? { return Existing(existing.value); }
      var savedRuns, savedTasks, savedAttempts := runs, tasks, attempts;
      EnsureMinimumRecords(e);
      var expected := |RunLog(log, e.runId)| + 1;
      if e.sequence != expected {
        runs, tasks, attempts := savedRuns, savedTasks, savedAttempts;
        return WrongSequence(expected, e.sequence);
      }
      ApplyEventSideEffects(e);
      log := log + [e];
      result := Stored(e);
    }

    method TransitionWorkflowStatus(runId: string, target: WorkflowRunStatus, now: int)
      modifies this`runs, this`tasks, this`attempts, this`claims
      ensures Contents() == Transitioned(old(Contents()), runId, target, now)
    {
      if runId !in runs { return; }
      runs := runs[runId := runs[runId].(status := target)];
      if target.Running? && runs[runId].startedAt.None? {
        runs := runs[runId := runs[runId].(startedAt := Some(now))];
      }
      if TerminalRun(target) {
        runs := runs[runId := runs[runId].(completedAt := Some(now))];
        var _ := FinalizeInflight(runId, Closing(target, now));
      }
    }

    method TransitionTaskStatus(w: TaskWrite, now: int)
      modifies this`tasks, this`attempts
      ensures Contents() == TaskTransitioned(old(Contents()), w, now)
    {
      if w.taskId in tasks {
        var task := tasks[w.taskId].(status := w.target);
        if w.reason.Some? { task := task.(blockedReason := w.reason); }
        if TerminalTask(w.target) { task := task.(completedAt := Some(now)); }
        tasks := tasks[w.taskId := task];
      }
      if Truthy(w.attemptId) && w.attemptId.value in attempts {
        var attempt := attempts[w.attemptId.value];
        if attempt.startedAt.None? { attempt := attempt.(startedAt := Some(now)); }
        attempt := attempt.(status := w.target);
        if TerminalTask(w.target) { attempt := attempt.(endedAt := Some(now)); }
        attempts := attempts[w.attemptId.value := attempt];
      }
    }

    /** One run of the reconciliation. */
    method ReconcileRun(runId: string, c: Closing, summary: Summary) returns (updated: Summary)
      modifies this`tasks, this`attempts, this`claims
      ensures Contents() == CloseRuns(old(Contents()), map[runId := c])
      ensures updated == AddRun(summary, CountersOf(old(Contents()), {runId}))
    {
      var counters := FinalizeInflight(runId, c);
      updated := summary;
      if counters.tasks > 0 || counters.attempts > 0 || counters.claims > 0 {
        updated := updated.(runsReconciled := updated.runsReconciled + 1);
      }
      updated := Summary(updated.runsScanned, updated.runsReconciled, updated.tasks + counters.tasks,
                         updated.attempts + counters.attempts, updated.claims + counters.claims);
    }

    /** Runs are visited in whatever order the query returns them. */
    method ReconcileTerminalRuns(ids: seq<string>, now: int) returns (summary: Summary)
      modifies this`tasks, this`attempts, this`claims
      ensures Contents() == CloseRuns(old(Contents()), TerminalClosings(runs, ids, now))
      ensures var closings := TerminalClosings(runs, ids, now);
              summary == SummaryOf(old(Contents()), closings.Keys, |closings|)
    {
      ghost var before := Contents();
      ghost var done: map<string, Closing> := map[];
      var closings := TerminalClosings(runs, ids, now);
      var todo := closings.Keys;
      summary := Summary(|closings|, 0, 0, 0, 0);
      CloseNothing(tasks, attempts, claims);
      while todo != {}
        invariant Visited(closings, done, todo)
        invariant Contents() == CloseRuns(before, done)
        invariant summary == SummaryOf(before, done.Keys, |closings|)
        decreases todo
      {
        var runId :| runId in todo;
        ReconcileStep(before, done, runId, closings[runId], |closings|);
        VisitedOneMore(closings, done, todo, runId);
        summary := ReconcileRun(runId, closings[runId], summary);
        done, todo := done[runId := closings[runId]], todo - {runId};
      }
      VisitedAll(closings, done);
    }

    method ClaimTask(r: Request, now: int) returns (outcome: Outcome)
      modifies this`tasks, this`attempts, this`claims
      ensures (Contents(), outcome) == GrantClaim(old(Contents()), r, now)
    {
      if HasActiveClaim(claims, r.taskId, r.runId) { return Refused(AlreadyActive); }
      var id := ClaimId(r.attemptId);
      if id in claims { return Granted(claims[id]); }
      if r.attemptId !in attempts {
        attempts := attempts[r.attemptId := Attempt(r.taskId, r.runId, TaskStatus.Claimed, Some(now), None, None)];
      } else {
        var attempt := attempts[r.attemptId];
        if attempt.startedAt.None? { attempt := attempt.(startedAt := Some(now)); }
        attempts := attempts[r.attemptId := attempt.(status := TaskStatus.Claimed)];
      }
      claims := claims[id := NewClaim(id, r, now)];
      if r.taskId in tasks {
        tasks := tasks[r.taskId := tasks[r.taskId].(status := TaskStatus.Claimed)];
      }
      outcome := Granted(claims[id]);
    }

    method HeartbeatClaim(id: string, now: int) returns (outcome: Outcome)
      modifies this`claims
      ensures (claims, outcome) == HeartbeatRow(old(claims), id, now)
    {
      if id !in claims { return Refused(UnknownClaim); }
      if !claims[id].status.Active? { return Refused(NotActive); }
      claims := claims[id := claims[id].(heartbeatAt := now)];
      outcome := Granted(claims[id]);
    }

    method ReleaseClaim(id: string, now: int) returns (outcome: Outcome)
      modifies this`claims
      ensures (claims, outcome) == ReleaseRow(old(claims), id, now)
    {
      if id !in claims { return Refused(UnknownClaim); }
      claims := claims[id := claims[id].(status := ClaimStatus.Released, releasedAt := Some(now))];
      outcome := Granted(claims[id]);
    }

    /** One stale claim: its row, its task's row and its attempt's row. */
    method TakeBackClaim(id: string, now: int)
      requires id in claims
      modifies this`tasks, this`attempts, this`claims
      ensures var c := old(claims[id]);
              && claims == old(claims)[id := TakenBack(c, now)]
              && tasks == (if c.taskId in old(tasks)
                   then old(tasks)[c.taskId := old(tasks)[c.taskId].(status := TaskStatus.Reclaimed)] else old(tasks))
              && attempts == (if c.attemptId in old(attempts)
                   then old(attempts)[c.attemptId :=
                       old(attempts)[c.attemptId].(status := TaskStatus.Reclaimed, endedAt := Some(now))]
                   else old(attempts))
    {
      var claim := claims[id];
      claims := claims[id := claim.(status := ClaimStatus.Reclaimed, expiredAt := Some(now), reclaimedAt := Some(now))];
      if claim.taskId in tasks {
        tasks := tasks[claim.taskId := tasks[claim.taskId].(status := TaskStatus.Reclaimed)];
      }
      if claim.attemptId in attempts {
        attempts := attempts[claim.attemptId :=
            attempts[claim.attemptId].(status := TaskStatus.Reclaimed, endedAt := Some(now))];
      }
    }

    /** The swept claims are returned once each, in whatever order the query returns them. */
    method ReclaimStaleClaims(runId: string, forced: set<string>, now: int) returns (reclaimed: seq<Claim>)
      requires Keyed(claims)
      modifies this`tasks, this`attempts, this`claims
      ensures Contents() == SweptDb(old(Contents()), Sweep(Some(runId), forced, now))
      ensures Lists(reclaimed, claims, SweptIds(old(claims), Sweep(Some(runId), forced, now)))
    {
      ghost var before := Contents();
      ghost var done: set<string> := {};
      var todo := SweptIds(claims, Sweep(Some(runId), forced, now));
      reclaimed := [];
      TakeBackNothing(before, now);
      while todo != {}
        invariant done !! todo && done + todo == SweptIds(before.claims, Sweep(Some(runId), forced, now))
        invariant Contents() == TakeBack(before, done, now)
        invariant Lists(reclaimed, claims, done)
        decreases todo
      {
        var id :| id in todo;
        TakeBackOneMore(before, done, id, now);
        ghost var claimsBefore := claims;
        TakeBackClaim(id, now);
        ListsOneMore(reclaimed, claimsBefore, claims, done, id);
        reclaimed := reclaimed + [claims[id]];
        done, todo := done + {id}, todo - {id};
      }
    }

    method ScanAllStaleClaims(now: int) returns (stale: seq<Claim>)
      requires Keyed(claims)
      ensures Lists(stale, claims, SweptIds(claims, Sweep(None, {}, now)))
    {
      ghost var done: set<string> := {};
      var todo := SweptIds(claims, Sweep(None, {}, now));
      stale := [];
      while todo != {}
        invariant done !! todo && done + todo == SweptIds(claims, Sweep(None, {}, now))
        invariant Lists(stale, claims, done)
        decreases todo
      {
        var id :| id in todo;
        ListsOneMore(stale, claims, claims, done, id);
        stale := stale + [claims[id]];
        done, todo := done + {id}, todo - {id};
      }
    }
  }

  /** The list holds the current rows of these ids, each once. */
  ghost predicate Lists(list: seq<Claim>, claims: map<string, Claim>, ids: set<string>) {
    && (forall i :: 0 <= i < |list| ==> list[i].claimId in ids && Lookup(claims, list[i].claimId) == Some(list[i]))
    && (forall i, j :: 0 <= i < j < |list| ==> list[i].claimId != list[j].claimId)
    && (forall id :: id in ids ==> exists i :: 0 <= i < |list| && list[i].claimId == id)
  }

  lemma ListsOneMore(list: seq<Claim>, before: map<string, Claim>, after: map<string, Claim>, ids: set<string>,
      id: string)
    requires Lists(list, before, ids) && id !in ids
    requires id in after && after[id].claimId == id && forall j :: j in ids ==> Lookup(after, j) == Lookup(before, j)
    ensures Lists(list + [after[id]], after, ids + {id})
  {
    var more := list + [after[id]];
    forall j | j in ids + {id} ensures exists i :: 0 <= i < |more| && more[i].claimId == j {
      if j == id {
        assert more[|list|].claimId == id;
      } else {
        var i :| 0 <= i < |list| && list[i].claimId == j;
        assert more[i].claimId == j;
      }
    }
  }

  lemma TakeBackNothing(db: Db, now: int)
    ensures TakeBack(db, {}, now) == db
  {
    assert TasksOf(db.claims, {}) == {} && AttemptsOf(db.claims, {}) == {};
    assert TakeBack(db, {}, now).claims == db.claims;
    assert TakeBack(db, {}, now).tasks == db.tasks;
    assert TakeBack(db, {}, now).attempts == db.attempts;
  }

  lemma TakeBackOneMore(db: Db, ids: set<string>, id: string, now: int)
    requires id in db.claims && id !in ids
    ensures var before, after := TakeBack(db, ids, now), TakeBack(db, ids + {id}, now);
            var c := db.claims[id];
            && before.claims[id] == c
            && after.claims == before.claims[id := TakenBack(c, now)]
            && after.tasks == (if c.taskId in before.tasks
                 then before.tasks[c.taskId := before.tasks[c.taskId].(status := TaskStatus.Reclaimed)]
                     else before.tasks)
            && after.attempts == (if c.attemptId in before.attempts
                 then before.attempts[c.attemptId :=
                     before.attempts[c.attemptId].(status := TaskStatus.Reclaimed, endedAt := Some(now))]
                 else before.attempts)
  {
    assert TasksOf(db.claims, ids + {id}) == TasksOf(db.claims, ids) + {db.claims[id].taskId};
    assert AttemptsOf(db.claims, ids + {id}) == AttemptsOf(db.claims, ids) + {db.claims[id].attemptId};
  }

  lemma CloseNothing(tasks: map<string, Task>, attempts: map<string, Attempt>, claims: map<string, Claim>)
    ensures CloseTasks(tasks, map[]) == tasks && CloseAttempts(attempts, map[]) == attempts
            && CloseClaims(claims, map[]) == claims
  {
  }
}
