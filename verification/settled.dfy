/** Terminal runs stay settled: nothing of a run that is over is in flight or holds a lease. The main result says
    exactly which sessions break this, over any sequence of sessions. */
module SettledRuns {
  import opened Common
  import opened RuntimeContracts
  import opened Events
  import opened EventStore
  import opened Leases
  import opened RuntimePersistence

  predicate Over(runs: map<string, Run>, runId: string) {
    runId in runs && TerminalRun(runs[runId].status)
  }

  ghost predicate SettledTasks(runs: map<string, Run>, tasks: map<string, Task>) {
    forall id :: id in tasks && InFlight(tasks[id].status) ==> !Over(runs, tasks[id].runId)
  }

  ghost predicate SettledAttempts(runs: map<string, Run>, attempts: map<string, Attempt>) {
    forall id :: id in attempts && InFlight(attempts[id].status) ==> !Over(runs, attempts[id].runId)
  }

  ghost predicate SettledClaims(runs: map<string, Run>, claims: map<string, Claim>) {
    forall id :: id in claims && claims[id].status.Active? ==> !Over(runs, claims[id].runId)
  }

  ghost predicate Settled(db: Db) {
    SettledTasks(db.runs, db.tasks) && SettledAttempts(db.runs, db.attempts) && SettledClaims(db.runs, db.claims)
  }

  /** The tables are settled when every run that is over is clean. */
  lemma SettledMeansClean(db: Db)
    ensures Settled(db) <==> forall r :: Over(db.runs, r) ==> Clean(db, {r})
  {
    forall r | Over(db.runs, r) && Settled(db) ensures Clean(db, {r}) {}
    if forall r :: Over(db.runs, r) ==> Clean(db, {r}) {
      forall id | id in db.tasks && Over(db.runs, db.tasks[id].runId) ensures !InFlight(db.tasks[id].status) {
        assert id !in OpenTasks(db.tasks, {db.tasks[id].runId});
      }
      forall id | id in db.attempts && Over(db.runs, db.attempts[id].runId) ensures !InFlight(db.attempts[id].status) {
        assert id !in OpenAttempts(db.attempts, {db.attempts[id].runId});
      }
      forall id | id in db.claims && Over(db.runs, db.claims[id].runId) ensures !db.claims[id].status.Active? {
        assert id !in OpenClaims(db.claims, {db.claims[id].runId});
      }
    }
  }

  // ----- the sessions that unsettle -----

  /** A new claim for a run that is over, or whose attempt or task belongs to one. */
  predicate ClaimsInOverRun(db: Db, r: Request) {
    && !HasActiveClaim(db.claims, r.taskId, r.runId) && ClaimId(r.attemptId) !in db.claims
    && (|| Over(db.runs, r.runId)
        || (r.attemptId in db.attempts && Over(db.runs, db.attempts[r.attemptId].runId))
        || (r.taskId in db.tasks && Over(db.runs, db.tasks[r.taskId].runId)))
  }

  predicate Restarts(e: Event) {
    e.eventType.WorkflowStarted? || e.eventType.WorkflowRetrying? || e.eventType.WorkflowWaitingApproval?
  }

  /** The run is over once the event is in. */
  predicate OverOnce(runs: map<string, Run>, e: Event, runId: string) {
    if runId == e.runId then EndsRun(e) || (Over(runs, runId) && !Restarts(e)) else Over(runs, runId)
  }

  /** The row the event writes ends up in flight: the event says so, or creates it and says nothing, and does not
      close it either. */
  predicate LeavesInFlight(e: Event, isNew: bool) {
    CarriesInFlight(e) || (StatusFromEvent(e).None? && isNew && !EndsRun(e))
  }

  predicate OpensTask(db: Db, e: Event) {
    && e.taskId.Some?
    && var id := e.taskId.value;
       && OverOnce(db.runs, e, if id in db.tasks then db.tasks[id].runId else e.runId)
       && LeavesInFlight(e, id !in db.tasks)
  }

  predicate OpensAttempt(db: Db, e: Event) {
    && e.attemptId.Some?
    && var id := e.attemptId.value;
       && (id in db.attempts || e.taskId.Some?)
       && OverOnce(db.runs, e, if id in db.attempts then db.attempts[id].runId else e.runId)
       && LeavesInFlight(e, id !in db.attempts)
  }

  /** A status in flight for a task or an attempt of a run that is over. */
  predicate WritesInOverRun(db: Db, w: TaskWrite) {
    && InFlight(w.target)
    && (|| (w.taskId in db.tasks && Over(db.runs, db.tasks[w.taskId].runId))
        || (Truthy(w.attemptId) && w.attemptId.value in db.attempts
            && Over(db.runs, db.attempts[w.attemptId.value].runId)))
  }

  predicate Unsettles(db: Db, s: Session) {
    match s
    case Writing(w, _) => WritesInOverRun(db, w)
    case EnsuringRun(_, _) => false
    case EnsuringTask(t) => t.taskId !in db.tasks && Over(db.runs, t.runId)
    case EnsuringAttempt(a) =>
      InFlight(a.status)
      && Over(db.runs, if a.attemptId in db.attempts then db.attempts[a.attemptId].runId else a.runId)
    case Claiming(r, _) => ClaimsInOverRun(db, r)
    case Appending(e) => Accepts(db.log, e) && (OpensTask(db, e) || OpensAttempt(db, e))
    case Heartbeating(_, _) => false
    case Releasing(_, _) => false
    case Sweeping(_) => false
    case Transitioning(_, _, _) => false
    case Reconciling(_, _) => false
  }

  // ----- session by session -----

  lemma ClaimSettledExactly(db: Db, r: Request, now: int)
    requires Settled(db)
    ensures Settled(GrantClaim(db, r, now).0) <==> !ClaimsInOverRun(db, r)
  {
    var after := GrantClaim(db, r, now).0;
    if ClaimsInOverRun(db, r) {
      if Over(db.runs, r.runId) {
        assert ClaimId(r.attemptId) in after.claims && after.claims[ClaimId(r.attemptId)].status.Active?;
      } else if r.taskId in db.tasks && Over(db.runs, db.tasks[r.taskId].runId) {
        assert r.taskId in after.tasks && InFlight(after.tasks[r.taskId].status);
      } else {
        assert r.attemptId in after.attempts && InFlight(after.attempts[r.attemptId].status);
      }
    }
  }

  lemma WriteSettledExactly(db: Db, w: TaskWrite, now: int)
    requires Settled(db)
    ensures Settled(TaskTransitioned(db, w, now)) <==> !WritesInOverRun(db, w)
  {
    var after := TaskTransitioned(db, w, now);
    if WritesInOverRun(db, w) {
      if w.taskId in db.tasks && Over(db.runs, db.tasks[w.taskId].runId) {
        assert w.taskId in after.tasks && InFlight(after.tasks[w.taskId].status);
      } else {
        assert w.attemptId.value in after.attempts && InFlight(after.attempts[w.attemptId.value].status);
      }
    }
  }

  lemma EnsureSettledExactly(db: Db, s: Session)
    requires Settled(db) && (s.EnsuringRun? || s.EnsuringTask? || s.EnsuringAttempt?)
    ensures Settled(Commit(db, s)) <==> !Unsettles(db, s)
  {
    var after := Commit(db, s);
    if s.EnsuringRun? {
      FewerOver(db, after.runs);
    } else if s.EnsuringTask? && Unsettles(db, s) {
      assert s.task.taskId in after.tasks && InFlight(after.tasks[s.task.taskId].status);
    } else if s.EnsuringAttempt? && Unsettles(db, s) {
      assert s.attempt.attemptId in after.attempts && InFlight(after.attempts[s.attempt.attemptId].status);
    }
  }

  lemma SweepKeepsSettled(db: Db, sweep: Sweep)
    requires Settled(db)
    ensures Settled(SweptDb(db, sweep))
  {
  }

  /** No run is over that was not before. */
  lemma FewerOver(db: Db, runs: map<string, Run>)
    requires Settled(db) && forall r :: Over(runs, r) ==> Over(db.runs, r)
    ensures Settled(db.(runs := runs))
  {
  }

  /** A run that has become over is settled by closing it. */
  lemma ClosedRunSettled(db: Db, runs: map<string, Run>, runId: string, c: Closing)
    requires Settled(db) && forall r :: r != runId && Over(runs, r) ==> Over(db.runs, r)
    ensures Settled(CloseRuns(db.(runs := runs), map[runId := c]))
  {
  }

  lemma TransitionKeepsSettled(db: Db, runId: string, target: WorkflowRunStatus, now: int)
    requires Settled(db)
    ensures Settled(Transitioned(db, runId, target, now))
  {
    var runs := Transitioned(db, runId, target, now).runs;
    if runId in db.runs && TerminalRun(target) {
      ClosedRunSettled(db, runs, runId, Closing(target, now));
    } else {
      FewerOver(db, runs);
    }
  }

  /** Closing runs opens nothing. */
  lemma CloseKeepsSettled(db: Db, closings: map<string, Closing>)
    requires Settled(db)
    ensures Settled(CloseRuns(db, closings))
  {
  }

  /** Whatever the tables hold, a reconciliation of all runs settles them. */
  lemma ReconcileSettles(db: Db, now: int)
    ensures Settled(Commit(db, Reconciling([], now)))
  {
  }

  lemma OverAfterAppend(db: Db, e: Event, runId: string)
    requires Accepts(db.log, e)
    ensures Over(Appended(db, e).runs, runId) <==> OverOnce(db.runs, e, runId)
  {
  }

  /** One task row before the event writes it: of a run that is over, it is in flight only when just created. */
  lemma TaskBeforeWrite(tasks: map<string, Task>, runs: map<string, Run>, e: Event, id: string)
    requires SettledTasks(runs, tasks) && id in MinimumTasks(tasks, e)
    ensures var closed := CloseTasks(MinimumTasks(tasks, e), ClosingsOf(e));
            && id in closed && closed[id].runId == (if id in tasks then tasks[id].runId else e.runId)
            && (OverOnce(runs, e, closed[id].runId) ==> (InFlight(closed[id].status) <==> id !in tasks && !EndsRun(e)))
  {
  }

  /** One task row after the event. */
  lemma TaskAfterWrite(tasks: map<string, Task>, runs: map<string, Run>, e: Event, id: string)
    requires SettledTasks(runs, tasks) && id in MinimumTasks(tasks, e)
    ensures var after := TouchTasks(CloseTasks(MinimumTasks(tasks, e), ClosingsOf(e)), e);
            && id in after
            && (InFlight(after[id].status) && OverOnce(runs, e, after[id].runId) <==>
                e.taskId == Some(id) && OverOnce(runs, e, if id in tasks then tasks[id].runId else e.runId)
                && LeavesInFlight(e, id !in tasks))
  {
    TaskBeforeWrite(tasks, runs, e, id);
  }

  lemma TasksSettledExactly(db: Db, e: Event)
    requires SettledTasks(db.runs, db.tasks) && Accepts(db.log, e)
    ensures SettledTasks(Appended(db, e).runs, Appended(db, e).tasks) <==> !OpensTask(db, e)
  {
    var runs, after := Appended(db, e).runs, Appended(db, e).tasks;
    forall id | id in after
      ensures InFlight(after[id].status) && Over(runs, after[id].runId) <==> e.taskId == Some(id) && OpensTask(db, e)
    {
      TaskAfterWrite(db.tasks, db.runs, e, id);
      OverAfterAppend(db, e, after[id].runId);
    }
  }

  /** One attempt row before the event writes it: of a run that is over, it is in flight only when just created. */
  lemma AttemptBeforeWrite(attempts: map<string, Attempt>, runs: map<string, Run>, e: Event, id: string)
    requires SettledAttempts(runs, attempts) && id in MinimumAttempts(attempts, e)
    ensures var closed := CloseAttempts(MinimumAttempts(attempts, e), ClosingsOf(e));
            && id in closed && closed[id].runId == (if id in attempts then attempts[id].runId else e.runId)
            && (OverOnce(runs, e, closed[id].runId) ==>
                (InFlight(closed[id].status) <==> id !in attempts && !EndsRun(e)))
  {
  }

  /** One attempt row after the event. */
  lemma AttemptAfterWrite(attempts: map<string, Attempt>, runs: map<string, Run>, e: Event, id: string)
    requires SettledAttempts(runs, attempts) && id in MinimumAttempts(attempts, e)
    ensures var after := TouchAttempts(CloseAttempts(MinimumAttempts(attempts, e), ClosingsOf(e)), e);
            && id in after
            && (InFlight(after[id].status) && OverOnce(runs, e, after[id].runId) <==>
                e.attemptId == Some(id) && OverOnce(runs, e, if id in attempts then attempts[id].runId else e.runId)
                && LeavesInFlight(e, id !in attempts))
  {
    AttemptBeforeWrite(attempts, runs, e, id);
  }

  lemma AttemptsSettledExactly(db: Db, e: Event)
    requires SettledAttempts(db.runs, db.attempts) && Accepts(db.log, e)
    ensures SettledAttempts(Appended(db, e).runs, Appended(db, e).attempts) <==> !OpensAttempt(db, e)
  {
    var runs, after := Appended(db, e).runs, Appended(db, e).attempts;
    forall id | id in after
      ensures InFlight(after[id].status) && Over(runs, after[id].runId) <==>
              e.attemptId == Some(id) && OpensAttempt(db, e)
    {
      AttemptAfterWrite(db.attempts, db.runs, e, id);
      OverAfterAppend(db, e, after[id].runId);
    }
  }

  lemma ClaimsStaySettled(db: Db, e: Event)
    requires SettledClaims(db.runs, db.claims) && Accepts(db.log, e)
    ensures SettledClaims(Appended(db, e).runs, Appended(db, e).claims)
  {
    forall r { OverAfterAppend(db, e, r); }
  }

  /** On settled tables, a session leaves them settled if and only if it is not one that unsettles. */
  lemma CommitSettledExactly(db: Db, s: Session)
    requires Settled(db)
    ensures Settled(Commit(db, s)) <==> !Unsettles(db, s)
  {
    match s
    case Claiming(r, now) => ClaimSettledExactly(db, r, now);
    case Writing(w, now) => WriteSettledExactly(db, w, now);
    case EnsuringRun(_, _) => EnsureSettledExactly(db, s);
    case EnsuringTask(_) => EnsureSettledExactly(db, s);
    case EnsuringAttempt(_) => EnsureSettledExactly(db, s);
    case Heartbeating(id, now) => assert Settled(Commit(db, s));
    case Releasing(id, now) => assert Settled(Commit(db, s));
    case Sweeping(sweep) => SweepKeepsSettled(db, sweep);
    case Transitioning(runId, target, now) => TransitionKeepsSettled(db, runId, target, now);
    case Reconciling(ids, now) => CloseKeepsSettled(db, TerminalClosings(db.runs, ids, now));
    case Appending(e) =>
      if Accepts(db.log, e) {
        TasksSettledExactly(db, e);
        AttemptsSettledExactly(db, e);
        ClaimsStaySettled(db, e);
      }
  }

  // ----- over any sequence of sessions -----

  predicate UnsettlesAt(db: Db, sessions: seq<Session>, i: nat)
    requires i < |sessions|
  {
    Unsettles(CommitAll(db, sessions[..i]), sessions[i])
  }

  ghost predicate SettledAt(db: Db, sessions: seq<Session>, n: nat)
    requires n <= |sessions|
  {
    Settled(CommitAll(db, sessions[..n]))
  }

  lemma SettledStep(db: Db, sessions: seq<Session>, i: nat)
    requires i < |sessions| && SettledAt(db, sessions, i)
    ensures SettledAt(db, sessions, i + 1) <==> !UnsettlesAt(db, sessions, i)
  {
    assert sessions[..i + 1][..i] == sessions[..i];
    CommitSettledExactly(CommitAll(db, sessions[..i]), sessions[i]);
  }

  lemma {:induction false} SettledSoFar(db: Db, sessions: seq<Session>, n: nat)
    requires Settled(db) && n <= |sessions|
    requires forall i :: 0 <= i < n ==> !UnsettlesAt(db, sessions, i)
    ensures SettledAt(db, sessions, n)
  {
    if n > 0 {
      SettledSoFar(db, sessions, n - 1);
      assert !UnsettlesAt(db, sessions, n - 1);
      SettledStep(db, sessions, n - 1);
    }
  }

  /** Over every sequence of sessions from settled tables, every run that is over is clean at all times if and only if
      no session claims in a run that is over, creates a row in it or writes one into flight there, or appends an event
      that leaves a row of one in flight. */
  lemma {:induction false} SettledThroughoutExactly(db: Db, sessions: seq<Session>)
    requires Settled(db)
    ensures (forall n :: 0 <= n <= |sessions| ==> SettledAt(db, sessions, n))
       <==> (forall n :: 0 <= n < |sessions| ==> !UnsettlesAt(db, sessions, n))
  {
    if forall n :: 0 <= n < |sessions| ==> !UnsettlesAt(db, sessions, n) {
      forall n | 0 <= n <= |sessions| { SettledSoFar(db, sessions, n); }
    }
    if forall n :: 0 <= n <= |sessions| ==> SettledAt(db, sessions, n) {
      forall n | 0 <= n < |sessions| ensures !UnsettlesAt(db, sessions, n) {
        assert SettledAt(db, sessions, n) && SettledAt(db, sessions, n + 1);
        SettledStep(db, sessions, n);
      }
    }
  }

  /** A run that failed can be claimed in: the claim is granted, and the run that is over holds a lease. */
  lemma ClaimCanUnsettle(e: Event, r: Request, now: int)
    requires e.eventType.WorkflowFailed? && e.taskId.None? && e.attemptId.None? && e.sequence == 1
    requires r.runId == e.runId
    ensures var db, sessions := Db(map[], map[], map[], map[], []), [Appending(e), Claiming(r, now)];
            && SettledAt(db, sessions, 1) && UnsettlesAt(db, sessions, 1) && !SettledAt(db, sessions, 2)
  {
    var db, sessions := Db(map[], map[], map[], map[], []), [Appending(e), Claiming(r, now)];
    assert SettledAt(db, sessions, 0) && !UnsettlesAt(db, sessions, 0);
    SettledStep(db, sessions, 0);
    OverAfterAppend(db, e, e.runId);
    assert sessions[..1][..0] == [] && sessions[..1][0] == Appending(e);
    assert CommitAll(db, sessions[..1]) == Appended(db, e);
    assert UnsettlesAt(db, sessions, 1);
    SettledStep(db, sessions, 1);
  }
}
