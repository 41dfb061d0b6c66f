/** Attempt rows under any sessions, against the records of the log. */
module AttemptRows {
  import opened Common
  import opened RuntimeContracts
  import opened Events
  import opened EventStore
  import opened AttemptHistories
  import opened Leases
  import opened RuntimePersistence
  import opened AttemptMarks
  import opened Percentiles

  const NO_ROWS := Db(map[], map[], map[], map[], [])

  // ----- what one session does to the row of attempt a -----

  const NO_MARK := Mark(None, None, None, None, None, None, None, None)

  /** The claim is granted and makes a new claim row. */
  predicate Grants(db: Db, r: Request) {
    !HasActiveClaim(db.claims, r.taskId, r.runId) && ClaimId(r.attemptId) !in db.claims
  }

  /** How a status written from outside closes a run, if it does. */
  function ClosingIn(db: Db, s: Session, runId: string): Option<Closing>
    requires s.Transitioning? || s.Reconciling?
  {
    match s
    case Transitioning(r, target, now) =>
      if r == runId && r in db.runs && TerminalRun(target) then Some(Closing(target, now)) else None
    case Reconciling(ids, now) => Lookup(TerminalClosings(db.runs, ids, now), runId)
  }

  /** An accepted event, given the run of the attempt's row if there is one: it creates the row when it names the
      attempt and a task, closes the row's run, and writes its status, its time and its end when it names the
      attempt. */
  function EventMark(home: Option<string>, a: string, e: Event): Mark {
    var isBorn := home.None? && e.attemptId == Some(a) && e.taskId.Some?;
    if home.None? && !isBorn then NO_MARK
    else
      var closing := Lookup(ClosingsOf(e), if isBorn then e.runId else home.value);
      var created := if isBorn then Some(TaskStatus.Queued) else None;
      if e.attemptId != Some(a) then NO_MARK.(closing := closing)
      else
        var status := StatusFromEvent(e);
        NO_MARK.(created := created, closing := closing, write := status, start := Some(e.occurredAt),
                 end := if status.Some? && TerminalTask(status.value) then Some(e.occurredAt) else None)
  }

  /** What an accepted event brings to the record of a under task t. */
  function Telling(m: Mark, t: string, a: string, e: Event): Mark {
    if !Names(e, t, a) then m
    else m.(namedAt := Some(e.occurredAt), named := StatusFromEvent(e),
            namedEnd := if Ends(e) then Some(e.occurredAt) else None)
  }

  /** The run the attempt's row belongs to, if there is one. */
  function HomeOf(db: Db, a: string): Option<string> {
    if a in db.attempts then Some(db.attempts[a].runId) else None
  }

  /** The mark of one session on attempt a, and on the record of a under task t. It depends on what the session is, on
      whether it goes through, and on which run the row belongs to; not on what the row holds. */
  function MarkOf(db: Db, s: Session, t: string, a: string): Mark {
    var home := HomeOf(db, a);
    match s
    case Appending(e) => if Accepts(db.log, e) then Telling(EventMark(home, a, e), t, a, e) else NO_MARK
    case Claiming(r, now) =>
      if r.attemptId != a || !Grants(db, r) then NO_MARK
      else NO_MARK.(created := if home.None? then Some(TaskStatus.Claimed) else None,
                    write := Some(TaskStatus.Claimed), start := Some(now))
    case Sweeping(sweep) =>
      if home.None? || a !in AttemptsOf(db.claims, SweptIds(db.claims, sweep)) then NO_MARK
      else NO_MARK.(write := Some(TaskStatus.Reclaimed), end := Some(sweep.now))
    case Writing(w, now) =>
      if home.None? || !Truthy(w.attemptId) || w.attemptId.value != a then NO_MARK
      else NO_MARK.(write := Some(w.target), start := Some(now),
                    end := if TerminalTask(w.target) then Some(now) else None)
    case EnsuringAttempt(n) =>
      if n.attemptId != a then NO_MARK
      else NO_MARK.(created := if home.None? then Some(n.status) else None, write := Some(n.status))
    case Transitioning(_, _, _) =>
      if home.None? then NO_MARK else NO_MARK.(closing := ClosingIn(db, s, home.value))
    case Reconciling(_, _) =>
      if home.None? then NO_MARK else NO_MARK.(closing := ClosingIn(db, s, home.value))
    case _ => NO_MARK
  }

  /** The mark session i leaves, in a history of sessions on empty tables. */
  function MarkAt(sessions: seq<Session>, t: string, a: string, i: nat): Mark
    requires i < |sessions|
  {
    MarkOf(CommitAll(NO_ROWS, sessions[..i]), sessions[i], t, a)
  }

  function Marks(sessions: seq<Session>, t: string, a: string): seq<Mark> {
    seq(|sessions|, i requires 0 <= i < |sessions| => MarkAt(sessions, t, a, i))
  }

  lemma MarkAtPrefix(sessions: seq<Session>, t: string, a: string, n: nat, i: nat)
    requires i < n <= |sessions|
    ensures MarkAt(sessions[..n], t, a, i) == MarkAt(sessions, t, a, i)
  {
    assert sessions[..n][..i] == sessions[..i];
  }

  lemma MarksOneMore(sessions: seq<Session>, t: string, a: string)
    requires sessions != []
    ensures var n := |sessions| - 1;
            Marks(sessions, t, a) == Marks(sessions[..n], t, a) + [MarkAt(sessions, t, a, n)]
  {
    var n := |sessions| - 1;
    forall i | 0 <= i < n { MarkAtPrefix(sessions, t, a, n, i); }
  }

  function ViewOf(row: Option<Attempt>): Option<View> {
    if row.Some? then Some(View(row.value.status, row.value.startedAt, row.value.endedAt)) else None
  }

  // ----- the marks tell the row -----

  lemma MarkFitsRow(db: Db, s: Session, t: string, a: string)
    ensures MarkFits(ViewOf(Lookup(db.attempts, a)), MarkOf(db, s, t, a))
  {
  }

  /** One event on one row: created, closed with its run, then written. */
  function RowStep(row: Option<Attempt>, a: string, e: Event): Option<Attempt> {
    var here :=
      if row.None? && e.attemptId == Some(a) && e.taskId.Some?
      then Some(Attempt(e.taskId.value, e.runId, TaskStatus.Queued, None, None, None)) else row;
    if here.None? then None
    else
      var closed := ClosedAttempt(here.value, ClosingsOf(e));
      Some(if e.attemptId == Some(a) then AttemptEffect(closed, e) else closed)
  }

  lemma AppendedRow(db: Db, e: Event, a: string)
    requires Accepts(db.log, e)
    ensures Lookup(Appended(db, e).attempts, a) == RowStep(Lookup(db.attempts, a), a, e)
  {
  }

  lemma EventMarkStep(row: Option<Attempt>, a: string, e: Event)
    ensures ViewOf(RowStep(row, a, e)) ==
            Marked(ViewOf(row), EventMark(if row.Some? then Some(row.value.runId) else None, a, e))
  {
  }

  lemma TellingLeavesRow(v: Option<View>, m: Mark, t: string, a: string, e: Event)
    ensures Marked(v, Telling(m, t, a, e)) == Marked(v, m)
  {
  }

  lemma AppendStep(db: Db, e: Event, t: string, a: string)
    ensures ViewOf(Lookup(Appended(db, e).attempts, a)) ==
            Marked(ViewOf(Lookup(db.attempts, a)), MarkOf(db, Appending(e), t, a))
  {
    if Accepts(db.log, e) {
      AppendedRow(db, e, a);
      EventMarkStep(Lookup(db.attempts, a), a, e);
      TellingLeavesRow(ViewOf(Lookup(db.attempts, a)), EventMark(HomeOf(db, a), a, e), t, a, e);
    }
  }

  lemma ClaimStep(db: Db, r: Request, now: int, t: string, a: string)
    ensures ViewOf(Lookup(GrantClaim(db, r, now).0.attempts, a)) ==
            Marked(ViewOf(Lookup(db.attempts, a)), MarkOf(db, Claiming(r, now), t, a))
  {
  }

  lemma SweepStep(db: Db, sweep: Sweep, t: string, a: string)
    ensures ViewOf(Lookup(SweptDb(db, sweep).attempts, a)) ==
            Marked(ViewOf(Lookup(db.attempts, a)), MarkOf(db, Sweeping(sweep), t, a))
  {
  }

  lemma CloseRunsStep(attempts: map<string, Attempt>, closings: map<string, Closing>, a: string)
    ensures var m := if a in attempts then NO_MARK.(closing := Lookup(closings, attempts[a].runId)) else NO_MARK;
            ViewOf(Lookup(CloseAttempts(attempts, closings), a)) == Marked(ViewOf(Lookup(attempts, a)), m)
  {
  }

  lemma CloseStep(db: Db, s: Session, t: string, a: string)
    requires s.Transitioning? || s.Reconciling?
    ensures ViewOf(Lookup(Commit(db, s).attempts, a)) == Marked(ViewOf(Lookup(db.attempts, a)), MarkOf(db, s, t, a))
  {
    match s
    case Transitioning(r, target, now) => CloseRunsStep(db.attempts, map[r := Closing(target, now)], a);
    case Reconciling(ids, now) => CloseRunsStep(db.attempts, TerminalClosings(db.runs, ids, now), a);
  }

  lemma OtherStep(db: Db, s: Session, t: string, a: string)
    requires !s.Appending? && !s.Claiming? && !s.Sweeping? && !s.Transitioning? && !s.Reconciling?
    ensures ViewOf(Lookup(Commit(db, s).attempts, a)) == Marked(ViewOf(Lookup(db.attempts, a)), MarkOf(db, s, t, a))
  {
  }

  lemma MarkStep(db: Db, s: Session, t: string, a: string)
    ensures ViewOf(Lookup(Commit(db, s).attempts, a)) == Marked(ViewOf(Lookup(db.attempts, a)), MarkOf(db, s, t, a))
  {
    match s
    case Appending(e) => AppendStep(db, e, t, a);
    case Claiming(r, now) => ClaimStep(db, r, now, t, a);
    case Sweeping(sweep) => SweepStep(db, sweep, t, a);
    case Transitioning(_, _, _) => CloseStep(db, s, t, a);
    case Reconciling(_, _) => CloseStep(db, s, t, a);
    case _ => OtherStep(db, s, t, a);
  }

  /** Over any sequence of sessions, status, start and end of a row are those its marks fold to. */
  lemma {:induction false} RowOfSessions(sessions: seq<Session>, t: string, a: string)
    ensures ViewOf(Lookup(CommitAll(NO_ROWS, sessions).attempts, a)) == Fold(Marks(sessions, t, a))
  {
    if sessions != [] {
      var n := |sessions| - 1;
      RowOfSessions(sessions[..n], t, a);
      MarkStep(CommitAll(NO_ROWS, sessions[..n]), sessions[n], t, a);
      MarksOneMore(sessions, t, a);
      FoldOneMore(Marks(sessions[..n], t, a), MarkAt(sessions, t, a, n));
    }
  }

  lemma FoldOneMore(ms: seq<Mark>, m: Mark)
    ensures Fold(ms + [m]) == Marked(Fold(ms), m)
  {
    assert (ms + [m])[..|ms|] == ms;
  }

  lemma WellMarkedOneMore(ms: seq<Mark>, m: Mark)
    requires WellMarked(ms) && MarkFits(Fold(ms), m)
    ensures WellMarked(ms + [m])
  {
    var more := ms + [m];
    forall i | 0 <= i < |more| ensures MarkFits(Fold(more[..i]), more[i]) {
      assert more[..i] == ms[..i];
      if i < |ms| { assert MarkFits(Fold(ms[..i]), ms[i]); } else { assert ms[..i] == ms; }
    }
  }

  lemma {:induction false} MarksFit(sessions: seq<Session>, t: string, a: string)
    ensures WellMarked(Marks(sessions, t, a))
  {
    if sessions != [] {
      var n := |sessions| - 1;
      MarksFit(sessions[..n], t, a);
      RowOfSessions(sessions[..n], t, a);
      MarkFitsRow(CommitAll(NO_ROWS, sessions[..n]), sessions[n], t, a);
      MarksOneMore(sessions, t, a);
      WellMarkedOneMore(Marks(sessions[..n], t, a), MarkAt(sessions, t, a, n));
    }
  }

  // ----- the marks tell the record -----

  /** The record the in-memory projector keeps after the events of a log. */
  function RecordOf(log: seq<Event>, t: string, a: string): AttemptRecord {
    Summarize(AttemptLog(log, t, a), t, a)
  }

  function ToldOf(r: AttemptRecord): Record {
    Record(r.status, r.startedAt, r.endedAt)
  }

  lemma EventTold(log: seq<Event>, e: Event, t: string, a: string)
    ensures var before := ToldOf(RecordOf(log, t, a));
            ToldOf(RecordOf(log + [e], t, a)) ==
            if !Names(e, t, a) then before
            else Record(Latest(before.status, StatusFromEvent(e)), Latest(Some(e.occurredAt), before.start),
                        if Ends(e) then Some(e.occurredAt) else before.end)
  {
    assert (log + [e])[..|log|] == log;
    EnterIsSummary(AttemptLog(log, t, a), t, e, a);
  }

  lemma CommitLog(db: Db, s: Session)
    ensures Commit(db, s).log == if s.Appending? && Accepts(db.log, s.event) then db.log + [s.event] else db.log
  {
  }

  /** The session appends an event that names the attempt with task t. */
  predicate Tells(db: Db, s: Session, t: string, a: string) {
    s.Appending? && Accepts(db.log, s.event) && Names(s.event, t, a)
  }

  predicate IsTold(m: Mark, db: Db, s: Session, t: string, a: string) {
    if Tells(db, s, t, a)
    then m.namedAt == Some(s.event.occurredAt) && m.named == StatusFromEvent(s.event)
         && m.namedEnd == if Ends(s.event) then Some(s.event.occurredAt) else None
    else m.namedAt.None? && m.named.None? && m.namedEnd.None?
  }

  lemma MarkIsTold(db: Db, s: Session, t: string, a: string)
    ensures IsTold(MarkOf(db, s, t, a), db, s, t, a)
  {
  }

  lemma ToldStep(db: Db, s: Session, t: string, a: string, m: Mark)
    requires IsTold(m, db, s, t, a)
    ensures var before := ToldOf(RecordOf(db.log, t, a));
            ToldOf(RecordOf(Commit(db, s).log, t, a)) ==
            Record(Latest(before.status, m.named), Latest(m.namedAt, before.start), Latest(before.end, m.namedEnd))
  {
    CommitLog(db, s);
    if s.Appending? { EventTold(db.log, s.event, t, a); }
  }

  lemma ToldOneMore(ms: seq<Mark>, m: Mark)
    ensures Told(ms + [m]) ==
            Record(Latest(Told(ms).status, m.named), Latest(m.namedAt, Told(ms).start),
                   Latest(Told(ms).end, m.namedEnd))
  {
    assert (ms + [m])[..|ms|] == ms;
  }

  lemma {:induction false} RecordOfSessions(sessions: seq<Session>, t: string, a: string)
    ensures ToldOf(RecordOf(CommitAll(NO_ROWS, sessions).log, t, a)) == Told(Marks(sessions, t, a))
  {
    if sessions != [] {
      var n := |sessions| - 1;
      var m := MarkAt(sessions, t, a, n);
      RecordOfSessions(sessions[..n], t, a);
      MarkIsTold(CommitAll(NO_ROWS, sessions[..n]), sessions[n], t, a);
      ToldStep(CommitAll(NO_ROWS, sessions[..n]), sessions[n], t, a, m);
      MarksOneMore(sessions, t, a);
      ToldOneMore(Marks(sessions[..n], t, a), m);
    }
  }

  // ----- status, start and end -----

  /** The row of a, once there is one. */
  function RowAfter(sessions: seq<Session>, a: string): Attempt
    requires a in CommitAll(NO_ROWS, sessions).attempts
  {
    CommitAll(NO_ROWS, sessions).attempts[a]
  }

  /** The statuses agree if and only if some event named one and the last one named is the last word: it equals the
      last status any session put into the row, or what the first closing of the run after that made of it. */
  lemma StatusAgreesExactly(sessions: seq<Session>, a: string, t: string)
    requires a in CommitAll(NO_ROWS, sessions).attempts
    ensures Some(RowAfter(sessions, a).status) == RecordOf(CommitAll(NO_ROWS, sessions).log, t, a).status <==>
            StatusesMeet(Marks(sessions, t, a))
  {
    RowOfSessions(sessions, t, a);
    RecordOfSessions(sessions, t, a);
    MarksFit(sessions, t, a);
    StatusMeetsExactly(Marks(sessions, t, a));
  }

  /** The starts agree if and only if the first event that names the attempt bears the first time any session starts
      the row with. */
  lemma StartAgreesExactly(sessions: seq<Session>, a: string, t: string)
    requires a in CommitAll(NO_ROWS, sessions).attempts
    ensures RowAfter(sessions, a).startedAt == RecordOf(CommitAll(NO_ROWS, sessions).log, t, a).startedAt <==>
            StartsMeet(Marks(sessions, t, a))
  {
    RowOfSessions(sessions, t, a);
    RecordOfSessions(sessions, t, a);
    MarksFit(sessions, t, a);
    StartMeetsExactly(Marks(sessions, t, a));
  }

  /** The ends agree if and only if the last event of an ending type bears the end of the row's history: the last end
      given by a terminal status or a sweep, or else the first closing that found the row in flight, or none. */
  lemma EndAgreesExactly(sessions: seq<Session>, a: string, t: string)
    requires a in CommitAll(NO_ROWS, sessions).attempts
    ensures RowAfter(sessions, a).endedAt == RecordOf(CommitAll(NO_ROWS, sessions).log, t, a).endedAt <==>
            EndsMeet(Marks(sessions, t, a))
  {
    RowOfSessions(sessions, t, a);
    RecordOfSessions(sessions, t, a);
    MarksFit(sessions, t, a);
    EndMeetsExactly(Marks(sessions, t, a));
  }

  // ----- events -----

  /** All events that name the attempt, whatever task they name. */
  function EventsOf(log: seq<Event>, a: string): seq<Event> {
    if log == [] then []
    else
      var earlier := EventsOf(log[..|log| - 1], a);
      if log[|log| - 1].attemptId == Some(a) then earlier + [log[|log| - 1]] else earlier
  }

  /** The events a row is listed with: by attempt id alone, ordered by sequence number. */
  function RowSequences(log: seq<Event>, a: string): seq<int> {
    Sorted(Sequences(EventsOf(log, a)))
  }

  ghost predicate AllName(log: seq<Event>, t: string, a: string) {
    forall i :: 0 <= i < |log| && log[i].attemptId == Some(a) ==> Names(log[i], t, a)
  }

  lemma {:induction false} NamedEvents(log: seq<Event>, t: string, a: string)
    ensures |AttemptLog(log, t, a)| <= |EventsOf(log, a)|
    ensures |AttemptLog(log, t, a)| == |EventsOf(log, a)| <==> AllName(log, t, a)
    ensures AllName(log, t, a) ==> AttemptLog(log, t, a) == EventsOf(log, a)
  {
    if log != [] {
      var n := |log| - 1;
      NamedEvents(log[..n], t, a);
      assert forall i :: 0 <= i < n ==> log[..n][i] == log[i];
    }
  }

  lemma SortedExactly(xs: seq<int>)
    ensures Sorted(xs) == xs <==> Ascending(xs)
  {
    SortSorts(xs);
    if Ascending(xs) { AscendingIsUnique(Sorted(xs), xs); }
  }

  /** The event lists agree if and only if every event of the attempt names the task and they arrived in the order of
      their sequence numbers. */
  lemma EventsAgreeExactly(log: seq<Event>, t: string, a: string)
    ensures RowSequences(log, a) == Sequences(AttemptLog(log, t, a)) <==>
            AllName(log, t, a) && Ascending(Sequences(AttemptLog(log, t, a)))
  {
    NamedEvents(log, t, a);
    SortSorts(Sequences(EventsOf(log, a)));
    SortedExactly(Sequences(AttemptLog(log, t, a)));
  }

  /** An event that names the attempt without its task: the row lists it, the record does not. */
  lemma EventsCanDiffer(x: Event, y: Event)
    requires Names(x, "t", "a") && y.attemptId == Some("a") && y.taskId.None?
    ensures RowSequences([x, y], "a") != Sequences(AttemptLog([x, y], "t", "a"))
  {
    assert [x, y][1].attemptId == Some("a") && !Names([x, y][1], "t", "a");
    EventsAgreeExactly([x, y], "t", "a");
  }

  // ----- the whole record -----

  /** The record the row projector builds. */
  function Projected(db: Db, a: string): AttemptRecord
    requires a in db.attempts
  {
    var row := db.attempts[a];
    AttemptRecord(a, row.taskId, Some(row.status), row.startedAt, row.endedAt, RowSequences(db.log, a))
  }

  /** For every sequence of sessions and every attempt that has a row, the row projector and the in-memory projector
      give the same record of it, under the task of its row, if and only if starts, statuses and ends meet, every event
      of the attempt names the task, and they arrived in the order of their sequence numbers. */
  lemma {:induction false} RecordsAgreeExactly(sessions: seq<Session>, a: string)
    requires a in CommitAll(NO_ROWS, sessions).attempts
    ensures var db, t := CommitAll(NO_ROWS, sessions), RowAfter(sessions, a).taskId;
            var ms := Marks(sessions, t, a);
            Projected(db, a) == RecordOf(db.log, t, a) <==>
              && StartsMeet(ms) && StatusesMeet(ms) && EndsMeet(ms)
              && AllName(db.log, t, a) && Ascending(Sequences(AttemptLog(db.log, t, a)))
  {
    var t := RowAfter(sessions, a).taskId;
    StartAgreesExactly(sessions, a, t);
    StatusAgreesExactly(sessions, a, t);
    EndAgreesExactly(sessions, a, t);
    EventsAgreeExactly(CommitAll(NO_ROWS, sessions).log, t, a);
  }

  // ----- rows born of events and rows born of claims -----

  /** A row that is there stays, under its run and its task. */
  predicate SameHome(before: map<string, Attempt>, after: map<string, Attempt>, a: string) {
    a in before ==> a in after && after[a].runId == before[a].runId && after[a].taskId == before[a].taskId
  }

  lemma RowStays(db: Db, s: Session, a: string)
    ensures SameHome(db.attempts, Commit(db, s).attempts, a)
  {
    if s.Appending? && Accepts(db.log, s.event) { AppendedRow(db, s.event, a); }
  }

  lemma CommitOneMore(db: Db, sessions: seq<Session>, n: nat)
    requires n < |sessions|
    ensures CommitAll(db, sessions[..n + 1]) == Commit(CommitAll(db, sessions[..n]), sessions[n])
  {
    assert sessions[..n + 1][..n] == sessions[..n];
  }

  lemma RowStaysOne(sessions: seq<Session>, a: string, n: nat)
    requires n < |sessions|
    ensures SameHome(CommitAll(NO_ROWS, sessions[..n]).attempts, CommitAll(NO_ROWS, sessions[..n + 1]).attempts, a)
  {
    RowStays(CommitAll(NO_ROWS, sessions[..n]), sessions[n], a);
    CommitOneMore(NO_ROWS, sessions, n);
  }

  lemma {:induction false} RowStaysFrom(sessions: seq<Session>, a: string, i: nat, n: nat)
    requires i <= n <= |sessions|
    ensures SameHome(CommitAll(NO_ROWS, sessions[..i]).attempts, CommitAll(NO_ROWS, sessions[..n]).attempts, a)
  {
    if i < n {
      RowStaysFrom(sessions, a, i, n - 1);
      RowStaysOne(sessions, a, n - 1);
    }
  }

  lemma RowStaysAlong(sessions: seq<Session>, a: string, i: nat)
    requires i <= |sessions|
    ensures SameHome(CommitAll(NO_ROWS, sessions[..i]).attempts, CommitAll(NO_ROWS, sessions).attempts, a)
  {
    RowStaysFrom(sessions, a, i, |sessions|);
    assert sessions[..|sessions|] == sessions;
  }

  /** Session c creates the row. */
  predicate BornAt(sessions: seq<Session>, a: string, c: nat)
    requires c < |sessions|
  {
    a !in CommitAll(NO_ROWS, sessions[..c]).attempts
        && a in Commit(CommitAll(NO_ROWS, sessions[..c]), sessions[c]).attempts
  }

  lemma NoRowBeforeBirth(sessions: seq<Session>, a: string, c: nat, i: nat)
    requires c < |sessions| && BornAt(sessions, a, c) && i <= c
    ensures a !in CommitAll(NO_ROWS, sessions[..i]).attempts
  {
    assert sessions[..c][..i] == sessions[..i];
    if a in CommitAll(NO_ROWS, sessions[..i]).attempts { RowStaysAlong(sessions[..c], a, i); }
  }

  lemma NoRowNoWrite(db: Db, s: Session, t: string, a: string)
    requires a !in Commit(db, s).attempts
    ensures MarkOf(db, s, t, a).start.None? && MarkOf(db, s, t, a).namedAt.None?
  {
    if s.Appending? && Accepts(db.log, s.event) { AppendedRow(db, s.event, a); }
  }

  /** Before its birth there is no row, so no session starts it and no event names the attempt with a task. */
  lemma NothingBeforeBirth(sessions: seq<Session>, t: string, a: string, c: nat, i: nat)
    requires c < |sessions| && BornAt(sessions, a, c) && i < c
    ensures Marks(sessions, t, a)[i].start.None? && Marks(sessions, t, a)[i].namedAt.None?
  {
    NoRowBeforeBirth(sessions, a, c, i + 1);
    assert sessions[..i + 1][..i] == sessions[..i];
    NoRowNoWrite(CommitAll(NO_ROWS, sessions[..i]), sessions[i], t, a);
  }

  /** The time a claim or an event starts a row with when it creates it. */
  function BirthTime(s: Session): int
    requires s.Claiming? || s.Appending?
  {
    if s.Claiming? then s.now else s.event.occurredAt
  }

  lemma BirthMark(db: Db, s: Session, t: string, a: string)
    requires a !in db.attempts && a in Commit(db, s).attempts && (s.Claiming? || s.Appending?)
    ensures MarkOf(db, s, t, a).start == Some(BirthTime(s))
    ensures s.Appending? && Names(s.event, t, a) ==> MarkOf(db, s, t, a).namedAt == Some(BirthTime(s))
  {
    if s.Appending? && Accepts(db.log, s.event) { AppendedRow(db, s.event, a); }
  }

  /** A row that a claim or an event creates starts with it, and agrees with the record if and only if the first event
      that names the attempt with the task bears that time. */
  lemma BornStartExactly(sessions: seq<Session>, a: string, t: string, c: nat)
    requires c < |sessions| && BornAt(sessions, a, c) && (sessions[c].Claiming? || sessions[c].Appending?)
    ensures StartsMeet(Marks(sessions, t, a)) <==>
            exists q :: FirstSome(NamedTimes(Marks(sessions, t, a)), q)
                        && Marks(sessions, t, a)[q].namedAt == Some(BirthTime(sessions[c]))
  {
    var ms, at := Marks(sessions, t, a), Some(BirthTime(sessions[c]));
    BirthMark(CommitAll(NO_ROWS, sessions[..c]), sessions[c], t, a);
    forall i | 0 <= i < c { NothingBeforeBirth(sessions, t, a, c, i); }
    assert FirstSome(Starts(ms), c);
    assert IsFirst(Starts(ms), at);
    if x :| IsFirst(Starts(ms), x) && IsFirst(NamedTimes(ms), x) { IsFirstOnce(Starts(ms), x, at); }
    if q :| FirstSome(NamedTimes(ms), q) && ms[q].namedAt == at { assert IsFirst(NamedTimes(ms), at); }
  }

  /** So a row created by an event that names the attempt with its task starts when the record does. */
  lemma EventBornStartAgrees(sessions: seq<Session>, a: string, t: string, c: nat)
    requires c < |sessions| && BornAt(sessions, a, c) && sessions[c].Appending? && Names(sessions[c].event, t, a)
    ensures StartsMeet(Marks(sessions, t, a))
  {
    BornStartExactly(sessions, a, t, c);
    BirthMark(CommitAll(NO_ROWS, sessions[..c]), sessions[c], t, a);
    forall i | 0 <= i < c { NothingBeforeBirth(sessions, t, a, c, i); }
    assert FirstSome(NamedTimes(Marks(sessions, t, a)), c);
  }

  // ----- a case in point -----

  lemma ClaimOnEmpty(r: Request, now: int)
    ensures var db := CommitAll(NO_ROWS, [Claiming(r, now)]);
            && db.log == [] && r.attemptId in db.attempts
            && db.attempts[r.attemptId] == Attempt(r.taskId, r.runId, TaskStatus.Claimed, Some(now), None, None)
  {
    assert [Claiming(r, now)][..0] == [];
  }

  /** An attempt is claimed at time 0, and its first event comes at time 5: the row starts with the claim, the record
      with the event. */
  lemma StartCanDiffer(r: Request, e: Event)
    requires r.attemptId == "a" && r.taskId == "t" && e.occurredAt == 5 && e.sequence == 1
    requires e.attemptId == Some("a") && e.taskId == Some("t") && e.eventType.TaskClaimed?
    ensures var db := CommitAll(NO_ROWS, [Claiming(r, 0), Appending(e)]);
            && "a" in db.attempts && db.attempts["a"].startedAt == Some(0)
            && RecordOf(db.log, "t", "a").startedAt == Some(5)
  {
    ClaimOnEmpty(r, 0);
    var sessions := [Claiming(r, 0), Appending(e)];
    var db := CommitAll(NO_ROWS, [Claiming(r, 0)]);
    assert sessions[..1] == [Claiming(r, 0)];
    assert Accepts(db.log, e);
    AppendedRow(db, e, "a");
    EventTold(db.log, e, "t", "a");
  }
}
