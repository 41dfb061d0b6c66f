/** Attempt rows that appended events alone have written: when status and end agree with the in-memory record, read off
    the events. */
module AttemptEvents {
  import opened Common
  import opened RuntimeContracts
  import opened Events
  import opened EventStore
  import opened AttemptHistories
  import opened RuntimePersistence
  import opened AttemptMarks
  import opened AttemptRows

  // ----- the marks of a log -----

  function Appends(log: seq<Event>): seq<Session> {
    seq(|log|, i requires 0 <= i < |log| => Appending(log[i]))
  }

  /** A log the store can hold: each event is accepted after the ones before it. */
  ghost predicate AllAccepted(log: seq<Event>) {
    forall i :: 0 <= i < |log| ==> Accepts(log[..i], log[i])
  }

  function TablesAfter(log: seq<Event>, i: nat): Db
    requires i <= |log|
  {
    CommitAll(NO_ROWS, Appends(log)[..i])
  }

  lemma TablesOneMore(log: seq<Event>, i: nat)
    requires i < |log|
    ensures TablesAfter(log, i + 1) == Appended(TablesAfter(log, i), log[i])
  {
    CommitOneMore(NO_ROWS, Appends(log), i);
  }

  lemma AcceptedAt(log: seq<Event>, i: nat)
    requires i < |log| && AllAccepted(log)
    ensures Deliver(log[..i], log[i]) == log[..i + 1]
  {
    assert Accepts(log[..i], log[i]);
  }

  lemma {:induction false} LogOfTables(log: seq<Event>, i: nat)
    requires i <= |log| && AllAccepted(log)
    ensures TablesAfter(log, i).log == log[..i]
  {
    if i > 0 {
      LogOfTables(log, i - 1);
      TablesOneMore(log, i - 1);
      AcceptedAt(log, i - 1);
    }
  }

  /** No event before position i names the attempt. */
  ghost predicate Unnamed(log: seq<Event>, a: string, i: nat)
    requires i <= |log|
  {
    forall j :: 0 <= j < i ==> log[j].attemptId != Some(a)
  }

  lemma RowThere(db: Db, e: Event, a: string)
    requires Accepts(db.log, e)
    ensures a in Appended(db, e).attempts <==> a in db.attempts || (e.attemptId == Some(a) && e.taskId.Some?)
    ensures a in Appended(db, e).attempts ==>
            Appended(db, e).attempts[a].runId == if a in db.attempts then db.attempts[a].runId else e.runId
  {
    AppendedRow(db, e, a);
  }

  lemma RowIfNamedStep(db: Db, e: Event, log: seq<Event>, a: string, i: nat)
    requires i < |log| && e == log[i] && Accepts(db.log, e)
    requires e.attemptId == Some(a) ==> e.taskId.Some?
    requires a in db.attempts <==> !Unnamed(log, a, i)
    ensures a in Appended(db, e).attempts <==> !Unnamed(log, a, i + 1)
  {
    RowThere(db, e, a);
  }

  /** When every event of the attempt names its task, there is a row as soon as one names the attempt. */
  lemma {:induction false} RowIfNamed(log: seq<Event>, t: string, a: string, i: nat)
    requires i <= |log| && AllAccepted(log) && AllName(log, t, a)
    ensures a in TablesAfter(log, i).attempts <==> !Unnamed(log, a, i)
  {
    if i == 0 {
      assert Unnamed(log, a, 0);
    } else {
      RowIfNamed(log, t, a, i - 1);
      LogOfTables(log, i - 1);
      assert log[i - 1].attemptId == Some(a) ==> Names(log[i - 1], t, a);
      RowIfNamedStep(TablesAfter(log, i - 1), log[i - 1], log, a, i - 1);
      TablesOneMore(log, i - 1);
    }
  }

  /** The marks of such a log, read off its events. */
  ghost predicate EventMarks(log: seq<Event>, t: string, a: string, runId: string, i: nat)
    requires i < |log|
  {
    var m := MarkAt(Appends(log), t, a, i);
    && m.write == m.named == (if log[i].attemptId == Some(a) then StatusFromEvent(log[i]) else None)
    && (m.created.Some? <==> log[i].attemptId == Some(a) && Unnamed(log, a, i))
    && (m.closing.Some? <==> EndsRun(log[i]) && log[i].runId == runId && !Unnamed(log, a, i + 1))
  }

  lemma EventMarksAre(log: seq<Event>, t: string, a: string, i: nat)
    requires i < |log| && AllAccepted(log) && AllName(log, t, a) && a in TablesAfter(log, |log|).attempts
    ensures EventMarks(log, t, a, TablesAfter(log, |log|).attempts[a].runId, i)
  {
    LogOfTables(log, i);
    RowIfNamed(log, t, a, i);
    RowIfNamed(log, t, a, i + 1);
    TablesOneMore(log, i);
    assert Appends(log)[..|log|] == Appends(log);
    RowStaysAlong(Appends(log), a, i);
    RowStaysAlong(Appends(log), a, i + 1);
    assert log[i].attemptId == Some(a) ==> Names(log[i], t, a);
    OneEventMark(TablesAfter(log, i), log[i], t, a);
  }

  lemma EventMarkFields(home: Option<string>, e: Event, a: string)
    requires e.attemptId == Some(a) ==> e.taskId.Some?
    ensures var m := EventMark(home, a, e);
            && m.write == (if e.attemptId == Some(a) then StatusFromEvent(e) else None)
            && (m.created.Some? <==> e.attemptId == Some(a) && home.None?)
            && (m.closing.Some? <==> EndsRun(e) && if home.Some? then home.value == e.runId else e.attemptId == Some(a))
  {
  }

  lemma TellingFields(m: Mark, t: string, a: string, e: Event)
    requires e.attemptId == Some(a) ==> Names(e, t, a)
    ensures var told := Telling(m, t, a, e);
            && told.write == m.write && told.created == m.created && told.closing == m.closing
            && (e.attemptId == Some(a) ==> told.named == StatusFromEvent(e))
            && (e.attemptId != Some(a) ==> told.named == m.named)
  {
  }

  lemma OneEventMark(db: Db, e: Event, t: string, a: string)
    requires Accepts(db.log, e) && (e.attemptId == Some(a) ==> Names(e, t, a))
    ensures var m, after := MarkOf(db, Appending(e), t, a), Appended(db, e).attempts;
            && m.write == m.named == (if e.attemptId == Some(a) then StatusFromEvent(e) else None)
            && (m.created.Some? <==> e.attemptId == Some(a) && a !in db.attempts)
            && (m.closing.Some? <==> EndsRun(e) && a in after && after[a].runId == e.runId)
  {
    RowThere(db, e, a);
    EventMarkFields(HomeOf(db, a), e, a);
    TellingFields(EventMark(HomeOf(db, a), a, e), t, a, e);
  }

  /** Event p is the last of the attempt that carries a status. */
  ghost predicate LastStatusAt(log: seq<Event>, a: string, p: int) {
    && 0 <= p < |log| && log[p].attemptId == Some(a) && StatusFromEvent(log[p]).Some?
    && forall i :: p < i < |log| && log[i].attemptId == Some(a) ==> StatusFromEvent(log[i]).None?
  }

  ghost predicate RunEndsAfter(log: seq<Event>, runId: string, p: int) {
    exists c :: p < c < |log| && 0 <= c && EndsRun(log[c]) && log[c].runId == runId
  }

  /** With rows that events alone have written, and every event of the attempt naming its task, the statuses agree if
      and only if some event of the attempt carries a status, and the last one does not leave it in flight in a run
      that a later event ends. */
  lemma {:induction false} EventStatusAgreesExactly(log: seq<Event>, a: string)
    requires AllAccepted(log) && a in TablesAfter(log, |log|).attempts
    requires AllName(log, TablesAfter(log, |log|).attempts[a].taskId, a)
    ensures var row := TablesAfter(log, |log|).attempts[a];
            Some(row.status) == RecordOf(log, row.taskId, a).status <==>
              exists p :: LastStatusAt(log, a, p)
                          && !(InFlight(StatusFromEvent(log[p]).value) && RunEndsAfter(log, row.runId, p))
  {
    var row := TablesAfter(log, |log|).attempts[a];
    var t, runId, ms := row.taskId, row.runId, Marks(Appends(log), row.taskId, a);
    assert Appends(log)[..|log|] == Appends(log);
    LogOfTables(log, |log|);
    assert log[..|log|] == log;
    StatusAgreesExactly(Appends(log), a, t);
    forall i | 0 <= i < |log| ensures EventMarks(log, t, a, runId, i) { EventMarksAre(log, t, a, i); }
    EventStatusesMeet(log, t, a, runId, ms);
  }

  /** The last status an event names is the last word exactly in that case. */
  lemma EventStatusesMeet(log: seq<Event>, t: string, a: string, runId: string, ms: seq<Mark>)
    requires ms == Marks(Appends(log), t, a) && forall i :: 0 <= i < |log| ==> EventMarks(log, t, a, runId, i)
    ensures StatusesMeet(ms) <==>
            exists p :: LastStatusAt(log, a, p)
                        && !(InFlight(StatusFromEvent(log[p]).value) && RunEndsAfter(log, runId, p))
  {
    forall i | 0 <= i < |log| ensures ms[i] == MarkAt(Appends(log), t, a, i) && EventMarks(log, t, a, runId, i) {}
    forall p | 0 <= p < |log| ensures LastSome(NamedStatuses(ms), p) <==> LastStatusAt(log, a, p) {
      NamedIsCarried(log, t, a, runId, ms, p);
    }
    forall p | LastStatusAt(log, a, p)
      ensures FinalStatus(ms, ms[p].named.value) <==>
              !(InFlight(StatusFromEvent(log[p]).value) && RunEndsAfter(log, runId, p))
    {
      CarriedIsFinal(log, t, a, runId, ms, p);
    }
  }

  lemma NamedIsCarried(log: seq<Event>, t: string, a: string, runId: string, ms: seq<Mark>, p: int)
    requires ms == Marks(Appends(log), t, a) && forall i :: 0 <= i < |log| ==> EventMarks(log, t, a, runId, i)
    requires 0 <= p < |log|
    ensures LastSome(NamedStatuses(ms), p) <==> LastStatusAt(log, a, p)
  {
    forall i | 0 <= i < |log|
      ensures NamedStatuses(ms)[i] == if log[i].attemptId == Some(a) then StatusFromEvent(log[i]) else None
    {
      assert EventMarks(log, t, a, runId, i);
    }
  }

  lemma CarriedIsFinal(log: seq<Event>, t: string, a: string, runId: string, ms: seq<Mark>, p: int)
    requires ms == Marks(Appends(log), t, a) && forall i :: 0 <= i < |log| ==> EventMarks(log, t, a, runId, i)
    requires LastStatusAt(log, a, p)
    ensures ms[p].named == StatusFromEvent(log[p])
    ensures FinalStatus(ms, ms[p].named.value) <==>
            !(InFlight(StatusFromEvent(log[p]).value) && RunEndsAfter(log, runId, p))
  {
    assert EventMarks(log, t, a, runId, p);
    forall i | p < i < |log|
      ensures Said(ms[i]).None?
      ensures ms[i].closing.Some? <==> EndsRun(log[i]) && log[i].runId == runId
    {
      assert EventMarks(log, t, a, runId, i);
      assert log[p].attemptId == Some(a);
    }
    assert LastSaid(ms, p);
    forall q | LastSaid(ms, q) { LastSaidOnce(ms, p, q); }
    forall c ensures ClosesAfter(ms, p, c) <==> p < c < |log| && EndsRun(log[c]) && log[c].runId == runId {}
  }

  // ----- the end, when events alone have written the row -----

  predicate CarriesTerminal(e: Event) {
    StatusFromEvent(e).Some? && TerminalTask(StatusFromEvent(e).value)
  }

  /** The times in the marks of such a log. */
  ghost predicate EventTimes(log: seq<Event>, t: string, a: string, i: nat)
    requires i < |log|
  {
    var m, at := MarkAt(Appends(log), t, a, i), Some(log[i].occurredAt);
    && m.end == (if log[i].attemptId == Some(a) && CarriesTerminal(log[i]) then at else None)
    && m.namedEnd == (if log[i].attemptId == Some(a) && Ends(log[i]) then at else None)
    && (m.closing.Some? ==> Some(m.closing.value.at) == at)
    && (m.created.Some? ==> m.created == Some(TaskStatus.Queued))
  }

  lemma EventMarkTimes(home: Option<string>, e: Event, a: string)
    requires e.attemptId == Some(a) ==> e.taskId.Some?
    ensures var m := EventMark(home, a, e);
            && m.end == (if e.attemptId == Some(a) && CarriesTerminal(e) then Some(e.occurredAt) else None)
            && m.namedEnd == None
            && (m.closing.Some? ==> m.closing.value.at == e.occurredAt)
            && (m.created.Some? ==> m.created == Some(TaskStatus.Queued))
  {
  }

  lemma TellingTimes(m: Mark, t: string, a: string, e: Event)
    requires (e.attemptId == Some(a) ==> Names(e, t, a)) && m.namedEnd.None?
    ensures var told := Telling(m, t, a, e);
            && told.end == m.end && told.closing == m.closing && told.created == m.created
            && told.namedEnd == if e.attemptId == Some(a) && Ends(e) then Some(e.occurredAt) else None
  {
  }

  lemma EventTimesAre(log: seq<Event>, t: string, a: string, i: nat)
    requires i < |log| && AllAccepted(log) && AllName(log, t, a)
    ensures EventTimes(log, t, a, i)
  {
    LogOfTables(log, i);
    assert Accepts(log[..i], log[i]);
    var home := HomeOf(TablesAfter(log, i), a);
    EventMarkTimes(home, log[i], a);
    TellingTimes(EventMark(home, a, log[i]), t, a, log[i]);
  }

  /** Event p is the last of the attempt with a terminal status. */
  ghost predicate LastTerminalAt(log: seq<Event>, a: string, p: int) {
    && 0 <= p < |log| && log[p].attemptId == Some(a) && CarriesTerminal(log[p])
    && forall i :: p < i < |log| && log[i].attemptId == Some(a) ==> !CarriesTerminal(log[i])
  }

  /** Event c is the first to end the run once an event has named the attempt. */
  ghost predicate FirstRunEnd(log: seq<Event>, a: string, runId: string, c: int) {
    0 <= c < |log| && EndsRowsRun(log, a, runId, c) && forall i :: 0 <= i < c ==> !EndsRowsRun(log, a, runId, i)
  }

  ghost predicate EndsRowsRun(log: seq<Event>, a: string, runId: string, c: int)
    requires 0 <= c < |log|
  {
    EndsRun(log[c]) && log[c].runId == runId && !Unnamed(log, a, c + 1)
  }

  /** The end events give the row: the time of the last one with a terminal status; or, when there is none, of the first
      that ends the run once the row is there; or nothing. */
  ghost predicate EventEnd(log: seq<Event>, a: string, runId: string, end: Option<int>) {
    if exists p :: LastTerminalAt(log, a, p)
    then exists p :: LastTerminalAt(log, a, p) && end == Some(log[p].occurredAt)
    else if exists c :: FirstRunEnd(log, a, runId, c)
    then exists c :: FirstRunEnd(log, a, runId, c) && end == Some(log[c].occurredAt)
    else end == None
  }

  /** The end events give the record: the time of the last one of an ending type, or nothing. */
  ghost predicate RecordEnd(log: seq<Event>, a: string, end: Option<int>) {
    if end.Some?
    then exists q :: LastEndingAt(log, a, q) && end == Some(log[q].occurredAt)
    else forall i :: 0 <= i < |log| && log[i].attemptId == Some(a) ==> !Ends(log[i])
  }

  ghost predicate LastEndingAt(log: seq<Event>, a: string, q: int) {
    && 0 <= q < |log| && log[q].attemptId == Some(a) && Ends(log[q])
    && forall i :: q < i < |log| && log[i].attemptId == Some(a) ==> !Ends(log[i])
  }

  /** The marks of a log, read off its events. */
  ghost predicate ReadOff(log: seq<Event>, t: string, a: string, runId: string, ms: seq<Mark>) {
    && ms == Marks(Appends(log), t, a)
    && forall i :: 0 <= i < |log| ==> EventMarks(log, t, a, runId, i) && EventTimes(log, t, a, i)
  }

  lemma {:induction false} FirstNaming(log: seq<Event>, a: string, n: nat) returns (j: nat)
    requires n <= |log| && !Unnamed(log, a, n)
    ensures j < n && log[j].attemptId == Some(a) && Unnamed(log, a, j)
  {
    if Unnamed(log, a, n - 1) { j := n - 1; } else { j := FirstNaming(log, a, n - 1); }
  }

  lemma {:induction false} LastSaidFrom(ms: seq<Mark>, j: nat) returns (p: nat)
    requires j < |ms| && Said(ms[j]).Some?
    ensures LastSaid(ms, p)
    decreases |ms| - j
  {
    if i: nat :| j < i < |ms| && Said(ms[i]).Some? { p := LastSaidFrom(ms, i); } else { p := j; }
  }

  /** When every status put is in flight and nothing closes, the last word is in flight. */
  lemma StaysInFlight(ms: seq<Mark>, j: nat)
    requires j < |ms| && Said(ms[j]).Some?
    requires forall i :: 0 <= i < |ms| ==> ms[i].closing.None? && (Said(ms[i]).Some? ==> InFlight(Said(ms[i]).value))
    ensures exists status :: FinalStatus(ms, status) && InFlight(status)
  {
    var p := LastSaidFrom(ms, j);
    assert Becomes(ms, p, Said(ms[p]).value);
    assert FinalStatus(ms, Said(ms[p]).value);
  }

  lemma MarkBeforeRunEnd(log: seq<Event>, t: string, a: string, runId: string, ms: seq<Mark>, i: nat)
    requires ReadOff(log, t, a, runId, ms) && i < |log| && !(log[i].attemptId == Some(a) && CarriesTerminal(log[i]))
    ensures Said(ms[i]).Some? ==> InFlight(Said(ms[i]).value)
    ensures ms[i].closing.Some? <==> EndsRowsRun(log, a, runId, i)
    ensures ms[i].created.Some? ==> InFlight(ms[i].created.value)
  {
    assert ms[i] == MarkAt(Appends(log), t, a, i) && EventMarks(log, t, a, runId, i) && EventTimes(log, t, a, i);
  }

  /** No event carries a terminal status, so what precedes the first event that ends the run puts only statuses in
      flight. */
  lemma BeforeRunEnd(log: seq<Event>, t: string, a: string, runId: string, ms: seq<Mark>, c: int, i: nat)
    requires ReadOff(log, t, a, runId, ms) && FirstRunEnd(log, a, runId, c) && i < c
    requires !(log[i].attemptId == Some(a) && CarriesTerminal(log[i]))
    ensures ms[i].closing.None? && (Said(ms[i]).Some? ==> InFlight(Said(ms[i]).value))
  {
    MarkBeforeRunEnd(log, t, a, runId, ms, i);
    assert !EndsRowsRun(log, a, runId, i);
  }

  lemma CreatedExactly(log: seq<Event>, t: string, a: string, runId: string, ms: seq<Mark>, i: nat)
    requires ReadOff(log, t, a, runId, ms) && i < |log|
    ensures ms[i].created.Some? <==> log[i].attemptId == Some(a) && Unnamed(log, a, i)
  {
    assert ms[i] == MarkAt(Appends(log), t, a, i) && EventMarks(log, t, a, runId, i);
  }

  lemma CreatedBefore(log: seq<Event>, t: string, a: string, runId: string, ms: seq<Mark>, c: int) returns (j: nat)
    requires ReadOff(log, t, a, runId, ms) && 0 <= c < |log| && !Unnamed(log, a, c + 1) && ms[c].created.None?
    ensures j < c && ms[j].created.Some?
  {
    j := FirstNaming(log, a, c + 1);
    CreatedExactly(log, t, a, runId, ms, j);
  }

  /** The first event that ends the run finds the row in flight, when no event carries a terminal status. */
  lemma FirstRunEndFinds(log: seq<Event>, t: string, a: string, runId: string, ms: seq<Mark>, c: int)
    requires ReadOff(log, t, a, runId, ms) && FirstRunEnd(log, a, runId, c)
    requires forall p :: 0 <= p < |log| && log[p].attemptId == Some(a) ==> !CarriesTerminal(log[p])
    ensures FindsInFlight(ms, c)
  {
    MarkBeforeRunEnd(log, t, a, runId, ms, c);
    CreatedExactly(log, t, a, runId, ms, c);
    if ms[c].created.None? {
      var j := CreatedBefore(log, t, a, runId, ms, c);
      forall i | 0 <= i < c
        ensures ms[..c][i].closing.None? && (Said(ms[..c][i]).Some? ==> InFlight(Said(ms[..c][i]).value))
      {
        BeforeRunEnd(log, t, a, runId, ms, c, i);
      }
      StaysInFlight(ms[..c], j);
    }
  }

  lemma FindingsAreRunEnds(log: seq<Event>, t: string, a: string, runId: string, ms: seq<Mark>)
    requires ReadOff(log, t, a, runId, ms)
    requires forall p :: 0 <= p < |log| && log[p].attemptId == Some(a) ==> !CarriesTerminal(log[p])
    ensures forall c :: FirstFinding(ms, c) <==> FirstRunEnd(log, a, runId, c)
  {
    forall i | 0 <= i < |log| ensures FindsInFlight(ms, i) ==> EndsRowsRun(log, a, runId, i) {
      assert ms[i] == MarkAt(Appends(log), t, a, i) && EventMarks(log, t, a, runId, i);
    }
    forall c | FirstRunEnd(log, a, runId, c) ensures FirstFinding(ms, c) {
      FirstRunEndFinds(log, t, a, runId, ms, c);
    }
    forall c | FirstFinding(ms, c) ensures FirstRunEnd(log, a, runId, c) {
      var first := FirstRunEndUpTo(log, a, runId, c);
      assert FirstRunEnd(log, a, runId, first);
    }
  }

  lemma {:induction false} FirstRunEndUpTo(log: seq<Event>, a: string, runId: string, c: int) returns (first: int)
    requires 0 <= c < |log| && EndsRowsRun(log, a, runId, c)
    ensures first <= c && FirstRunEnd(log, a, runId, first)
    decreases c
  {
    if i :| 0 <= i < c && EndsRowsRun(log, a, runId, i) {
      first := FirstRunEndUpTo(log, a, runId, i);
    } else {
      first := c;
    }
  }

  lemma EndedIsTerminal(log: seq<Event>, t: string, a: string, runId: string, ms: seq<Mark>, p: int)
    requires ReadOff(log, t, a, runId, ms)
    ensures LastEnded(ms, p) <==> LastTerminalAt(log, a, p)
    ensures LastEnded(ms, p) ==> ms[p].end == Some(log[p].occurredAt)
  {
    forall i | 0 <= i < |log|
      ensures ms[i].end ==
              if log[i].attemptId == Some(a) && CarriesTerminal(log[i]) then Some(log[i].occurredAt) else None
    {
      assert ms[i] == MarkAt(Appends(log), t, a, i) && EventTimes(log, t, a, i);
    }
  }

  lemma {:induction false} SomeTerminalLast(log: seq<Event>, a: string, i: nat) returns (p: nat)
    requires i < |log| && log[i].attemptId == Some(a) && CarriesTerminal(log[i])
    ensures LastTerminalAt(log, a, p)
    decreases |log| - i
  {
    if j: nat :| i < j < |log| && log[j].attemptId == Some(a) && CarriesTerminal(log[j]) {
      p := SomeTerminalLast(log, a, j);
    } else {
      p := i;
    }
  }

  lemma RunEndTime(log: seq<Event>, t: string, a: string, runId: string, ms: seq<Mark>, c: int)
    requires ReadOff(log, t, a, runId, ms) && FirstRunEnd(log, a, runId, c) && FindsInFlight(ms, c)
    ensures ms[c].closing.value.at == log[c].occurredAt
  {
    assert ms[c] == MarkAt(Appends(log), t, a, c) && EventTimes(log, t, a, c);
  }

  lemma SomeTerminalEnd(log: seq<Event>, a: string, runId: string, ms: seq<Mark>, end: Option<int>, p: int)
    requires |ms| == |log| && LastTerminalAt(log, a, p)
    requires forall q :: LastEnded(ms, q) <==> LastTerminalAt(log, a, q)
    requires forall q :: LastEnded(ms, q) ==> ms[q].end == Some(log[q].occurredAt)
    ensures FinalEnd(ms, end) <==> EventEnd(log, a, runId, end)
  {
  }

  lemma NoTerminalEnd(log: seq<Event>, a: string, runId: string, ms: seq<Mark>, end: Option<int>)
    requires |ms| == |log| && forall q :: !LastEnded(ms, q) && !LastTerminalAt(log, a, q)
    requires forall c :: FirstFinding(ms, c) <==> FirstRunEnd(log, a, runId, c)
    requires forall c :: FirstFinding(ms, c) ==> ms[c].closing.value.at == log[c].occurredAt
    ensures FinalEnd(ms, end) <==> EventEnd(log, a, runId, end)
  {
  }

  lemma EventEndIsFinal(log: seq<Event>, t: string, a: string, runId: string, ms: seq<Mark>, end: Option<int>)
    requires ReadOff(log, t, a, runId, ms)
    ensures FinalEnd(ms, end) <==> EventEnd(log, a, runId, end)
  {
    forall p { EndedIsTerminal(log, t, a, runId, ms, p); }
    if i: nat :| i < |log| && log[i].attemptId == Some(a) && CarriesTerminal(log[i]) {
      var p := SomeTerminalLast(log, a, i);
      SomeTerminalEnd(log, a, runId, ms, end, p);
    } else {
      FindingsAreRunEnds(log, t, a, runId, ms);
      forall c | FirstFinding(ms, c) ensures ms[c].closing.value.at == log[c].occurredAt {
        RunEndTime(log, t, a, runId, ms, c);
      }
      NoTerminalEnd(log, a, runId, ms, end);
    }
  }

  lemma RecordEndIsLast(log: seq<Event>, t: string, a: string, runId: string, ms: seq<Mark>, end: Option<int>)
    requires ReadOff(log, t, a, runId, ms)
    ensures IsLast(NamedEnds(ms), end) <==> RecordEnd(log, a, end)
  {
    forall i | 0 <= i < |log|
      ensures NamedEnds(ms)[i] == if log[i].attemptId == Some(a) && Ends(log[i]) then Some(log[i].occurredAt) else None
    {
      assert ms[i] == MarkAt(Appends(log), t, a, i) && EventTimes(log, t, a, i);
    }
    forall q ensures LastSome(NamedEnds(ms), q) <==> LastEndingAt(log, a, q) {}
  }

  /** With rows that events alone have written, and every event of the attempt naming its task, the ends agree if and
      only if the time of the last event of an ending type (or none) is that of the last event with a terminal status,
      or, without one, of the first event that ends the run once the attempt is named, or none. */
  lemma {:induction false} EventEndAgreesExactly(log: seq<Event>, a: string)
    requires AllAccepted(log) && a in TablesAfter(log, |log|).attempts
    requires AllName(log, TablesAfter(log, |log|).attempts[a].taskId, a)
    ensures var row := TablesAfter(log, |log|).attempts[a];
            row.endedAt == RecordOf(log, row.taskId, a).endedAt <==>
              exists end :: EventEnd(log, a, row.runId, end) && RecordEnd(log, a, end)
  {
    var row := TablesAfter(log, |log|).attempts[a];
    var t, ms := row.taskId, Marks(Appends(log), row.taskId, a);
    assert Appends(log)[..|log|] == Appends(log);
    LogOfTables(log, |log|);
    assert log[..|log|] == log;
    EndAgreesExactly(Appends(log), a, t);
    MarksReadOff(log, a);
    EventEndsMeet(log, t, a, row.runId, ms);
  }

  lemma MarksReadOff(log: seq<Event>, a: string)
    requires AllAccepted(log) && a in TablesAfter(log, |log|).attempts
    requires AllName(log, TablesAfter(log, |log|).attempts[a].taskId, a)
    ensures var row := TablesAfter(log, |log|).attempts[a];
            ReadOff(log, row.taskId, a, row.runId, Marks(Appends(log), row.taskId, a))
  {
    var row := TablesAfter(log, |log|).attempts[a];
    forall i | 0 <= i < |log|
      ensures EventMarks(log, row.taskId, a, row.runId, i) && EventTimes(log, row.taskId, a, i)
    {
      EventMarksAre(log, row.taskId, a, i);
      EventTimesAre(log, row.taskId, a, i);
    }
  }

  lemma EventEndsMeet(log: seq<Event>, t: string, a: string, runId: string, ms: seq<Mark>)
    requires ReadOff(log, t, a, runId, ms)
    ensures EndsMeet(ms) <==> exists end :: EventEnd(log, a, runId, end) && RecordEnd(log, a, end)
  {
    forall end: Option<int>
      ensures FinalEnd(ms, end) <==> EventEnd(log, a, runId, end)
      ensures IsLast(NamedEnds(ms), end) <==> RecordEnd(log, a, end)
    {
      EventEndIsFinal(log, t, a, runId, ms, end);
      RecordEndIsLast(log, t, a, runId, ms, end);
    }
  }

  // ----- a case in point -----

  lemma TwoAccepted(x: Event, y: Event)
    requires x.runId == y.runId && x.sequence == 1 && y.sequence == 2 && x.key != y.key
    ensures AllAccepted([x, y])
  {
    var log := [x, y];
    assert log[..0] == [] && log[..1] == [] + [x];
    RunLogSnoc([], x, x.runId);
    forall i | 0 <= i < 2 ensures Accepts(log[..i], log[i]) {}
  }

  /** The first event of a log creates the row of its attempt. */
  lemma FirstEventRow(log: seq<Event>, t: string, a: string)
    requires log != [] && AllAccepted(log) && log[0].taskId == Some(t) && log[0].attemptId == Some(a)
    ensures a in TablesAfter(log, |log|).attempts
    ensures TablesAfter(log, |log|).attempts[a].taskId == t
    ensures TablesAfter(log, |log|).attempts[a].runId == log[0].runId
  {
    assert log[..0] == [] && Accepts(log[..0], log[0]);
    TablesOneMore(log, 0);
    AppendedRow(NO_ROWS, log[0], a);
    RowStaysAlong(Appends(log), a, 1);
    assert Appends(log)[..|log|] == Appends(log);
  }

  /** An attempt runs, then its run fails: the row is failed and has ended, the record is still running. */
  lemma StatusAndEndCanDiffer(running: Event, failure: Event)
    requires running.eventType.TaskRunning? && running.payload.toStatus.None?
    requires running.taskId == Some("t") && running.attemptId == Some("a") && running.runId == failure.runId
    requires failure.eventType.WorkflowFailed? && failure.attemptId.None?
    requires running.sequence == 1 && failure.sequence == 2 && running.key != failure.key
    ensures var log := [running, failure];
            && AllAccepted(log) && "a" in TablesAfter(log, 2).attempts
            && Some(TablesAfter(log, 2).attempts["a"].status) != RecordOf(log, "t", "a").status
            && TablesAfter(log, 2).attempts["a"].endedAt != RecordOf(log, "t", "a").endedAt
  {
    var log := [running, failure];
    TwoAccepted(running, failure);
    FirstEventRow(log, "t", "a");
    EventStatusAgreesExactly(log, "a");
    EventEndAgreesExactly(log, "a");
    assert RunEndsAfter(log, running.runId, 0);
    assert FirstRunEnd(log, "a", running.runId, 1);
  }
}
