/** Timelines and attempt records in terms of the events of the log. */
module EventTerms {
  import opened Common
  import opened RuntimeContracts
  import opened Events
  import opened Sorting
  import opened AttemptHistories
  import opened EventStore

  // ----- timelines -----

  function OfRun(runId: string): Event -> bool {
    (e: Event) => e.runId == runId
  }

  /** The entry tells number, type, time, trace, task, attempt and summary of the event. */
  function EntryTells(): (TimelineEntry, Event) -> bool {
    (t: TimelineEntry, e: Event) =>
      && t.sequence == e.sequence && t.eventType == e.eventType && t.occurredAt == e.occurredAt
      && t.traceId == e.traceId && t.taskId == e.taskId && t.attemptId == e.attemptId
      && t.summary == e.payload.summary
  }

  /** The timeline of a run tells the events of the run, in log order, none left out. */
  lemma {:induction false} TimelineTellsRun(log: seq<Event>, runId: string) returns (at: seq<nat>)
    ensures Extracts(log, OfRun(runId), Timeline(RunLog(log, runId)), EntryTells(), at)
  {
    at := [];
    if log != [] {
      var init, e := log[..|log| - 1], log[|log| - 1];
      at := TimelineTellsRun(init, runId);
      assert init + [e] == log;
      RunLogSnoc(init, e, runId);
      at := ExtractsOneMore(init, e, OfRun(runId), Timeline(RunLog(init, runId)), Timeline(RunLog(log, runId)),
                            EntryTells(), at);
    }
  }

  // ----- records -----

  /** The event names this task and this attempt, neither of them empty, and is not a snapshot that cannot be read. */
  predicate NamesBoth(e: Event, t: string, a: string) {
    && e.taskId == Some(t) && t != "" && e.attemptId == Some(a) && a != ""
    && (e.eventType.TaskGraphUpdated? ==> e.payload.graphReadable)
  }

  predicate EndsAttempt(e: Event) {
    var wire := EventTypeValue(e.eventType);
    wire == "task.completed" || wire == "task.failed" || wire == "task.reclaimed"
  }

  ghost predicate SaysSome(e: Event) {
    exists s: TaskStatus :: SaysStatus(e, s)
  }

  ghost predicate FirstNaming(log: seq<Event>, t: string, a: string, p: int) {
    0 <= p < |log| && NamesBoth(log[p], t, a) && forall j :: 0 <= j < p ==> !NamesBoth(log[j], t, a)
  }

  ghost predicate LastSaying(log: seq<Event>, t: string, a: string, p: int) {
    && 0 <= p < |log| && NamesBoth(log[p], t, a) && SaysSome(log[p])
    && forall j :: p < j < |log| && NamesBoth(log[j], t, a) ==> !SaysSome(log[j])
  }

  ghost predicate LastEnding(log: seq<Event>, t: string, a: string, p: int) {
    && 0 <= p < |log| && NamesBoth(log[p], t, a) && EndsAttempt(log[p])
    && forall j :: p < j < |log| && NamesBoth(log[j], t, a) ==> !EndsAttempt(log[j])
  }

  lemma NamesMeans(e: Event, t: string, a: string)
    ensures Names(e, t, a) <==> NamesBoth(e, t, a)
  {
  }

  lemma EndsMeans(e: Event)
    ensures Ends(e) <==> EndsAttempt(e)
  {
    var v := EventTypeValue(e.eventType);
    assert |v| > 9;
    assert !Ends(e) && v[0] == 't' ==> v[5] != 'f' && (v[5] == 'c' ==> v[6] == 'l') && (v[5] == 'r' ==> v[6] == 'u');
  }

  function RecordAt(log: seq<Event>, t: string, a: string): AttemptRecord {
    Summarize(AttemptLog(log, t, a), t, a)
  }

  lemma RecordStep(log: seq<Event>, e: Event, t: string, a: string)
    ensures var before, after := RecordAt(log, t, a), RecordAt(log + [e], t, a);
            if !NamesBoth(e, t, a) then after == before
            else
              && after.startedAt == (if before.startedAt.Some? then before.startedAt else Some(e.occurredAt))
              && (forall s :: SaysStatus(e, s) ==> after.status == Some(s))
              && (!SaysSome(e) ==> after.status == before.status)
              && after.endedAt == (if EndsAttempt(e) then Some(e.occurredAt) else before.endedAt)
              && after.eventSequence == before.eventSequence + [e.sequence]
  {
    assert (log + [e])[..|log|] == log;
    NamesMeans(e, t, a);
    if Names(e, t, a) {
      EnterIsSummary(AttemptLog(log, t, a), t, e, a);
      EndsMeans(e);
      forall s: TaskStatus { StatusIsSaid(e, s); }
      if StatusFromEvent(e).Some? { StatusIsSaid(e, StatusFromEvent(e).value); }
    }
  }

  /** The start is the time of the first event that names the attempt with its task. */
  lemma {:induction false} RecordStarts(log: seq<Event>, t: string, a: string)
    ensures forall p :: FirstNaming(log, t, a, p) ==> RecordAt(log, t, a).startedAt == Some(log[p].occurredAt)
    ensures RecordAt(log, t, a).startedAt.Some? ==> exists p :: FirstNaming(log, t, a, p)
  {
    if log != [] {
      var n := |log| - 1;
      var init := log[..n];
      RecordStarts(init, t, a);
      assert init + [log[n]] == log;
      RecordStep(init, log[n], t, a);
      assert forall j :: 0 <= j < n ==> init[j] == log[j];
      forall p | p < n ensures FirstNaming(log, t, a, p) <==> FirstNaming(init, t, a, p) {}
      if NamesBoth(log[n], t, a) && RecordAt(init, t, a).startedAt.None? {
        NoneNamed(init, t, a, n);
        assert FirstNaming(log, t, a, n);
      }
    }
  }

  lemma {:induction false} NoneNamed(log: seq<Event>, t: string, a: string, n: nat)
    requires n <= |log| && forall p :: !FirstNaming(log, t, a, p)
    ensures forall p :: 0 <= p < n ==> !NamesBoth(log[p], t, a)
  {
    if n > 0 {
      NoneNamed(log, t, a, n - 1);
      assert !FirstNaming(log, t, a, n - 1);
    }
  }

  lemma SayingBefore(log: seq<Event>, e: Event, t: string, a: string)
    requires !(NamesBoth(e, t, a) && SaysSome(e))
    ensures forall p :: LastSaying(log + [e], t, a, p) <==> LastSaying(log, t, a, p)
  {
    assert forall j :: 0 <= j < |log| ==> (log + [e])[j] == log[j];
  }

  lemma EndingBefore(log: seq<Event>, e: Event, t: string, a: string)
    requires !(NamesBoth(e, t, a) && EndsAttempt(e))
    ensures forall p :: LastEnding(log + [e], t, a, p) <==> LastEnding(log, t, a, p)
  {
    assert forall j :: 0 <= j < |log| ==> (log + [e])[j] == log[j];
  }

  /** The status is the last one that such an event says. */
  lemma {:induction false} RecordStatus(log: seq<Event>, t: string, a: string)
    ensures forall p, s :: LastSaying(log, t, a, p) && SaysStatus(log[p], s) ==> RecordAt(log, t, a).status == Some(s)
    ensures RecordAt(log, t, a).status.Some? ==> exists p :: LastSaying(log, t, a, p)
  {
    if log != [] {
      var n := |log| - 1;
      var init := log[..n];
      RecordStatus(init, t, a);
      assert init + [log[n]] == log;
      RecordStep(init, log[n], t, a);
      if NamesBoth(log[n], t, a) && SaysSome(log[n]) {
        assert LastSaying(log, t, a, n);
        assert forall p :: LastSaying(log, t, a, p) ==> p == n;
      } else {
        SayingBefore(init, log[n], t, a);
        assert forall p :: LastSaying(init, t, a, p) ==> init[p] == log[p];
      }
    }
  }

  /** The end is the time of the last such event that completes, fails or takes back the task. */
  lemma {:induction false} RecordEnds(log: seq<Event>, t: string, a: string)
    ensures forall p :: LastEnding(log, t, a, p) ==> RecordAt(log, t, a).endedAt == Some(log[p].occurredAt)
    ensures RecordAt(log, t, a).endedAt.Some? ==> exists p :: LastEnding(log, t, a, p)
  {
    if log != [] {
      var n := |log| - 1;
      var init := log[..n];
      RecordEnds(init, t, a);
      assert init + [log[n]] == log;
      RecordStep(init, log[n], t, a);
      if NamesBoth(log[n], t, a) && EndsAttempt(log[n]) {
        assert LastEnding(log, t, a, n);
        assert forall p :: LastEnding(log, t, a, p) ==> p == n;
      } else {
        EndingBefore(init, log[n], t, a);
        assert forall p :: LastEnding(init, t, a, p) ==> init[p] == log[p];
      }
    }
  }

  function Naming(t: string, a: string): Event -> bool {
    (e: Event) => NamesBoth(e, t, a)
  }

  function NumberOf(): (int, Event) -> bool {
    (n: int, e: Event) => n == e.sequence
  }

  /** The numbers are those of such events, in log order, none left out. */
  lemma {:induction false} RecordNumbers(log: seq<Event>, t: string, a: string) returns (at: seq<nat>)
    ensures Extracts(log, Naming(t, a), RecordAt(log, t, a).eventSequence, NumberOf(), at)
  {
    at := [];
    if log != [] {
      var init, e := log[..|log| - 1], log[|log| - 1];
      at := RecordNumbers(init, t, a);
      assert init + [e] == log;
      RecordStep(init, e, t, a);
      at := ExtractsOneMore(init, e, Naming(t, a), RecordAt(init, t, a).eventSequence,
                            RecordAt(log, t, a).eventSequence, NumberOf(), at);
    }
  }

  /** The history of a task lists an attempt exactly when some event names it with the task. */
  lemma HistoryListsNamed(log: seq<Event>, t: string, a: string)
    ensures a in FirstSeen(log, t) <==> exists p :: 0 <= p < |log| && NamesBoth(log[p], t, a)
  {
    FirstSeenOnce(log, t);
    var at := RecordNumbers(log, t, a);
    assert |RecordAt(log, t, a).eventSequence| == |AttemptLog(log, t, a)|;
    if at != [] { assert Naming(t, a)(log[at[0]]); }
    if p :| 0 <= p < |log| && NamesBoth(log[p], t, a) { assert Naming(t, a)(log[p]); }
  }
}
