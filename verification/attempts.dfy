/** Attempt histories: what a log says about the attempts of one task. */
module AttemptHistories {
  import opened Common
  import opened RuntimeContracts
  import opened Events

  datatype AttemptRecord = AttemptRecord(
    attemptId: string, taskId: string, status: Option<TaskStatus>,
    startedAt: Option<int>, endedAt: Option<int>, eventSequence: seq<int>)

  /** A broken snapshot raises before it gets to the attempts. */
  predicate NamesAttempt(e: Event, taskId: string) {
    !IsBroken(e) && Truthy(e.taskId) && Truthy(e.attemptId) && e.taskId.value == taskId
  }

  predicate Names(e: Event, taskId: string, attemptId: string) {
    NamesAttempt(e, taskId) && e.attemptId.value == attemptId
  }

  predicate Ends(e: Event) {
    e.eventType.TaskCompleted? || e.eventType.TaskFailed? || e.eventType.TaskReclaimed?
  }

  // ----- the specification: each field read off the log directly -----

  /** The events that name a task and an attempt, in log order. */
  function AttemptLog(log: seq<Event>, taskId: string, attemptId: string): (events: seq<Event>)
    ensures forall e :: e in events ==> e in log && Names(e, taskId, attemptId)
  {
    if log == [] then []
    else
      var e := log[|log| - 1];
      var earlier := AttemptLog(log[..|log| - 1], taskId, attemptId);
      if Names(e, taskId, attemptId) then earlier + [e] else earlier
  }

  /** The attempts of a task in the order they first appear. */
  function FirstSeen(log: seq<Event>, taskId: string): seq<string> {
    if log == [] then []
    else
      var e := log[|log| - 1];
      var earlier := FirstSeen(log[..|log| - 1], taskId);
      if NamesAttempt(e, taskId) && e.attemptId.value !in earlier then earlier + [e.attemptId.value] else earlier
  }

  function Sequences(events: seq<Event>): seq<int> {
    seq(|events|, i requires 0 <= i < |events| => events[i].sequence)
  }

  /** The last status any of the events stands for. */
  function LastStatus(events: seq<Event>): Option<TaskStatus> {
    if events == [] then None
    else Latest(LastStatus(events[..|events| - 1]), StatusFromEvent(events[|events| - 1]))
  }

  /** The time of the last event that ends an attempt. */
  function LastEnd(events: seq<Event>): Option<int> {
    if events == [] then None
    else if Ends(events[|events| - 1]) then Some(events[|events| - 1].occurredAt)
    else LastEnd(events[..|events| - 1])
  }

  function Summarize(events: seq<Event>, taskId: string, attemptId: string): AttemptRecord {
    AttemptRecord(attemptId, taskId, LastStatus(events),
                  if events == [] then None else Some(events[0].occurredAt), LastEnd(events), Sequences(events))
  }

  /** The history of a task: its attempts in first-seen order, each summarised from its own events. */
  function History(log: seq<Event>, taskId: string): seq<AttemptRecord> {
    var ids := FirstSeen(log, taskId);
    seq(|ids|, i requires 0 <= i < |ids| => Summarize(AttemptLog(log, taskId, ids[i]), taskId, ids[i]))
  }

  lemma {:induction false} FirstSeenOnce(log: seq<Event>, taskId: string)
    ensures forall i, j :: 0 <= i < j < |FirstSeen(log, taskId)| ==>
            FirstSeen(log, taskId)[i] != FirstSeen(log, taskId)[j]
    ensures forall a :: a in FirstSeen(log, taskId) <==> AttemptLog(log, taskId, a) != []
  {
    if log != [] { FirstSeenOnce(log[..|log| - 1], taskId); }
  }

  /** The first event of the log that names the task and the attempt is event p. */
  ghost predicate FirstNamedAt(log: seq<Event>, taskId: string, attemptId: string, p: int) {
    && 0 <= p < |log| && Names(log[p], taskId, attemptId)
    && forall j :: 0 <= j < p ==> !Names(log[j], taskId, attemptId)
  }

  /** Where each attempt of the history was first named; these positions ascend. */
  lemma {:induction false} FirstSeenInOrder(log: seq<Event>, taskId: string) returns (at: seq<nat>)
    ensures |at| == |FirstSeen(log, taskId)|
    ensures forall i :: 0 <= i < |at| ==> FirstNamedAt(log, taskId, FirstSeen(log, taskId)[i], at[i])
    ensures forall i, j :: 0 <= i < j < |at| ==> at[i] < at[j]
  {
    at := [];
    if log != [] {
      var init, e := log[..|log| - 1], log[|log| - 1];
      at := FirstSeenInOrder(init, taskId);
      forall i | 0 <= i < |at| ensures FirstNamedAt(log, taskId, FirstSeen(init, taskId)[i], at[i]) {
        assert FirstNamedAt(init, taskId, FirstSeen(init, taskId)[i], at[i]);
      }
      if NamesAttempt(e, taskId) && e.attemptId.value !in FirstSeen(init, taskId) {
        NeverNamed(init, taskId, e.attemptId.value);
        assert FirstNamedAt(log, taskId, e.attemptId.value, |init|);
        at := at + [|init|];
      }
    }
  }

  lemma {:induction false} NeverNamed(log: seq<Event>, taskId: string, attemptId: string)
    requires attemptId !in FirstSeen(log, taskId)
    ensures forall p :: 0 <= p < |log| ==> !Names(log[p], taskId, attemptId)
  {
    if log != [] {
      NeverNamed(log[..|log| - 1], taskId, attemptId);
      assert forall p :: 0 <= p < |log| - 1 ==> log[..|log| - 1][p] == log[p];
    }
  }

  /** The positions of the events that name the attempt with its task. */
  function Positions(log: seq<Event>, taskId: string, attemptId: string): (at: seq<nat>)
    ensures forall k :: 0 <= k < |at| ==> at[k] < |log|
  {
    if log == [] then []
    else
      var earlier := Positions(log[..|log| - 1], taskId, attemptId);
      if Names(log[|log| - 1], taskId, attemptId) then earlier + [|log| - 1] else earlier
  }

  lemma {:induction false} PositionsComplete(log: seq<Event>, taskId: string, attemptId: string, p: nat)
    requires p < |log| && Names(log[p], taskId, attemptId)
    ensures exists k :: 0 <= k < |Positions(log, taskId, attemptId)| && Positions(log, taskId, attemptId)[k] == p
  {
    var at := Positions(log, taskId, attemptId);
    if p == |log| - 1 {
      assert at[|at| - 1] == p;
    } else {
      var earlier := Positions(log[..|log| - 1], taskId, attemptId);
      PositionsComplete(log[..|log| - 1], taskId, attemptId, p);
      var k :| 0 <= k < |earlier| && earlier[k] == p;
      assert at[k] == p;
    }
  }

  lemma {:induction false} PositionsAscend(log: seq<Event>, taskId: string, attemptId: string)
    ensures forall k, l :: 0 <= k < l < |Positions(log, taskId, attemptId)| ==>
              Positions(log, taskId, attemptId)[k] < Positions(log, taskId, attemptId)[l]
  {
    if log != [] { PositionsAscend(log[..|log| - 1], taskId, attemptId); }
  }

  /** The events of an attempt are exactly the events that name it with its task, in log order. */
  lemma {:induction false} AttemptLogIsSubsequence(log: seq<Event>, taskId: string, attemptId: string)
    ensures |AttemptLog(log, taskId, attemptId)| == |Positions(log, taskId, attemptId)|
    ensures forall k :: 0 <= k < |Positions(log, taskId, attemptId)| ==>
              AttemptLog(log, taskId, attemptId)[k] == log[Positions(log, taskId, attemptId)[k]]
  {
    if log != [] { AttemptLogIsSubsequence(log[..|log| - 1], taskId, attemptId); }
  }

  lemma {:induction false} LastStatusIsLast(events: seq<Event>)
    ensures LastStatus(events).Some? <==> exists i :: 0 <= i < |events| && StatusFromEvent(events[i]).Some?
    ensures forall i :: 0 <= i < |events| && StatusFromEvent(events[i]).Some?
              && (forall j :: i < j < |events| ==> StatusFromEvent(events[j]).None?)
              ==> LastStatus(events) == StatusFromEvent(events[i])
  {
    if events != [] {
      var n := |events| - 1;
      LastStatusIsLast(events[..n]);
      assert forall i :: 0 <= i < n ==> events[..n][i] == events[i];
    }
  }

  // ----- the update as it runs -----

  function Start(r: AttemptRecord, e: Event): Option<int> {
    if r.startedAt.None? then Some(e.occurredAt) else r.startedAt
  }

  /** One event entered into the record of its attempt. */
  function Enter(r: AttemptRecord, e: Event): AttemptRecord {
    r.(eventSequence := r.eventSequence + [e.sequence],
       startedAt := Start(r, e),
       status := Latest(r.status, StatusFromEvent(e)),
       endedAt := if Ends(e) then Some(e.occurredAt) else r.endedAt)
  }

  lemma EnterIsSummary(events: seq<Event>, taskId: string, e: Event, attemptId: string)
    ensures Enter(Summarize(events, taskId, attemptId), e) == Summarize(events + [e], taskId, attemptId)
  {
    assert (events + [e])[..|events|] == events;
  }

  /** The search-or-create loop, then the field updates on the record found. */
  method RecordAttempt(history: seq<AttemptRecord>, e: Event, ghost log: seq<Event>)
      returns (updated: seq<AttemptRecord>)
    requires !IsBroken(e) && Truthy(e.taskId) && Truthy(e.attemptId)
    requires history == History(log, e.taskId.value)
    ensures updated == History(log + [e], e.taskId.value)
  {
    var taskId, attemptId := e.taskId.value, e.attemptId.value;
    ghost var ids := FirstSeen(log, taskId);
    FirstSeenOnce(log, taskId);
    assert (log + [e])[..|log|] == log;
    updated := history;
    var at := 0;
    while at < |updated| && updated[at].attemptId != attemptId
      invariant 0 <= at <= |updated|
      invariant forall j :: 0 <= j < at ==> ids[j] != attemptId
    {
      at := at + 1;
    }
    if at == |updated| {
      updated := updated + [AttemptRecord(attemptId, taskId, None, None, None, [])];
    }
    assert FirstSeen(log + [e], taskId)[at] == attemptId;
    var r := updated[at];
    r := r.(eventSequence := r.eventSequence + [e.sequence]);
    if r.startedAt.None? { r := r.(startedAt := Some(e.occurredAt)); }
    var status := StatusFromEvent(e);
    if status.Some? { r := r.(status := status); }
    if Ends(e) { r := r.(endedAt := Some(e.occurredAt)); }
    EnteredIsHistory(log, e, updated, at);
    updated := updated[at := r];
  }

  /** Entering the event into the record at its place gives the history of the longer log. */
  lemma EnteredIsHistory(log: seq<Event>, e: Event, records: seq<AttemptRecord>, at: nat)
    requires !IsBroken(e) && Truthy(e.taskId) && Truthy(e.attemptId)
    requires at < |records| == |FirstSeen(log + [e], e.taskId.value)|
    requires FirstSeen(log + [e], e.taskId.value)[at] == e.attemptId.value
    requires forall i :: 0 <= i < |records| ==>
            IsRecord(log, e.taskId.value, FirstSeen(log + [e], e.taskId.value)[i], records[i])
    ensures records[at := Enter(records[at], e)] == History(log + [e], e.taskId.value)
  {
    var taskId, ids := e.taskId.value, FirstSeen(log + [e], e.taskId.value);
    FirstSeenOnce(log + [e], taskId);
    assert (log + [e])[..|log|] == log;
    EnterIsSummary(AttemptLog(log, taskId, ids[at]), taskId, e, ids[at]);
    forall i | 0 <= i < |records| ensures records[at := Enter(records[at], e)][i] == History(log + [e], taskId)[i] {
      assert IsRecord(log, taskId, ids[i], records[i]);
      assert i != at ==> ids[i] != ids[at];
    }
  }

  predicate IsRecord(log: seq<Event>, taskId: string, attemptId: string, r: AttemptRecord) {
    r == Summarize(AttemptLog(log, taskId, attemptId), taskId, attemptId)
  }

  lemma HistoryOfOthers(log: seq<Event>, e: Event, taskId: string)
    requires !NamesAttempt(e, taskId)
    ensures History(log + [e], taskId) == History(log, taskId)
  {
    assert (log + [e])[..|log|] == log;
  }

  /** A task whose attempts are named by one run only has the history that run's own log gives it. */
  lemma {:induction false} HistoryIsPerRun(log: seq<Event>, runId: string, taskId: string)
    requires forall e :: e in log && NamesAttempt(e, taskId) ==> e.runId == runId
    ensures History(log, taskId) == History(RunLog(log, runId), taskId)
  {
    SeenIsPerRun(log, runId, taskId);
    forall a ensures AttemptLog(log, taskId, a) == AttemptLog(RunLog(log, runId), taskId, a) {
      AttemptLogIsPerRun(log, runId, taskId, a);
    }
  }

  lemma {:induction false} SeenIsPerRun(log: seq<Event>, runId: string, taskId: string)
    requires forall e :: e in log && NamesAttempt(e, taskId) ==> e.runId == runId
    ensures FirstSeen(log, taskId) == FirstSeen(RunLog(log, runId), taskId)
  {
    if log != [] {
      var init, e := log[..|log| - 1], log[|log| - 1];
      SeenIsPerRun(init, runId, taskId);
      assert (RunLog(init, runId) + [e])[..|RunLog(init, runId)|] == RunLog(init, runId);
    }
  }

  lemma {:induction false} AttemptLogIsPerRun(log: seq<Event>, runId: string, taskId: string, attemptId: string)
    requires forall e :: e in log && NamesAttempt(e, taskId) ==> e.runId == runId
    ensures AttemptLog(log, taskId, attemptId) == AttemptLog(RunLog(log, runId), taskId, attemptId)
  {
    if log != [] {
      var init, e := log[..|log| - 1], log[|log| - 1];
      AttemptLogIsPerRun(init, runId, taskId, attemptId);
      assert (RunLog(init, runId) + [e])[..|RunLog(init, runId)|] == RunLog(init, runId);
    }
  }
}
