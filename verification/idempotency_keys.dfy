/** Default idempotency keys: `run:sequence:type` names the run, the sequence number and the type uniquely, so that a
    refused duplicate is a genuine one, and an event is accepted exactly when it continues its run. */
module IdempotencyKeys {
  import opened Common
  import opened RuntimeContracts
  import opened Events
  import opened EventStore

  const DIGITS := "0123456789"

  function Digits(n: nat): (s: string)
    ensures s != "" && ':' !in s && '-' !in s
  {
    if n < 10 then [DIGITS[n]] else Digits(n / 10) + [DIGITS[n % 10]]
  }

  /** `str(n)`. */
  function Decimal(n: int): (s: string)
    ensures ':' !in s
  {
    if n < 0 then "-" + Digits(-n) else Digits(n)
  }

  function DefaultKey(runId: string, sequence: int, eventType: EventType): string {
    runId + ":" + Decimal(sequence) + ":" + EventTypeValue(eventType)
  }

  /** The key the builder puts on an event: the caller's, unless it is missing or empty. */
  function BuildKey(given: Option<string>, runId: string, sequence: int, eventType: EventType): string {
    if Truthy(given) then given.value else DefaultKey(runId, sequence, eventType)
  }

  lemma {:induction false} DigitsInjective(a: nat, b: nat)
    requires Digits(a) == Digits(b)
    ensures a == b
  {
    assert forall i, j :: 0 <= i < j < 10 ==> DIGITS[i] != DIGITS[j];
    var s, t := Digits(a), Digits(b);
    assert s[|s| - 1] == t[|t| - 1];
    assert s[..|s| - 1] == t[..|t| - 1];
    if a >= 10 && b >= 10 {
      assert s[..|s| - 1] == Digits(a / 10) && t[..|t| - 1] == Digits(b / 10);
      DigitsInjective(a / 10, b / 10);
    }
  }

  lemma DecimalInjective(a: int, b: int)
    requires Decimal(a) == Decimal(b)
    ensures a == b
  {
    var s, t := Decimal(a), Decimal(b);
    assert s[0] == t[0];
    if a < 0 && b < 0 {
      assert s[1..] == t[1..];
      DigitsInjective(-a, -b);
    } else if a >= 0 && b >= 0 {
      DigitsInjective(a, b);
    }
  }

  /** The text before and after the last colon is determined by the whole. */
  lemma LastColonSplits(a: string, b: string, c: string, d: string)
    requires a + ":" + b == c + ":" + d
    requires ':' !in b && ':' !in d
    ensures a == c && b == d
  {
    var s, t := a + ":" + b, c + ":" + d;
    assert s[|a|] == ':' && t[|c|] == ':';
    assert a == s[..|a|] && c == t[..|c|];
    assert b == s[|a| + 1..] && d == t[|c| + 1..];
  }

  lemma TaskValuesHaveNoColon(t: EventType)
    requires IsTaskEvent(t)
    ensures ':' !in EventTypeValue(t)
  {
  }

  lemma WorkflowValuesHaveNoColon(t: EventType)
    requires IsWorkflowEvent(t)
    ensures ':' !in EventTypeValue(t)
  {
  }

  lemma OtherValuesHaveNoColon(t: EventType)
    requires !IsTaskEvent(t) && !IsWorkflowEvent(t)
    ensures ':' !in EventTypeValue(t)
  {
  }

  predicate IsTaskEvent(t: EventType) {
    t.TaskClaimed? || t.TaskRunning? || t.TaskVerifying? || t.TaskCompleted? || t.TaskFailed? ||
    t.TaskHeartbeat? || t.TaskReclaimed? || t.TaskGraphUpdated? || t.TaskTodoUpdated?
  }

  predicate IsWorkflowEvent(t: EventType) {
    t.WorkflowStarted? || t.WorkflowCompleted? || t.WorkflowFailed? || t.WorkflowRetrying? ||
    t.WorkflowWaitingApproval? || t.ApprovalRequested? || t.ApprovalResolved?
  }

  lemma ValuesHaveNoColon(t: EventType)
    ensures ':' !in EventTypeValue(t)
  {
    if IsTaskEvent(t) {
      TaskValuesHaveNoColon(t);
    } else if IsWorkflowEvent(t) {
      WorkflowValuesHaveNoColon(t);
    } else {
      OtherValuesHaveNoColon(t);
    }
  }

  lemma ValuesInjective(a: EventType, b: EventType)
    requires EventTypeValue(a) == EventTypeValue(b)
    ensures a == b
  {
    var s, t := EventTypeValue(a), EventTypeValue(b);
    assert |s| == |t|;
    assert forall i :: 0 <= i < |s| ==> s[i] == t[i];
  }

  /** Two default keys are equal only for the same run, sequence number and type, colons in run ids included. */
  lemma DefaultKeysInjective(r1: string, n1: int, t1: EventType, r2: string, n2: int, t2: EventType)
    requires DefaultKey(r1, n1, t1) == DefaultKey(r2, n2, t2)
    ensures r1 == r2 && n1 == n2 && t1 == t2
  {
    ValuesHaveNoColon(t1);
    ValuesHaveNoColon(t2);
    LastColonSplits(r1 + ":" + Decimal(n1), EventTypeValue(t1), r2 + ":" + Decimal(n2), EventTypeValue(t2));
    LastColonSplits(r1, Decimal(n1), r2, Decimal(n2));
    DecimalInjective(n1, n2);
    ValuesInjective(t1, t2);
  }

  /** The event was built without a key of the caller's. */
  ghost predicate DefaultKeyed(e: Event) {
    exists given :: !Truthy(given) && e.key == BuildKey(given, e.runId, e.sequence, e.eventType)
  }

  predicate SamePosition(x: Event, e: Event) {
    x.runId == e.runId && x.sequence == e.sequence && x.eventType == e.eventType
  }

  lemma {:induction false} SameKeySamePosition(x: Event, e: Event)
    requires DefaultKeyed(x) && DefaultKeyed(e)
    ensures x.key == e.key <==> SamePosition(x, e)
  {
    if x.key == e.key {
      DefaultKeysInjective(x.runId, x.sequence, x.eventType, e.runId, e.sequence, e.eventType);
    }
  }

  /** A store of default-keyed events refuses a default-keyed event as a duplicate only when it already holds an
      event of that type at that position of that run. */
  lemma DuplicatesAreGenuine(log: seq<Event>, e: Event)
    requires DefaultKeyed(e) && forall x :: x in log ==> DefaultKeyed(x)
    ensures KeyIn(log, e.key) <==> exists i :: 0 <= i < |log| && SamePosition(log[i], e)
  {
    forall i | 0 <= i < |log| ensures log[i].key == e.key <==> SamePosition(log[i], e) {
      SameKeySamePosition(log[i], e);
    }
  }

  /** An event that continues its run is therefore always taken. */
  lemma {:induction false} NextEventAccepted(log: seq<Event>, e: Event)
    requires WellFormed(log) && DefaultKeyed(e) && forall x :: x in log ==> DefaultKeyed(x)
    ensures Accepts(log, e) <==> e.sequence == |RunLog(log, e.runId)| + 1
  {
    DuplicatesAreGenuine(log, e);
    RunLogMembers(log, e.runId);
    assert RunSequenced(RunLog(log, e.runId));
    if i :| 0 <= i < |log| && SamePosition(log[i], e) {
      assert log[i] in RunLog(log, e.runId);
    }
  }

  /** What a default key looks like. */
  lemma DefaultKeyText()
    ensures DefaultKey("run-1", 12, EventType.TaskFailed) == "run-1:12:task.failed"
  {
    assert Digits(1) == "1" && Digits(12) == "1" + "2";
    assert DefaultKey("run-1", 12, EventType.TaskFailed) == "run-1" + ":" + "12" + ":" + "task.failed";
  }
}
