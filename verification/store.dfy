/** The in-memory event store: an append-only, idempotent log and the read models fed from it. */
module EventStore {
  import opened Common
  import opened Events
  import opened TaskGraphs
  import opened AttemptHistories
  import opened WorkerReports

  // ----- the specification: the state of the store is its log -----

  predicate KeyIn(log: seq<Event>, key: string) {
    exists i :: 0 <= i < |log| && log[i].key == key
  }

  /** Whether an append takes the event. */
  predicate Accepts(log: seq<Event>, e: Event) {
    !KeyIn(log, e.key) && e.sequence == |RunLog(log, e.runId)| + 1
  }

  /** The log after one delivery. */
  function Deliver(log: seq<Event>, e: Event): seq<Event> {
    if Accepts(log, e) then log + [e] else log
  }

  function DeliverAll(log: seq<Event>, deliveries: seq<Event>): seq<Event> {
    if deliveries == [] then log
    else Deliver(DeliverAll(log, deliveries[..|deliveries| - 1]), deliveries[|deliveries| - 1])
  }

  /** `Raised` is an event that was stored before the projector raised on its payload. */
  datatype AppendResult =
    | Stored(event: Event)
    | Raised(event: Event)
    | Existing(event: Event)
    | WrongSequence(expected: int, got: int)

  function Timeline(events: seq<Event>): seq<TimelineEntry> {
    seq(|events|, i requires 0 <= i < |events| => BuildTimelineEntry(events[i]))
  }

  // ----- the read models of a log -----

  ghost predicate TimelinesMatch(timelines: map<string, seq<TimelineEntry>>, log: seq<Event>) {
    forall r: string :: GetOr(timelines, r, []) == Timeline(RunLog(log, r))
  }

  ghost predicate GraphsMatch(graphs: map<string, Graph>, log: seq<Event>) {
    forall r: string :: Lookup(graphs, r) == IncrementalGraph(RunLog(log, r))
  }

  ghost predicate AttemptsMatch(attempts: map<string, seq<AttemptRecord>>, log: seq<Event>) {
    forall t: string :: GetOr(attempts, t, []) == History(log, t)
  }

  /** The reports kept, and the order in which their workers first reported. */
  ghost predicate WorkersMatch(workers: map<string, WorkerHealth>, order: seq<string>, log: seq<Event>) {
    (forall w: string :: Lookup(workers, w) == LastReport(log, w)) && order == FirstReported(log)
  }

  lemma WorkersStep(workers: map<string, WorkerHealth>, order: seq<string>, log: seq<Event>, e: Event)
    requires WorkersMatch(workers, order, log)
    ensures if !IsReadable(e) then WorkersMatch(workers, order, log + [e])
            else
              var id := e.payload.workerId.value;
              WorkersMatch(workers[id := HealthOf(e)], if id in workers then order else order + [id], log + [e])
  {
    assert (log + [e])[..|log|] == log;
    if IsReadable(e) {
      var id := e.payload.workerId.value;
      ReportedExactly(log, id);
      assert Lookup(workers, id) == LastReport(log, id);
      forall w: string ensures Lookup(workers[id := HealthOf(e)], w) == LastReport(log + [e], w) {
        assert Lookup(workers, w) == LastReport(log, w);
      }
    }
  }

  lemma TimelinesStep(timelines: map<string, seq<TimelineEntry>>, log: seq<Event>, e: Event)
    requires TimelinesMatch(timelines, log)
    ensures TimelinesMatch(timelines[e.runId := GetOr(timelines, e.runId, []) + [BuildTimelineEntry(e)]], log + [e])
  {
    forall r: string { RunLogSnoc(log, e, r); }
  }

  lemma GraphsStep(graphs: map<string, Graph>, log: seq<Event>, e: Event, updated: map<string, Graph>)
    requires GraphsMatch(graphs, log)
    requires Lookup(updated, e.runId) == GraphStep(Lookup(graphs, e.runId), e)
    requires forall r: string :: r != e.runId ==> Lookup(updated, r) == Lookup(graphs, r)
    ensures GraphsMatch(updated, log + [e])
  {
    var runLog := RunLog(log, e.runId);
    assert (runLog + [e])[..|runLog|] == runLog;
    forall r: string { RunLogSnoc(log, e, r); }
  }

  lemma AttemptsStep(attempts: map<string, seq<AttemptRecord>>, log: seq<Event>, e: Event,
                     updated: map<string, seq<AttemptRecord>>)
    requires AttemptsMatch(attempts, log)
    requires forall t: string :: GetOr(updated, t, []) ==
               if NamesAttempt(e, t) then History(log + [e], t) else GetOr(attempts, t, [])
    ensures AttemptsMatch(updated, log + [e])
  {
    forall t: string | !NamesAttempt(e, t) { HistoryOfOthers(log, e, t); }
  }

  /** An event on which the projector raises. */
  predicate Raises(e: Event) {
    IsBroken(e) || Unreadable(e)
  }

  lemma BrokenChangesNothing(graphs: map<string, Graph>, attempts: map<string, seq<AttemptRecord>>, log: seq<Event>,
      e: Event)
    requires GraphsMatch(graphs, log) && AttemptsMatch(attempts, log) && IsBroken(e)
    ensures GraphsMatch(graphs, log + [e]) && AttemptsMatch(attempts, log + [e])
  {
    GraphsStep(graphs, log, e, graphs);
    AttemptsStep(attempts, log, e, attempts);
  }

  /** The per-run lists and the key index of the store. */
  ghost predicate RunsMatch(eventsByRun: map<string, seq<Event>>, log: seq<Event>) {
    forall r: string :: GetOr(eventsByRun, r, []) == RunLog(log, r)
  }

  ghost predicate IndexMatches(eventsByKey: map<string, Event>, log: seq<Event>) {
    && (forall k :: k in eventsByKey <==> KeyIn(log, k))
    && (forall k :: k in eventsByKey ==> eventsByKey[k] in log && eventsByKey[k].key == k)
  }

  lemma RunsStep(eventsByRun: map<string, seq<Event>>, log: seq<Event>, e: Event)
    requires RunsMatch(eventsByRun, log)
    ensures RunsMatch(eventsByRun[e.runId := GetOr(eventsByRun, e.runId, []) + [e]], log + [e])
  {
    forall r: string { RunLogSnoc(log, e, r); }
  }

  lemma IndexStep(eventsByKey: map<string, Event>, log: seq<Event>, e: Event)
    requires IndexMatches(eventsByKey, log) && !KeyIn(log, e.key)
    ensures IndexMatches(eventsByKey[e.key := e], log + [e])
  {
    forall k { KeyInSnoc(log, e, k); }
  }

  // ----- the projector and the store as they run -----

  class RuntimeProjector {
    var timelines: map<string, seq<TimelineEntry>>
    var graphs: map<string, Graph>
    var attempts: map<string, seq<AttemptRecord>>
    var workers: map<string, WorkerHealth>
    var workerOrder: seq<string>
    ghost var log: seq<Event>

    /** Every read model is what the log says. */
    ghost predicate Valid()
      reads this
    {
      && TimelinesMatch(timelines, log) && GraphsMatch(graphs, log) && AttemptsMatch(attempts, log)
      && WorkersMatch(workers, workerOrder, log)
    }

    constructor ()
      ensures Valid() && log == []
    {
      timelines, graphs, attempts, workers, workerOrder, log := map[], map[], map[], map[], [], [];
    }

    /** A broken snapshot raises once the timeline is extended, an unreadable worker report once everything else is
        applied; what was not reached stays as it was. */
    method Apply(e: Event) returns (raised: bool)
      requires Valid()
      modifies this
      ensures Valid() && log == old(log) + [e]
      ensures raised <==> Raises(e)
      ensures raised <==> || (e.eventType.TaskGraphUpdated? && !e.payload.graphReadable)
                          || (e.eventType.WorkerHealthReported?
                              && (e.payload.workerId.None? || e.payload.report.None?))
    {
      UpdateTimeline(e);
      if IsBroken(e) {
        BrokenChangesNothing(graphs, attempts, log, e);
        WorkersStep(workers, workerOrder, log, e);
        log := log + [e];
        return true;
      }
      UpdateGraph(e);
      UpdateAttempts(e);
      raised := UpdateWorkers(e);
      log := log + [e];
    }

    method UpdateWorkers(e: Event) returns (raised: bool)
      requires WorkersMatch(workers, workerOrder, log)
      modifies this`workers, this`workerOrder
      ensures WorkersMatch(workers, workerOrder, log + [e])
      ensures raised <==> Unreadable(e)
    {
      raised := false;
      WorkersStep(workers, workerOrder, log, e);
      if e.eventType.WorkerHealthReported? {
        if e.payload.workerId.None? || e.payload.report.None? {
          raised := true;
        } else {
          var id := e.payload.workerId.value;
          if id !in workers { workerOrder := workerOrder + [id]; }
          workers := workers[id := WorkerHealth(id, e.payload.report.value, e.occurredAt)];
        }
      }
    }

    method UpdateTimeline(e: Event)
      requires TimelinesMatch(timelines, log)
      modifies this`timelines
      ensures TimelinesMatch(timelines, log + [e])
    {
      TimelinesStep(timelines, log, e);
      timelines := timelines[e.runId := GetOr(timelines, e.runId, []) + [BuildTimelineEntry(e)]];
    }

    /** A snapshot replaces the graph of the run; then the nodes of the event's task are updated in place. */
    method UpdateGraph(e: Event)
      requires GraphsMatch(graphs, log) && !IsBroken(e)
      modifies this`graphs
      ensures GraphsMatch(graphs, log + [e])
    {
      if e.eventType.TaskGraphUpdated? {
        graphs := graphs[e.runId := SnapshotOf(e)];
      }
      if Truthy(e.taskId) && e.runId in graphs {
        var graph := graphs[e.runId];
        var nodes := TouchInPlace(graph.nodes, e);
        graphs := graphs[e.runId := graph.(nodes := nodes)];
      }
      GraphsStep(old(graphs), log, e, graphs);
    }

    method UpdateAttempts(e: Event)
      requires AttemptsMatch(attempts, log) && !IsBroken(e)
      modifies this`attempts
      ensures AttemptsMatch(attempts, log + [e])
    {
      if Truthy(e.taskId) && Truthy(e.attemptId) {
        var history := RecordAttempt(GetOr(attempts, e.taskId.value, []), e, log);
        attempts := attempts[e.taskId.value := history];
      }
      AttemptsStep(old(attempts), log, e, attempts);
    }

    method GetTimeline(runId: string) returns (entries: seq<TimelineEntry>)
      requires Valid()
      ensures entries == Timeline(RunLog(log, runId))
    {
      entries := GetOr(timelines, runId, []);
    }

    method GetGraph(runId: string) returns (graph: Graph)
      requires Valid()
      ensures graph == var g := IncrementalGraph(RunLog(log, runId)); if g.Some? then g.value else Graph([], [])
    {
      graph := GetOr(graphs, runId, Graph([], []));
    }

    method GetAttempts(taskId: string) returns (history: seq<AttemptRecord>)
      requires Valid()
      ensures history == History(log, taskId)
    {
      history := GetOr(attempts, taskId, []);
    }

    /** One report for each worker, in the order in which the workers first reported. */
    method GetWorkers() returns (reports: seq<WorkerHealth>)
      requires Valid()
      ensures ListsLast(reports, log)
    {
      reports := [];
      for i := 0 to |workerOrder|
        invariant |reports| == i
        invariant forall j :: 0 <= j < i ==> Lookup(workers, workerOrder[j]) == Some(reports[j])
      {
        ReportedExactly(log, workerOrder[i]);
        assert Lookup(workers, workerOrder[i]) == LastReport(log, workerOrder[i]);
        reports := reports + [workers[workerOrder[i]]];
      }
    }
  }

  class InMemoryRuntimeEventStore {
    var eventsByRun: map<string, seq<Event>>
    var eventsByKey: map<string, Event>
    const projector: RuntimeProjector

    ghost function Log(): seq<Event>
      reads this, projector
    {
      projector.log
    }

    ghost predicate Valid()
      reads this, projector
    {
      && projector.Valid()
      && WellFormed(Log())
      && RunsMatch(eventsByRun, Log())
      && IndexMatches(eventsByKey, Log())
    }

    constructor ()
      ensures Valid() && Log() == [] && fresh(projector)
    {
      eventsByRun, eventsByKey := map[], map[];
      projector := new RuntimeProjector();
    }

    method NextSequence(runId: string) returns (n: int)
      requires Valid()
      ensures n == |RunLog(Log(), runId)| + 1
    {
      n := |GetOr(eventsByRun, runId, [])| + 1;
    }

    /** Idempotent append: a known key returns the stored event, a gap is refused, and only an accepted event
        changes anything, also when the projector then raises on it. */
    method Append(e: Event) returns (result: AppendResult)
      requires Valid()
      modifies this, projector
      ensures Valid() && Log() == Deliver(old(Log()), e)
      ensures result.Stored? || result.Raised? <==> Accepts(old(Log()), e)
      ensures result.Raised? <==> Accepts(old(Log()), e) && Raises(e)
      ensures result.Existing? <==> KeyIn(old(Log()), e.key)
      ensures result.Stored? || result.Raised? ==> result.event == e
      ensures result.Existing? ==> result.event in old(Log()) && result.event.key == e.key
      ensures result.WrongSequence? ==> result.expected == |RunLog(old(Log()), e.runId)| + 1 && result.got == e.sequence
      ensures result.Existing? || result.WrongSequence? ==> unchanged(this) && unchanged(projector)
    {
      if e.key in eventsByKey {
        return Existing(eventsByKey[e.key]);
      }
      var runEvents := GetOr(eventsByRun, e.runId, []);
      var expected := |runEvents| + 1;
      if e.sequence != expected {
        return WrongSequence(expected, e.sequence);
      }
      DeliverKeepsWellFormed(Log(), e);
      RunsStep(eventsByRun, Log(), e);
      IndexStep(eventsByKey, Log(), e);
      eventsByRun := eventsByRun[e.runId := runEvents + [e]];
      eventsByKey := eventsByKey[e.key := e];
      var raised := projector.Apply(e);
      result := if raised then Raised(e) else Stored(e);
    }
  }

  // ----- what every run keeps -----

  ghost predicate RunSequenced(events: seq<Event>) {
    forall i :: 0 <= i < |events| ==> events[i].sequence == i + 1
  }

  ghost predicate DistinctKeys(events: seq<Event>) {
    forall i, j :: 0 <= i < j < |events| ==> events[i].key != events[j].key
  }

  /** Every run's events carry the sequence numbers 1, 2, 3, ..., and no two events share a key. */
  ghost predicate WellFormed(log: seq<Event>) {
    DistinctKeys(log) && forall r: string :: RunSequenced(RunLog(log, r))
  }

  lemma KeyInSnoc(log: seq<Event>, e: Event, key: string)
    ensures KeyIn(log + [e], key) <==> KeyIn(log, key) || key == e.key
  {
    assert (log + [e])[|log|] == e;
    forall i | 0 <= i < |log| ensures (log + [e])[i] == log[i] {}
  }

  lemma DeliverKeepsWellFormed(log: seq<Event>, e: Event)
    requires WellFormed(log)
    ensures WellFormed(Deliver(log, e))
  {
    if Accepts(log, e) {
      forall r: string ensures RunSequenced(RunLog(log + [e], r)) {
        RunLogSnoc(log, e, r);
        assert RunSequenced(RunLog(log, r));
      }
    }
  }

  lemma {:induction false} EveryLogIsWellFormed(deliveries: seq<Event>)
    ensures WellFormed(DeliverAll([], deliveries))
  {
    if deliveries != [] {
      EveryLogIsWellFormed(deliveries[..|deliveries| - 1]);
      DeliverKeepsWellFormed(DeliverAll([], deliveries[..|deliveries| - 1]), deliveries[|deliveries| - 1]);
    }
  }

  // ----- at-least-once delivery, exactly-once effect -----

  /** The deliveries that are marked. */
  function Kept(deliveries: seq<Event>, keep: seq<bool>): seq<Event>
    requires |keep| == |deliveries|
  {
    if deliveries == [] then []
    else
      var n := |deliveries| - 1;
      var kept := Kept(deliveries[..n], keep[..n]);
      if keep[n] then kept + [deliveries[n]] else kept
  }

  /** Unmarked deliveries repeat an event that was accepted before them. */
  ghost predicate OnlyRepeatsDropped(log: seq<Event>, deliveries: seq<Event>, keep: seq<bool>)
    requires |keep| == |deliveries|
  {
    forall i :: 0 <= i < |deliveries| && !keep[i] ==> KeyIn(DeliverAll(log, deliveries[..i]), deliveries[i].key)
  }

  /** Deliveries that repeat accepted events have no effect: the log, and with it every read model, is the one
      the remaining deliveries produce alone. */
  lemma {:induction false} RepeatsHaveNoEffect(log: seq<Event>, deliveries: seq<Event>, keep: seq<bool>)
    requires |keep| == |deliveries| && OnlyRepeatsDropped(log, deliveries, keep)
    ensures DeliverAll(log, deliveries) == DeliverAll(log, Kept(deliveries, keep))
  {
    if deliveries != [] {
      var n := |deliveries| - 1;
      forall i | 0 <= i < n ensures deliveries[..n][..i] == deliveries[..i] {}
      RepeatsHaveNoEffect(log, deliveries[..n], keep[..n]);
      if keep[n] {
        var kept := Kept(deliveries[..n], keep[..n]);
        assert (kept + [deliveries[n]])[..|kept|] == kept;
      }
    }
  }

  // ----- interleaving independence -----

  /** Two orders of delivery that keep every run's own order. */
  ghost predicate Interleavings(a: seq<Event>, b: seq<Event>) {
    forall r: string :: RunLog(a, r) == RunLog(b, r)
  }

  /** What a run's log becomes when its own deliveries arrive in this order. */
  function InSequence(events: seq<Event>): seq<Event> {
    if events == [] then []
    else
      var log := InSequence(events[..|events| - 1]);
      var e := events[|events| - 1];
      if e.sequence == |log| + 1 then log + [e] else log
  }

  lemma {:induction false} LogComesFromDeliveries(deliveries: seq<Event>, key: string)
    ensures KeyIn(DeliverAll([], deliveries), key) ==> KeyIn(deliveries, key)
  {
    if deliveries != [] {
      var init, e := deliveries[..|deliveries| - 1], deliveries[|deliveries| - 1];
      LogComesFromDeliveries(init, key);
      assert init + [e] == deliveries;
      KeyInSnoc(init, e, key);
      KeyInSnoc(DeliverAll([], init), e, key);
    }
  }

  /** With distinct keys, the log of a run depends on the deliveries of that run alone. */
  lemma {:induction false} RunLogIsLocal(deliveries: seq<Event>, runId: string)
    requires DistinctKeys(deliveries)
    ensures RunLog(DeliverAll([], deliveries), runId) == InSequence(RunLog(deliveries, runId))
  {
    if deliveries != [] {
      var init, e := deliveries[..|deliveries| - 1], deliveries[|deliveries| - 1];
      RunLogIsLocal(init, runId);
      LogComesFromDeliveries(init, e.key);
      assert !KeyIn(DeliverAll([], init), e.key);
      RunLogSnoc(DeliverAll([], init), e, runId);
      assert (RunLog(init, runId) + [e])[..|RunLog(init, runId)|] == RunLog(init, runId);
      if e.runId == runId {
        assert Accepts(DeliverAll([], init), e) <==> e.sequence == |InSequence(RunLog(init, runId))| + 1;
      }
    }
  }

  lemma {:induction false} DeliveredFrom(log: seq<Event>, deliveries: seq<Event>)
    ensures forall e :: e in DeliverAll(log, deliveries) ==> e in log || e in deliveries
  {
    if deliveries != [] { DeliveredFrom(log, deliveries[..|deliveries| - 1]); }
  }

  lemma {:induction false} RunLogMembers(log: seq<Event>, runId: string)
    ensures forall e :: e in RunLog(log, runId) <==> e in log && e.runId == runId
  {
    if log != [] { RunLogMembers(log[..|log| - 1], runId); }
  }

  lemma {:induction false} RunLogKeysDistinct(log: seq<Event>, runId: string)
    requires DistinctKeys(log)
    ensures DistinctKeys(RunLog(log, runId))
  {
    if log != [] {
      var init, e := log[..|log| - 1], log[|log| - 1];
      RunLogKeysDistinct(init, runId);
      RunLogMembers(init, runId);
      forall i | 0 <= i < |RunLog(init, runId)| ensures RunLog(init, runId)[i].key != e.key {
        assert RunLog(init, runId)[i] in init;
      }
    }
  }

  /** Two events of one run keep their order in the run's log. */
  lemma {:induction false} RunLogKeepsOrder(log: seq<Event>, i: nat, j: nat) returns (p: nat, q: nat)
    requires i < j < |log| && log[i].runId == log[j].runId
    ensures var events := RunLog(log, log[i].runId);
            p < q < |events| && events[p] == log[i] && events[q] == log[j]
  {
    var init := log[..|log| - 1];
    if j < |log| - 1 {
      p, q := RunLogKeepsOrder(init, i, j);
    } else {
      RunLogMembers(init, log[i].runId);
      assert init[i] in RunLog(init, log[i].runId);
      p :| 0 <= p < |RunLog(init, log[i].runId)| && RunLog(init, log[i].runId)[p] == log[i];
      q := |RunLog(init, log[i].runId)|;
    }
  }

  /** Distinct keys in one order of delivery are distinct keys in every other. */
  lemma InterleavingKeepsKeysDistinct(a: seq<Event>, b: seq<Event>)
    requires Interleavings(a, b) && DistinctKeys(a)
    ensures DistinctKeys(b)
  {
    forall i, j | 0 <= i < j < |b| ensures b[i].key != b[j].key {
      if b[i].runId == b[j].runId {
        var p, q := RunLogKeepsOrder(b, i, j);
        RunLogKeysDistinct(a, b[i].runId);
      } else {
        OtherRunsKeyDiffers(a, b, b[i], b[j]);
      }
    }
  }

  lemma OtherRunsKeyDiffers(a: seq<Event>, b: seq<Event>, x: Event, y: Event)
    requires Interleavings(a, b) && DistinctKeys(a) && x in b && y in b && x.runId != y.runId
    ensures x.key != y.key
  {
    RunLogMembers(a, x.runId);
    RunLogMembers(b, x.runId);
    RunLogMembers(a, y.runId);
    RunLogMembers(b, y.runId);
    assert x in RunLog(a, x.runId) && y in RunLog(a, y.runId);
  }

  /** Any two interleavings of the same per-run deliveries give every run the same timeline and graph. */
  lemma {:induction false} InterleavingsAgreeOnRuns(a: seq<Event>, b: seq<Event>, runId: string)
    requires Interleavings(a, b) && DistinctKeys(a)
    ensures Timeline(RunLog(DeliverAll([], a), runId)) == Timeline(RunLog(DeliverAll([], b), runId))
    ensures IncrementalGraph(RunLog(DeliverAll([], a), runId)) == IncrementalGraph(RunLog(DeliverAll([], b), runId))
  {
    InterleavingKeepsKeysDistinct(a, b);
    RunLogIsLocal(a, runId);
    RunLogIsLocal(b, runId);
  }

  /** ... and every task that only one run names the same attempt history. */
  lemma {:induction false} InterleavingsAgreeOnTasks(a: seq<Event>, b: seq<Event>, runId: string, taskId: string)
    requires Interleavings(a, b) && DistinctKeys(a)
    requires forall e :: e in a && NamesAttempt(e, taskId) ==> e.runId == runId
    ensures History(DeliverAll([], a), taskId) == History(DeliverAll([], b), taskId)
  {
    forall e | e in b && NamesAttempt(e, taskId) ensures e.runId == runId {
      RunLogMembers(b, e.runId);
      RunLogMembers(a, e.runId);
      assert e in RunLog(a, e.runId);
    }
    DeliveredFrom([], a);
    DeliveredFrom([], b);
    HistoryIsPerRun(DeliverAll([], a), runId, taskId);
    HistoryIsPerRun(DeliverAll([], b), runId, taskId);
    InterleavingKeepsKeysDistinct(a, b);
    RunLogIsLocal(a, runId);
    RunLogIsLocal(b, runId);
  }
}
