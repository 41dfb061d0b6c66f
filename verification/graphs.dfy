/** The task graph of a run, rebuilt event by event and in two passes over the log. */
module TaskGraphs {
  import opened Common
  import opened RuntimeContracts
  import opened Events

  // ----- the two projections -----

  function SnapshotOf(e: Event): Graph {
    Graph(e.payload.nodes, e.payload.edges)
  }

  function TouchNode(n: Node, e: Event): Node {
    if e.taskId == Some(n.taskId) then n.(live := Overlay(n.live, WriteOf(e))) else n
  }

  function TouchNodes(nodes: seq<Node>, e: Event): seq<Node> {
    seq(|nodes|, i requires 0 <= i < |nodes| => TouchNode(nodes[i], e))
  }

  /** One event applied to the live graph: a snapshot replaces it, then the event's task is updated; a broken snapshot
      raises before it does anything to the graph. */
  function GraphStep(g: Option<Graph>, e: Event): Option<Graph> {
    if IsBroken(e) then g
    else
      var g := if e.eventType.TaskGraphUpdated? then Some(SnapshotOf(e)) else g;
      if g.Some? && Truthy(e.taskId) then Some(g.value.(nodes := TouchNodes(g.value.nodes, e))) else g
  }

  function IncrementalGraph(events: seq<Event>): Option<Graph> {
    if events == [] then None
    else GraphStep(IncrementalGraph(events[..|events| - 1]), events[|events| - 1])
  }

  function LatestSnapshot(events: seq<Event>): Option<Graph> {
    if events == [] then None
    else if events[|events| - 1].eventType.TaskGraphUpdated? then Some(SnapshotOf(events[|events| - 1]))
    else LatestSnapshot(events[..|events| - 1])
  }

  function Replay(nodes: seq<Node>, events: seq<Event>): seq<Node> {
    if events == [] then nodes
    else TouchNodes(Replay(nodes, events[..|events| - 1]), events[|events| - 1])
  }

  /** The latest snapshot with the whole log replayed onto it. */
  function BatchGraph(events: seq<Event>): Option<Graph> {
    var g := LatestSnapshot(events);
    if g.None? then None else Some(g.value.(nodes := Replay(g.value.nodes, events)))
  }

  // ----- the batch projector as it runs -----

  /** A row of the task table, as far as the graph reads it. */
  datatype TaskRow = TaskRow(
    id: string, title: string, status: TaskStatus,
    blockedReason: Option<string>, executorSummary: Option<string>, dependsOn: seq<string>)

  function RowNode(t: TaskRow): Node {
    Node(t.id, t.title, Fields(Some(t.status), t.blockedReason, t.executorSummary, []))
  }

  function RowEdges(t: TaskRow): seq<Edge> {
    seq(|t.dependsOn|, i requires 0 <= i < |t.dependsOn| => Edge(t.dependsOn[i], t.id, "depends_on"))
  }

  function RowsGraph(tasks: seq<TaskRow>): Graph {
    if tasks == [] then Graph([], [])
    else
      var g := RowsGraph(tasks[..|tasks| - 1]);
      var t := tasks[|tasks| - 1];
      Graph(g.nodes + [RowNode(t)], g.edges + RowEdges(t))
  }

  /** No snapshot in the log is broken. */
  ghost predicate NoneBroken(events: seq<Event>) {
    forall i :: 0 <= i < |events| ==> !IsBroken(events[i])
  }

  /** What the batch projector reports: task rows stand in when the log holds no snapshot, and any broken snapshot of
      the log raises. */
  method ProjectBatch(events: seq<Event>, tasks: seq<TaskRow>) returns (reported: Option<Graph>)
    ensures reported.Some? <==> NoneBroken(events)
    ensures reported.None? <==>
            exists i :: 0 <= i < |events| && events[i].eventType.TaskGraphUpdated? && !events[i].payload.graphReadable
    ensures reported.Some? ==>
              reported.value == if BatchGraph(events).Some? then BatchGraph(events).value else RowsGraph(tasks)
  {
    var graph: Graph;
    var latest: Option<Graph> := None;
    for i := 0 to |events|
      invariant latest == LatestSnapshot(events[..i])
      invariant forall j :: 0 <= j < i ==> !IsBroken(events[j])
    {
      assert events[..i + 1][..i] == events[..i];
      if IsBroken(events[i]) { return None; }
      if events[i].eventType.TaskGraphUpdated? {
        latest := Some(SnapshotOf(events[i]));
      }
    }
    assert events[..|events|] == events;
    if latest.None? {
      graph := GraphOfRows(tasks);
      return Some(graph);
    }
    var nodes := latest.value.nodes;
    for i := 0 to |events|
      invariant nodes == Replay(latest.value.nodes, events[..i])
    {
      assert events[..i + 1][..i] == events[..i];
      var before := nodes;
      if events[i].taskId.None? {
        assert TouchNodes(before, events[i]) == before;
        continue;
      }
      nodes := TouchInPlace(nodes, events[i]);
    }
    reported := Some(latest.value.(nodes := nodes));
  }

  /** How many dependencies the first n rows have. */
  function EdgesBefore(tasks: seq<TaskRow>, n: nat): nat
    requires n <= |tasks|
  {
    if n == 0 then 0 else EdgesBefore(tasks, n - 1) + |tasks[n - 1].dependsOn|
  }

  /** The edges of row i are its dependencies in order, after those of the rows before it. */
  ghost predicate HoldsEdges(edges: seq<Edge>, tasks: seq<TaskRow>, i: nat)
    requires i < |tasks|
  {
    var at, size := EdgesBefore(tasks, i), |tasks[i].dependsOn|;
    at + size <= |edges| && edges[at..at + size] == RowEdges(tasks[i])
  }

  lemma {:induction false} EdgesBeforePrefix(tasks: seq<TaskRow>, m: nat, n: nat)
    requires n <= m <= |tasks|
    ensures EdgesBefore(tasks[..m], n) == EdgesBefore(tasks, n)
  {
    if n > 0 { EdgesBeforePrefix(tasks, m, n - 1); }
  }

  lemma {:induction false} RowsGraphNodes(tasks: seq<TaskRow>)
    ensures |RowsGraph(tasks).nodes| == |tasks|
    ensures forall i :: 0 <= i < |tasks| ==> RowsGraph(tasks).nodes[i] == RowNode(tasks[i])
  {
    if tasks != [] { RowsGraphNodes(tasks[..|tasks| - 1]); }
  }

  lemma HoldsPrefix(tasks: seq<TaskRow>, n: nat, edges: seq<Edge>, more: seq<Edge>, i: nat)
    requires i < n <= |tasks| && HoldsEdges(edges, tasks[..n], i)
    ensures HoldsEdges(edges + more, tasks, i)
  {
    EdgesBeforePrefix(tasks, n, i);
  }

  /** The graph of rows: one node for each row, one edge for each dependency, all in row order. */
  lemma {:induction false} RowsGraphHolds(tasks: seq<TaskRow>)
    ensures |RowsGraph(tasks).nodes| == |tasks|
    ensures forall i :: 0 <= i < |tasks| ==> RowsGraph(tasks).nodes[i] == RowNode(tasks[i])
    ensures |RowsGraph(tasks).edges| == EdgesBefore(tasks, |tasks|)
    ensures forall i :: 0 <= i < |tasks| ==> HoldsEdges(RowsGraph(tasks).edges, tasks, i)
  {
    RowsGraphNodes(tasks);
    if tasks != [] {
      var n := |tasks| - 1;
      RowsGraphHolds(tasks[..n]);
      EdgesBeforePrefix(tasks, n, n);
      forall i | 0 <= i < n ensures HoldsEdges(RowsGraph(tasks).edges, tasks, i) {
        HoldsPrefix(tasks, n, RowsGraph(tasks[..n]).edges, RowEdges(tasks[n]), i);
      }
      assert HoldsEdges(RowsGraph(tasks).edges, tasks, n);
    }
  }

  method GraphOfRows(tasks: seq<TaskRow>) returns (graph: Graph)
    ensures |graph.nodes| == |tasks| && forall i :: 0 <= i < |tasks| ==> graph.nodes[i] == RowNode(tasks[i])
    ensures |graph.edges| == EdgesBefore(tasks, |tasks|)
    ensures forall i :: 0 <= i < |tasks| ==> HoldsEdges(graph.edges, tasks, i)
    ensures graph == RowsGraph(tasks)
  {
    RowsGraphHolds(tasks);
    graph := Graph([], []);
    for i := 0 to |tasks|
      invariant graph == RowsGraph(tasks[..i])
    {
      assert tasks[..i + 1][..i] == tasks[..i];
      graph := Graph(graph.nodes + [RowNode(tasks[i])], graph.edges + RowEdges(tasks[i]));
    }
    assert tasks[..|tasks|] == tasks;
  }

  /** The inner loop both projectors share: overwrite the set fields of every node of the event's task. */
  method TouchInPlace(before: seq<Node>, e: Event) returns (nodes: seq<Node>)
    requires e.taskId.Some?
    ensures nodes == TouchNodes(before, e)
  {
    nodes := before;
    for i := 0 to |before|
      invariant |nodes| == |before|
      invariant forall j :: 0 <= j < i ==> nodes[j] == TouchNode(before[j], e)
      invariant forall j :: i <= j < |before| ==> nodes[j] == before[j]
    {
      if nodes[i].taskId != e.taskId.value { continue; }
      var live := nodes[i].live;
      var status := StatusFromEvent(e);
      if status.Some? { live := live.(status := status); }
      if e.payload.blockedReason.Some? { live := live.(blockedReason := e.payload.blockedReason); }
      if e.payload.executorSummary.Some? { live := live.(executorSummary := e.payload.executorSummary); }
      if e.eventType.TaskTodoUpdated? {
        var todos := NormalizeTodoItems(e.payload.todoItems);
        if todos != [] { live := live.(todos := todos); }
      }
      nodes := nodes[i := nodes[i].(live := live)];
    }
  }

  // ----- what each projection holds, field by field -----

  datatype Field = Status | BlockedReason | ExecutorSummary | Todos

  /** Whether a set of written values says anything about a field. */
  predicate Sets(w: Fields, f: Field) {
    match f
    case Status => w.status.Some?
    case BlockedReason => w.blockedReason.Some?
    case ExecutorSummary => w.executorSummary.Some?
    case Todos => w.todos != []
  }

  predicate SameField(a: Fields, b: Fields, f: Field) {
    match f
    case Status => a.status == b.status
    case BlockedReason => a.blockedReason == b.blockedReason
    case ExecutorSummary => a.executorSummary == b.executorSummary
    case Todos => a.todos == b.todos
  }

  /** What an event writes into one task. */
  function WriteTo(e: Event, taskId: string): Fields {
    if e.taskId == Some(taskId) then WriteOf(e) else NO_WRITE
  }

  /** What each event of a log writes into one task. */
  ghost function WritesTo(events: seq<Event>, taskId: string): seq<Fields> {
    seq(|events|, i requires 0 <= i < |events| => WriteTo(events[i], taskId))
  }

  /** Write i is the last one that says anything about field f. */
  ghost predicate LastSet(writes: seq<Fields>, f: Field, i: int) {
    && 0 <= i < |writes|
    && Sets(writes[i], f)
    && forall j :: i < j < |writes| ==> !Sets(writes[j], f)
  }

  /** Event i is the last one in the log that writes field f of the task. */
  ghost predicate LastWriter(events: seq<Event>, taskId: string, f: Field, i: int) {
    LastSet(WritesTo(events, taskId), f, i)
  }

  /** Event k is the latest snapshot. */
  ghost predicate LatestSnapshotAt(events: seq<Event>, k: nat) {
    && k < |events|
    && events[k].eventType.TaskGraphUpdated?
    && forall j :: k < j < |events| ==> !events[j].eventType.TaskGraphUpdated?
  }

  /** Writes laid over each other in order. */
  ghost function Laid(writes: seq<Fields>): Fields {
    if writes == [] then NO_WRITE else Overlay(Laid(writes[..|writes| - 1]), writes[|writes| - 1])
  }

  /** All that a stretch of log writes into a task. */
  ghost function Written(events: seq<Event>, taskId: string): Fields {
    Laid(WritesTo(events, taskId))
  }

  lemma {:induction false} LaidSplit(a: seq<Fields>, b: seq<Fields>)
    ensures Laid(a + b) == Overlay(Laid(a), Laid(b))
  {
    if b == [] {
      assert a + b == a;
    } else {
      LaidSplit(a, b[..|b| - 1]);
      assert (a + b)[..|a + b| - 1] == a + b[..|b| - 1];
    }
  }

  lemma OverlayField(older: Fields, newer: Fields, f: Field)
    ensures Sets(Overlay(older, newer), f) <==> Sets(older, f) || Sets(newer, f)
    ensures SameField(Overlay(older, newer), if Sets(newer, f) then newer else older, f)
  {
  }

  lemma LastSetPrefix(writes: seq<Fields>, f: Field, i: int)
    requires writes != [] && !Sets(writes[|writes| - 1], f)
    ensures LastSet(writes, f, i) <==> LastSet(writes[..|writes| - 1], f, i)
  {
    var init := writes[..|writes| - 1];
    assert forall j :: 0 <= j < |init| ==> init[j] == writes[j];
  }

  /** Laid writes hold the last write of each field, and are silent on the fields nobody wrote. */
  lemma {:induction false} LaidIsLastWrite(writes: seq<Fields>, f: Field)
    ensures forall i :: LastSet(writes, f, i) ==> Sets(Laid(writes), f) && SameField(Laid(writes), writes[i], f)
    ensures Sets(Laid(writes), f) ==> exists i :: LastSet(writes, f, i)
  {
    if writes != [] {
      var n := |writes| - 1;
      var init := writes[..n];
      LaidIsLastWrite(init, f);
      OverlayField(Laid(init), writes[n], f);
      if Sets(writes[n], f) {
        assert LastSet(writes, f, n);
      } else {
        forall i ensures LastSet(writes, f, i) <==> LastSet(init, f, i) { LastSetPrefix(writes, f, i); }
      }
    }
  }

  lemma WrittenSnoc(events: seq<Event>, taskId: string)
    requires events != []
    ensures Written(events, taskId) ==
            Overlay(Written(events[..|events| - 1], taskId), WriteTo(events[|events| - 1], taskId))
  {
    assert WritesTo(events, taskId)[..|events| - 1] == WritesTo(events[..|events| - 1], taskId);
  }

  lemma {:induction false} ReplayNode(nodes: seq<Node>, events: seq<Event>)
    ensures |Replay(nodes, events)| == |nodes|
    ensures forall i :: 0 <= i < |nodes| ==>
              Replay(nodes, events)[i] == nodes[i].(live := Overlay(nodes[i].live, Written(events, nodes[i].taskId)))
  {
    if events != [] {
      ReplayNode(nodes, events[..|events| - 1]);
      forall n | n in nodes { WrittenSnoc(events, n.taskId); }
    }
  }

  lemma {:induction false} LatestSnapshotHolds(events: seq<Event>, k: nat)
    requires LatestSnapshotAt(events, k)
    ensures LatestSnapshot(events) == Some(SnapshotOf(events[k]))
  {
    if k < |events| - 1 {
      LatestSnapshotHolds(events[..|events| - 1], k);
    }
  }

  lemma {:induction false} SnapshotExists(events: seq<Event>) returns (k: nat)
    ensures LatestSnapshot(events).Some? ==> LatestSnapshotAt(events, k)
  {
    k := 0;
    if events != [] {
      if events[|events| - 1].eventType.TaskGraphUpdated? {
        k := |events| - 1;
      } else {
        k := SnapshotExists(events[..|events| - 1]);
      }
    }
  }

  lemma NoneBrokenBefore(events: seq<Event>, n: nat)
    requires NoneBroken(events) && n <= |events|
    ensures NoneBroken(events[..n])
  {
  }

  lemma {:induction false} NoSnapshotNoGraph(events: seq<Event>)
    requires NoneBroken(events)
    ensures IncrementalGraph(events).None? <==> LatestSnapshot(events).None?
  {
    if events != [] {
      NoneBrokenBefore(events, |events| - 1);
      NoSnapshotNoGraph(events[..|events| - 1]);
    }
  }

  /** The batch graph: the latest snapshot overlaid with everything the whole log wrote. */
  lemma BatchNodes(events: seq<Event>, k: nat)
    requires LatestSnapshotAt(events, k)
    ensures BatchGraph(events).Some? && BatchGraph(events).value.edges == events[k].payload.edges
    ensures var nodes := BatchGraph(events).value.nodes;
            |nodes| == |events[k].payload.nodes| &&
            forall i :: 0 <= i < |nodes| ==>
              var n := events[k].payload.nodes[i];
              nodes[i] == n.(live := Overlay(n.live, Written(events, n.taskId)))
  {
    LatestSnapshotHolds(events, k);
    ReplayNode(events[k].payload.nodes, events);
  }

  /** The event from which the incremental projector replays onto a node of the snapshot at k: the snapshot
      itself, or never for the empty task id. */
  function Horizon(events: seq<Event>, k: nat, taskId: string): (h: nat)
    requires k <= |events|
    ensures k <= h <= |events|
  {
    if taskId == "" then |events| else k
  }

  /** What the incremental projector remembers for a task. */
  ghost function Remembered(events: seq<Event>, k: nat, taskId: string): Fields
    requires k <= |events|
  {
    Laid(WritesTo(events, taskId)[Horizon(events, k, taskId)..])
  }

  lemma LaidSnoc(writes: seq<Fields>, w: Fields)
    ensures Laid(writes + [w]) == Overlay(Laid(writes), w)
  {
    assert (writes + [w])[..|writes|] == writes;
  }

  lemma RememberedSnoc(events: seq<Event>, k: nat, taskId: string)
    requires k < |events|
    ensures Remembered(events, k, taskId) ==
            Overlay(Remembered(events[..|events| - 1], k, taskId),
                    if taskId == "" then NO_WRITE else WriteTo(events[|events| - 1], taskId))
  {
    var last := |events| - 1;
    var before, after := WritesTo(events[..last], taskId), WritesTo(events, taskId);
    if taskId == "" {
      assert after[|events|..] == [] && before[last..] == [];
    } else {
      assert after[k..] == before[k..] + [after[last]];
      LaidSnoc(before[k..], after[last]);
    }
  }

  /** The snapshot's nodes with what is remembered for them. */
  ghost function LiveNodes(events: seq<Event>, k: nat, snapshot: seq<Node>): seq<Node>
    requires k <= |events|
  {
    seq(|snapshot|, i requires 0 <= i < |snapshot| =>
      snapshot[i].(live := Overlay(snapshot[i].live, Remembered(events, k, snapshot[i].taskId))))
  }

  lemma LiveNodesStep(events: seq<Event>, k: nat, snapshot: seq<Node>)
    requires k < |events|
    ensures var e := events[|events| - 1];
            var before := LiveNodes(events[..|events| - 1], k, snapshot);
            LiveNodes(events, k, snapshot) == if Truthy(e.taskId) then TouchNodes(before, e) else before
  {
    forall i | 0 <= i < |snapshot| {
      RememberedSnoc(events, k, snapshot[i].taskId);
    }
  }

  lemma LiveNodesAtSnapshot(events: seq<Event>, snapshot: seq<Node>)
    ensures LiveNodes(events, |events|, snapshot) == snapshot
  {
  }

  /** The incremental graph: the latest snapshot overlaid with what was written from it on. */
  lemma {:induction false} IncrementalIsLive(events: seq<Event>, k: nat)
    requires LatestSnapshotAt(events, k) && NoneBroken(events)
    ensures IncrementalGraph(events) ==
            Some(Graph(LiveNodes(events, k, events[k].payload.nodes), events[k].payload.edges))
  {
    var last := |events| - 1;
    LiveNodesStep(events, k, events[k].payload.nodes);
    assert !IsBroken(events[last]);
    if k < last {
      NoneBrokenBefore(events, last);
      IncrementalIsLive(events[..last], k);
    } else {
      LiveNodesAtSnapshot(events[..last], events[k].payload.nodes);
    }
  }

  lemma {:induction false} IncrementalNodes(events: seq<Event>, k: nat)
    requires LatestSnapshotAt(events, k) && NoneBroken(events)
    ensures IncrementalGraph(events).Some? && IncrementalGraph(events).value.edges == events[k].payload.edges
    ensures var nodes := IncrementalGraph(events).value.nodes;
            |nodes| == |events[k].payload.nodes| &&
            forall i :: 0 <= i < |nodes| ==>
              var n := events[k].payload.nodes[i];
              nodes[i] == n.(live := Overlay(n.live, Remembered(events, k, n.taskId)))
  {
    IncrementalIsLive(events, k);
  }

  // ----- when the two agree -----

  /** Write i is the last one of a field, it falls before h, and it differs from the base. */
  ghost predicate Lost(base: Fields, writes: seq<Fields>, h: nat, f: Field, i: int) {
    LastSet(writes, f, i) && i < h && !SameField(writes[i], base, f)
  }

  /** Event i is the last writer of a field of node n, the incremental projector does not replay it onto the
      snapshot, and the snapshot says something else. */
  ghost predicate Forgotten(events: seq<Event>, k: nat, n: Node, f: Field, i: int)
    requires k <= |events|
  {
    Lost(n.live, WritesTo(events, n.taskId), Horizon(events, k, n.taskId), f, i)
  }

  ghost predicate NothingForgotten(events: seq<Event>, k: nat)
    requires k < |events|
  {
    forall n, f, i :: n in events[k].payload.nodes ==> !Forgotten(events, k, n, f, i)
  }

  /** The last write of a log falls in its suffix exactly when the suffix writes at all. */
  lemma LastSetFrom(writes: seq<Fields>, h: nat, f: Field, i: int)
    requires h <= |writes| && LastSet(writes, f, i)
    ensures i >= h ==> LastSet(writes[h..], f, i - h)
    ensures i < h ==> forall j :: !LastSet(writes[h..], f, j)
  {
    forall j | 0 <= j < |writes| - h ensures writes[h..][j] == writes[h + j] {}
  }

  /** Replaying all writes or only those from h on gives a field the same value exactly when its last write is
      no earlier than h or wrote what was there before. */
  lemma {:induction false} SuffixSuffices(base: Fields, writes: seq<Fields>, h: nat, f: Field)
    requires h <= |writes|
    ensures SameField(Overlay(base, Laid(writes)), Overlay(base, Laid(writes[h..])), f)
       <==> forall i :: !Lost(base, writes, h, f, i)
  {
    var late := writes[h..];
    assert writes[..h] + late == writes;
    LaidSplit(writes[..h], late);
    LaidIsLastWrite(writes, f);
    LaidIsLastWrite(late, f);
    OverlayField(Laid(writes[..h]), Laid(late), f);
    OverlayField(base, Laid(writes), f);
    OverlayField(base, Laid(late), f);
    forall i | LastSet(writes, f, i) ensures i < h <==> !Sets(Laid(late), f) {
      LastSetFrom(writes, h, f, i);
    }
    if i :| LastSet(writes, f, i) {
      assert Lost(base, writes, h, f, i) <==> i < h && !SameField(writes[i], base, f);
      assert forall j :: LastSet(writes, f, j) ==> j == i;
    }
  }

  /** Agreement on one field of one node. */
  lemma FieldAgreement(events: seq<Event>, k: nat, n: Node, f: Field)
    requires k < |events|
    ensures SameField(Overlay(n.live, Written(events, n.taskId)), Overlay(n.live, Remembered(events, k, n.taskId)), f)
       <==> forall i :: !Forgotten(events, k, n, f, i)
  {
    var writes, h := WritesTo(events, n.taskId), Horizon(events, k, n.taskId);
    calc {
      SameField(Overlay(n.live, Written(events, n.taskId)), Overlay(n.live, Remembered(events, k, n.taskId)), f);
      SameField(Overlay(n.live, Laid(writes)), Overlay(n.live, Laid(writes[h..])), f);
      { SuffixSuffices(n.live, writes, h, f); }
      forall i :: !Lost(n.live, writes, h, f, i);
      { assert forall i :: Forgotten(events, k, n, f, i) <==> Lost(n.live, writes, h, f, i); }
      forall i :: !Forgotten(events, k, n, f, i);
    }
  }

  /** The exact condition: a field is lost, and only then, when its last write precedes the latest snapshot
      (or addresses the empty task id) and the snapshot holds a different value. */
  lemma ProjectionsAgreeExactly(events: seq<Event>, k: nat)
    requires LatestSnapshotAt(events, k) && NoneBroken(events)
    ensures IncrementalGraph(events) == BatchGraph(events) <==> NothingForgotten(events, k)
  {
    BatchNodes(events, k);
    IncrementalNodes(events, k);
    var snapshot := events[k].payload.nodes;
    var batch, live := BatchGraph(events).value.nodes, IncrementalGraph(events).value.nodes;
    forall i, f | 0 <= i < |snapshot|
      ensures SameField(batch[i].live, live[i].live, f) <==> forall j :: !Forgotten(events, k, snapshot[i], f, j)
    {
      FieldAgreement(events, k, snapshot[i], f);
    }
    if NothingForgotten(events, k) {
      forall i | 0 <= i < |snapshot| ensures batch[i] == live[i] {
        var n := snapshot[i];
        assert n in snapshot;
        assert SameField(batch[i].live, live[i].live, Status);
        assert SameField(batch[i].live, live[i].live, BlockedReason);
        assert SameField(batch[i].live, live[i].live, ExecutorSummary);
        assert SameField(batch[i].live, live[i].live, Todos);
      }
      assert batch == live;
    }
    if batch == live {
      forall n, f, j | n in snapshot ensures !Forgotten(events, k, n, f, j) {
        var i :| 0 <= i < |snapshot| && snapshot[i] == n;
        assert SameField(batch[i].live, live[i].live, f);
      }
    }
  }

  /** A field holds its last write if that is no earlier than h, and the base's value otherwise. */
  ghost predicate HoldsLastWrite(live: Fields, base: Fields, writes: seq<Fields>, h: nat, f: Field) {
    && (forall i :: LastSet(writes, f, i) ==> SameField(live, if i < h then base else writes[i], f))
    && ((forall i :: !LastSet(writes, f, i)) ==> SameField(live, base, f))
  }

  lemma OverlaidField(base: Fields, writes: seq<Fields>, h: nat, f: Field)
    requires h <= |writes|
    ensures HoldsLastWrite(Overlay(base, Laid(writes[h..])), base, writes, h, f)
  {
    var late := writes[h..];
    LaidIsLastWrite(late, f);
    OverlayField(base, Laid(late), f);
    forall i | LastSet(writes, f, i) { LastSetFrom(writes, h, f, i); }
    forall j | LastSet(late, f, j) ensures LastSet(writes, f, h + j) {
      assert forall m :: h <= m < |writes| ==> writes[m] == late[m - h];
    }
  }

  /** Every batch field is the last write anywhere in the log, or the snapshot's value; every incremental field
      is the last write at or after the horizon, or the snapshot's value. */
  lemma FieldsAreLastWrites(events: seq<Event>, k: nat, p: nat, f: Field)
    requires LatestSnapshotAt(events, k) && NoneBroken(events) && p < |events[k].payload.nodes|
    ensures BatchGraph(events).Some? && p < |BatchGraph(events).value.nodes|
    ensures IncrementalGraph(events).Some? && p < |IncrementalGraph(events).value.nodes|
    ensures var n := events[k].payload.nodes[p];
            var writes := WritesTo(events, n.taskId);
            && HoldsLastWrite(BatchGraph(events).value.nodes[p].live, n.live, writes, 0, f)
            && HoldsLastWrite(IncrementalGraph(events).value.nodes[p].live, n.live, writes,
                              Horizon(events, k, n.taskId), f)
  {
    BatchNodes(events, k);
    IncrementalNodes(events, k);
    var n := events[k].payload.nodes[p];
    var writes := WritesTo(events, n.taskId);
    OverlaidField(n.live, writes, 0, f);
    OverlaidField(n.live, writes, Horizon(events, k, n.taskId), f);
    assert writes[0..] == writes;
  }

  /** For every log and every task table, the two projectors report the same graph exactly when no snapshot is broken
      and: with a snapshot, nothing is forgotten; without one, the table holds no task of the run. */
  lemma ReportsAgreeExactly(events: seq<Event>, tasks: seq<TaskRow>, reported: Option<Graph>) returns (k: nat)
    requires reported.Some? <==> NoneBroken(events)
    requires reported.Some? ==>
               reported.value == if BatchGraph(events).Some? then BatchGraph(events).value else RowsGraph(tasks)
    ensures LatestSnapshot(events).Some? ==> LatestSnapshotAt(events, k)
    ensures var live := if IncrementalGraph(events).Some? then IncrementalGraph(events).value else Graph([], []);
            reported == Some(live) <==>
              && NoneBroken(events)
              && if LatestSnapshot(events).Some? then NothingForgotten(events, k) else tasks == []
  {
    k := SnapshotExists(events);
    if NoneBroken(events) {
      NoSnapshotNoGraph(events);
      if LatestSnapshot(events).Some? {
        ProjectionsAgreeExactly(events, k);
        BatchNodes(events, k);
      }
    }
  }

  /** A log on which the two differ: a task fails, then a snapshot that knows nothing of it arrives. The batch
      graph still shows the failure, the incremental graph does not. */
  lemma ProjectionsCanDiffer(first: Event, failure: Event, second: Event, n: Node)
    requires first.eventType.TaskGraphUpdated? && second.eventType.TaskGraphUpdated?
    requires failure.eventType.TaskFailed? && failure.payload.toStatus.None?
    requires n == Node("t", "build", NO_WRITE)
    requires first.payload.nodes == second.payload.nodes == [n]
    requires first.payload.graphReadable && second.payload.graphReadable
    requires first.taskId.None? && second.taskId.None? && failure.taskId == Some("t")
    ensures var log := [first, failure, second];
            && BatchGraph(log).Some? && |BatchGraph(log).value.nodes| == 1
            && IncrementalGraph(log).Some? && |IncrementalGraph(log).value.nodes| == 1
            && BatchGraph(log).value.nodes[0].live.status == Some(TaskStatus.Failed)
            && IncrementalGraph(log).value.nodes[0].live.status == None
  {
    var log := [first, failure, second];
    assert LatestSnapshotAt(log, 2);
    FieldsAreLastWrites(log, 2, 0, Status);
    assert LastWriter(log, "t", Status, 1);
    BatchNodes(log, 2);
    IncrementalNodes(log, 2);
  }
}
