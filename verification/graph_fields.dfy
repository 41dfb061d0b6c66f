/** The nodes of both task graphs, in terms of the payloads of the log. */
module GraphFields {
  import opened Common
  import opened RuntimeContracts
  import opened Events
  import opened TaskGraphs

  // ----- what events say about a node -----

  ghost predicate HasStatus(e: Event) {
    exists s: TaskStatus :: SaysStatus(e, s)
  }

  predicate HasReason(e: Event) {
    e.payload.blockedReason.Some?
  }

  predicate HasSummary(e: Event) {
    e.payload.executorSummary.Some?
  }

  /** A todo update with at least one usable entry. */
  ghost predicate HasTodos(e: Event) {
    && e.eventType.TaskTodoUpdated? && e.payload.todoItems.Some?
    && exists p: nat :: p < |e.payload.todoItems.value| && Usable(e.payload.todoItems.value[p])
  }

  /** Event i is the last of the task that says something of the kind. */
  ghost predicate LastOf(events: seq<Event>, t: string, says: Event -> bool, i: int) {
    && 0 <= i < |events| && events[i].taskId == Some(t) && says(events[i])
    && forall j :: i < j < |events| && events[j].taskId == Some(t) ==> !says(events[j])
  }

  ghost predicate Never(events: seq<Event>, t: string, says: Event -> bool) {
    forall i :: 0 <= i < |events| && events[i].taskId == Some(t) ==> !says(events[i])
  }

  // ----- what the node of a graph shows -----

  /** The status is the last one said, from `from` on, or else the snapshot's. */
  ghost predicate StatusShows(held: Option<TaskStatus>, base: Option<TaskStatus>, events: seq<Event>, t: string,
      from: nat)
  {
    && (forall i, s :: LastOf(events, t, HasStatus, i) && SaysStatus(events[i], s) ==>
          held == if i < from then base else Some(s))
    && (Never(events, t, HasStatus) ==> held == base)
  }

  /** The text is the `blocked_reason` of the last event that has one, from `from` on, or else the snapshot's. */
  ghost predicate ReasonShows(held: Option<string>, base: Option<string>, events: seq<Event>, t: string, from: nat) {
    && (forall i :: LastOf(events, t, HasReason, i) ==>
          held == if i < from then base else events[i].payload.blockedReason)
    && (Never(events, t, HasReason) ==> held == base)
  }

  /** ... and the `executor_summary` likewise. */
  ghost predicate SummaryShows(held: Option<string>, base: Option<string>, events: seq<Event>, t: string, from: nat) {
    && (forall i :: LastOf(events, t, HasSummary, i) ==>
          held == if i < from then base else events[i].payload.executorSummary)
    && (Never(events, t, HasSummary) ==> held == base)
  }

  /** The todos are the items of the last todo update with a usable entry, from `from` on, or else the snapshot's. */
  ghost predicate TodosShow(held: seq<TodoItem>, base: seq<TodoItem>, events: seq<Event>, t: string, from: nat) {
    && (forall i :: LastOf(events, t, HasTodos, i) ==>
          if i < from then held == base
          else exists at: seq<nat> :: AreItems(held, events[i].payload.todoItems.value, at))
    && (Never(events, t, HasTodos) ==> held == base)
  }

  ghost predicate NodeShows(held: Node, base: Node, events: seq<Event>, from: nat) {
    && held.taskId == base.taskId && held.title == base.title
    && StatusShows(held.live.status, base.live.status, events, base.taskId, from)
    && ReasonShows(held.live.blockedReason, base.live.blockedReason, events, base.taskId, from)
    && SummaryShows(held.live.executorSummary, base.live.executorSummary, events, base.taskId, from)
    && TodosShow(held.live.todos, base.live.todos, events, base.taskId, from)
  }

  // ----- the writes are what the payloads say -----

  lemma WriteSaysStatus(e: Event)
    ensures Sets(WriteOf(e), Status) <==> HasStatus(e)
    ensures forall s :: SaysStatus(e, s) ==> WriteOf(e).status == Some(s)
  {
    forall s: TaskStatus { StatusIsSaid(e, s); }
    if StatusFromEvent(e).Some? { StatusIsSaid(e, StatusFromEvent(e).value); }
  }

  lemma WriteSaysTexts(e: Event)
    ensures Sets(WriteOf(e), BlockedReason) <==> HasReason(e)
    ensures WriteOf(e).blockedReason == e.payload.blockedReason
    ensures Sets(WriteOf(e), ExecutorSummary) <==> HasSummary(e)
    ensures WriteOf(e).executorSummary == e.payload.executorSummary
  {
  }

  lemma WriteSaysTodos(e: Event) returns (at: seq<nat>)
    ensures Sets(WriteOf(e), Todos) <==> HasTodos(e)
    ensures HasTodos(e) ==> AreItems(WriteOf(e).todos, e.payload.todoItems.value, at)
  {
    at := [];
    if e.eventType.TaskTodoUpdated? && e.payload.todoItems.Some? {
      at := CleanTodosAreItems(e.payload.todoItems.value);
      if HasTodos(e) {
        var p: nat :| p < |e.payload.todoItems.value| && Usable(e.payload.todoItems.value[p]);
        assert exists i :: 0 <= i < |at| && at[i] == p;
      }
      if at != [] { assert Usable(e.payload.todoItems.value[at[0]]); }
    }
  }

  lemma LastSetSays(events: seq<Event>, t: string, f: Field, says: Event -> bool)
    requires forall i :: 0 <= i < |events| ==> (Sets(WriteOf(events[i]), f) <==> says(events[i]))
    ensures forall i :: LastSet(WritesTo(events, t), f, i) <==> LastOf(events, t, says, i)
    ensures (forall i :: !LastSet(WritesTo(events, t), f, i)) <==> Never(events, t, says)
  {
    var writes := WritesTo(events, t);
    forall i | 0 <= i < |events| ensures Sets(writes[i], f) <==> events[i].taskId == Some(t) && says(events[i]) {
      assert writes[i] == WriteTo(events[i], t);
    }
    if forall i :: !LastSet(writes, f, i) { NoLastNoSet(writes, f, |writes|); }
  }

  lemma {:induction false} NoLastNoSet(writes: seq<Fields>, f: Field, n: nat)
    requires n <= |writes| && forall i :: !LastSet(writes, f, i)
    ensures forall i :: |writes| - n <= i < |writes| ==> !Sets(writes[i], f)
  {
    if n > 0 {
      NoLastNoSet(writes, f, n - 1);
      assert !LastSet(writes, f, |writes| - n);
    }
  }

  /** A field by field overlay with the last writes shows what the events say. */
  lemma HeldShows(held: Node, base: Node, events: seq<Event>, from: nat)
    requires held.taskId == base.taskId && held.title == base.title
    requires forall f :: HoldsLastWrite(held.live, base.live, WritesTo(events, base.taskId), from, f)
    ensures NodeShows(held, base, events, from)
  {
    var t := base.taskId;
    forall i | 0 <= i < |events|
      ensures Sets(WriteOf(events[i]), Status) <==> HasStatus(events[i])
      ensures Sets(WriteOf(events[i]), BlockedReason) <==> HasReason(events[i])
      ensures Sets(WriteOf(events[i]), ExecutorSummary) <==> HasSummary(events[i])
      ensures Sets(WriteOf(events[i]), Todos) <==> HasTodos(events[i])
    {
      WriteSaysStatus(events[i]);
      WriteSaysTexts(events[i]);
      var at := WriteSaysTodos(events[i]);
    }
    LastSetSays(events, t, Status, HasStatus);
    LastSetSays(events, t, BlockedReason, HasReason);
    LastSetSays(events, t, ExecutorSummary, HasSummary);
    LastSetSays(events, t, Todos, HasTodos);
    assert forall f :: HoldsLastWrite(held.live, base.live, WritesTo(events, t), from, f);
    StatusHeld(held, base, events, from);
    ReasonHeld(held, base, events, from);
    SummaryHeld(held, base, events, from);
    TodosHeld(held, base, events, from);
  }

  lemma StatusHeld(held: Node, base: Node, events: seq<Event>, from: nat)
    requires HoldsLastWrite(held.live, base.live, WritesTo(events, base.taskId), from, Status)
    requires forall i :: LastSet(WritesTo(events, base.taskId), Status, i) <==>
                         LastOf(events, base.taskId, HasStatus, i)
    requires (forall i :: !LastSet(WritesTo(events, base.taskId), Status, i)) <==>
             Never(events, base.taskId, HasStatus)
    ensures StatusShows(held.live.status, base.live.status, events, base.taskId, from)
  {
    forall i, s | LastOf(events, base.taskId, HasStatus, i) && SaysStatus(events[i], s)
      ensures held.live.status == if i < from then base.live.status else Some(s)
    {
      assert LastSet(WritesTo(events, base.taskId), Status, i);
      WriteSaysStatus(events[i]);
    }
  }

  lemma ReasonHeld(held: Node, base: Node, events: seq<Event>, from: nat)
    requires HoldsLastWrite(held.live, base.live, WritesTo(events, base.taskId), from, BlockedReason)
    requires forall i :: LastSet(WritesTo(events, base.taskId), BlockedReason, i) <==>
                         LastOf(events, base.taskId, HasReason, i)
    requires (forall i :: !LastSet(WritesTo(events, base.taskId), BlockedReason, i)) <==>
             Never(events, base.taskId, HasReason)
    ensures ReasonShows(held.live.blockedReason, base.live.blockedReason, events, base.taskId, from)
  {
    forall i | LastOf(events, base.taskId, HasReason, i)
      ensures held.live.blockedReason == if i < from then base.live.blockedReason else events[i].payload.blockedReason
    {
      assert LastSet(WritesTo(events, base.taskId), BlockedReason, i);
      WriteSaysTexts(events[i]);
    }
  }

  lemma SummaryHeld(held: Node, base: Node, events: seq<Event>, from: nat)
    requires HoldsLastWrite(held.live, base.live, WritesTo(events, base.taskId), from, ExecutorSummary)
    requires forall i :: LastSet(WritesTo(events, base.taskId), ExecutorSummary, i) <==>
                         LastOf(events, base.taskId, HasSummary, i)
    requires (forall i :: !LastSet(WritesTo(events, base.taskId), ExecutorSummary, i)) <==>
             Never(events, base.taskId, HasSummary)
    ensures SummaryShows(held.live.executorSummary, base.live.executorSummary, events, base.taskId, from)
  {
    forall i | LastOf(events, base.taskId, HasSummary, i)
      ensures held.live.executorSummary ==
              if i < from then base.live.executorSummary else events[i].payload.executorSummary
    {
      assert LastSet(WritesTo(events, base.taskId), ExecutorSummary, i);
      WriteSaysTexts(events[i]);
    }
  }

  lemma TodosHeld(held: Node, base: Node, events: seq<Event>, from: nat)
    requires HoldsLastWrite(held.live, base.live, WritesTo(events, base.taskId), from, Todos)
    requires forall i :: LastSet(WritesTo(events, base.taskId), Todos, i) <==> LastOf(events, base.taskId, HasTodos, i)
    requires (forall i :: !LastSet(WritesTo(events, base.taskId), Todos, i)) <==> Never(events, base.taskId, HasTodos)
    ensures TodosShow(held.live.todos, base.live.todos, events, base.taskId, from)
  {
    forall i | LastOf(events, base.taskId, HasTodos, i)
      ensures if i < from then held.live.todos == base.live.todos
              else exists at: seq<nat> :: AreItems(held.live.todos, events[i].payload.todoItems.value, at)
    {
      assert LastSet(WritesTo(events, base.taskId), Todos, i);
      var at := WriteSaysTodos(events[i]);
      assert i >= from ==> held.live.todos == WriteOf(events[i]).todos;
    }
  }

  /** For every log with a snapshot, each node of the batch graph shows what the last events of its task say, and each
      node of the incremental graph what they say from the latest snapshot on (never, for the empty task id). Nodes,
      edges and titles are those of the snapshot. */
  lemma NodesShowEvents(events: seq<Event>, k: nat, p: nat)
    requires LatestSnapshotAt(events, k) && NoneBroken(events) && p < |events[k].payload.nodes|
    ensures BatchGraph(events).Some? && IncrementalGraph(events).Some?
    ensures var batch, live := BatchGraph(events).value, IncrementalGraph(events).value;
            var base := events[k].payload.nodes[p];
            && batch.edges == live.edges == events[k].payload.edges
            && |batch.nodes| == |live.nodes| == |events[k].payload.nodes|
            && NodeShows(batch.nodes[p], base, events, 0)
            && NodeShows(live.nodes[p], base, events, if base.taskId == "" then |events| else k)
  {
    BatchNodes(events, k);
    IncrementalNodes(events, k);
    forall f { FieldsAreLastWrites(events, k, p, f); }
    HeldShows(BatchGraph(events).value.nodes[p], events[k].payload.nodes[p], events, 0);
    HeldShows(IncrementalGraph(events).value.nodes[p], events[k].payload.nodes[p], events,
              Horizon(events, k, events[k].payload.nodes[p].taskId));
  }

  /** The graph of the task rows: each node shows its row, and no todos. */
  lemma RowNodesShowRows(tasks: seq<TaskRow>, i: nat)
    requires i < |tasks|
    ensures |RowsGraph(tasks).nodes| == |tasks|
    ensures var n, t := RowsGraph(tasks).nodes[i], tasks[i];
            && n.taskId == t.id && n.title == t.title && n.live.todos == []
            && n.live.status == Some(t.status) && n.live.blockedReason == t.blockedReason
            && n.live.executorSummary == t.executorSummary
    ensures var at := EdgesBefore(tasks, i);
            && at + |tasks[i].dependsOn| <= |RowsGraph(tasks).edges|
            && forall j :: 0 <= j < |tasks[i].dependsOn| ==>
                 RowsGraph(tasks).edges[at + j] == Edge(tasks[i].dependsOn[j], tasks[i].id, "depends_on")
  {
    RowsGraphHolds(tasks);
    var at, size := EdgesBefore(tasks, i), |tasks[i].dependsOn|;
    assert HoldsEdges(RowsGraph(tasks).edges, tasks, i);
    forall j | 0 <= j < size
      ensures RowsGraph(tasks).edges[at + j] == Edge(tasks[i].dependsOn[j], tasks[i].id, "depends_on")
    {
      assert RowsGraph(tasks).edges[at..at + size][j] == RowEdges(tasks[i])[j];
    }
  }

  /** A reason and a summary are not mistaken for each other: one running event on a snapshot. */
  lemma SummaryIsNoReason(snapshot: Event, running: Event)
    requires snapshot.eventType.TaskGraphUpdated? && snapshot.payload.graphReadable && snapshot.taskId.None?
    requires snapshot.payload.nodes == [Node("t", "lint", NO_WRITE)]
    requires running.eventType.TaskRunning? && running.taskId == Some("t") && running.payload.toStatus.None?
    requires running.payload.executorSummary == Some("lint graph runtime") && running.payload.blockedReason.None?
    ensures var log := [snapshot, running];
            && BatchGraph(log).Some? && |BatchGraph(log).value.nodes| == 1
            && var n := BatchGraph(log).value.nodes[0].live;
               n.executorSummary == Some("lint graph runtime") && n.blockedReason.None?
               && n.status == Some(TaskStatus.Running)
  {
    var log := [snapshot, running];
    assert LatestSnapshotAt(log, 0);
    NodesShowEvents(log, 0, 0);
    var n := BatchGraph(log).value.nodes[0].live;
    assert n.executorSummary == running.payload.executorSummary by { assert LastOf(log, "t", HasSummary, 1); }
    assert n.blockedReason.None? by { assert Never(log, "t", HasReason); }
    assert n.status == Some(TaskStatus.Running) by {
      assert SaysStatus(running, TaskStatus.Running);
      assert LastOf(log, "t", HasStatus, 1);
    }
  }
}
