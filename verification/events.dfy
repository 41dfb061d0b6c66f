/** Event envelopes, decoded payloads, and what one event says about its task. */
module Events {
  import opened Common
  import opened RuntimeContracts
  import opened Sorting

  datatype TodoItem = TodoItem(id: string, title: string, status: string, detail: Option<string>)

  /** A todo entry as it arrives: absent or falsy id, title and status are the empty string. */
  datatype RawTodo = RawTodo(id: string, title: string, status: string, detail: Option<string>)

  /** The fields of a graph node that events overwrite. */
  datatype Fields = Fields(
    status: Option<TaskStatus>,
    blockedReason: Option<string>,
    executorSummary: Option<string>,
    todos: seq<TodoItem>)

  datatype Node = Node(taskId: string, title: string, live: Fields)
  datatype Edge = Edge(source: string, target: string, kind: string)
  datatype Graph = Graph(nodes: seq<Node>, edges: seq<Edge>)

  /** What a worker says about itself. */
  datatype WorkerReport = WorkerReport(
    taskQueue: string, status: string, activeWorkflows: seq<string>, detail: Option<string>)

  /** An optional payload field is None when it is missing or is not of the expected type;
      in `todoItems`, an element that is not a dictionary is None; `report` is None when the payload lacks a field of
      a worker report or holds an unknown status or workflow. `nodes` and `edges` are those of a graph snapshot that
      passes validation, as `graphReadable` says. */
  datatype Payload = Payload(
    summary: Option<string>,
    toStatus: Option<string>,
    blockedReason: Option<string>,
    executorSummary: Option<string>,
    taskTitle: Option<string>,
    workflowName: Option<string>,
    workerId: Option<string>,
    report: Option<WorkerReport>,
    todoItems: Option<seq<Option<RawTodo>>>,
    graphReadable: bool,
    nodes: seq<Node>,
    edges: seq<Edge>)

  datatype Event = Event(
    eventType: EventType,
    sequence: int,
    occurredAt: int,
    key: string,
    runId: string,
    traceId: string,
    taskId: Option<string>,
    attemptId: Option<string>,
    payload: Payload)

  /** A graph snapshot on which the projectors raise. */
  predicate IsBroken(e: Event) {
    e.eventType.TaskGraphUpdated? && !e.payload.graphReadable
  }

  datatype TimelineEntry = TimelineEntry(
    sequence: int, eventType: EventType, occurredAt: int, traceId: string,
    taskId: Option<string>, attemptId: Option<string>, summary: Option<string>)

  function BuildTimelineEntry(e: Event): TimelineEntry {
    TimelineEntry(e.sequence, e.eventType, e.occurredAt, e.traceId, e.taskId, e.attemptId, e.payload.summary)
  }

  /** An explicit `to_status` decides alone, even when it is not a known status. */
  function StatusFromEvent(e: Event): Option<TaskStatus> {
    if e.payload.toStatus.Some? then ParseTaskStatus(e.payload.toStatus.value)
    else match e.eventType
      case TaskClaimed => Some(TaskStatus.Claimed)
      case TaskRunning => Some(TaskStatus.Running)
      case TaskVerifying => Some(TaskStatus.Verifying)
      case TaskCompleted => Some(TaskStatus.Completed)
      case TaskFailed => Some(TaskStatus.Failed)
      case TaskReclaimed => Some(TaskStatus.Reclaimed)
      case _ => None
  }

  /** The event says this status: by its text in `to_status`, or, without one, by its own type "task.<status>". */
  predicate SaysStatus(e: Event, s: TaskStatus) {
    if e.payload.toStatus.Some? then e.payload.toStatus.value == StatusValue(s)
    else EventTypeValue(e.eventType) == "task." + StatusValue(s)
  }

  lemma StatusIsSaid(e: Event, s: TaskStatus)
    ensures StatusFromEvent(e) == Some(s) <==> SaysStatus(e, s)
  {
    if e.payload.toStatus.Some? {
      ParsesExactly(e.payload.toStatus.value);
    } else if StatusFromEvent(e).Some? {
      TypeSaysStatus(e);
      TypeOfStatus(e.eventType, StatusFromEvent(e).value, s);
    } else {
      OtherTypes(e.eventType, s);
    }
  }

  lemma TypeSaysStatus(e: Event)
    requires e.payload.toStatus.None? && StatusFromEvent(e).Some?
    ensures EventTypeValue(e.eventType) == "task." + StatusValue(StatusFromEvent(e).value)
  {
    match e.eventType
    case TaskClaimed => assert "task." + "claimed" == "task.claimed";
    case TaskRunning => assert "task." + "running" == "task.running";
    case TaskVerifying => assert "task." + "verifying" == "task.verifying";
    case TaskCompleted => assert "task." + "completed" == "task.completed";
    case TaskFailed => assert "task." + "failed" == "task.failed";
    case TaskReclaimed => assert "task." + "reclaimed" == "task.reclaimed";
  }

  lemma TypeOfStatus(t: EventType, own: TaskStatus, s: TaskStatus)
    requires EventTypeValue(t) == "task." + StatusValue(own)
    ensures EventTypeValue(t) == "task." + StatusValue(s) <==> own == s
  {
    ParsesExactly(StatusValue(s));
    assert StatusValue(own) == EventTypeValue(t)[5..];
    assert StatusValue(s) == ("task." + StatusValue(s))[5..];
  }

  lemma OtherTypes(t: EventType, s: TaskStatus)
    requires !t.TaskClaimed? && !t.TaskRunning? && !t.TaskVerifying?
    requires !t.TaskCompleted? && !t.TaskFailed? && !t.TaskReclaimed?
    ensures EventTypeValue(t) != "task." + StatusValue(s)
  {
    var text := "task." + StatusValue(s);
    assert text[0] == 't' && text[5] == StatusValue(s)[0];
    assert EventTypeValue(t)[0] != 't' || EventTypeValue(t)[5] != StatusValue(s)[0];
  }

  predicate KnownTodoStatus(s: string) {
    s == "queued" || s == "running" || s == "completed" || s == "failed" || s == "skipped"
  }

  /** What one raw todo entry becomes: nothing, or one cleaned item. */
  function CleanTodo(raw: Option<RawTodo>): seq<TodoItem> {
    if raw.None? || Strip(raw.value.id) == "" || Strip(raw.value.title) == "" then []
    else
      var status := Strip(if raw.value.status == "" then "queued" else raw.value.status);
      [TodoItem(Strip(raw.value.id), Strip(raw.value.title),
                if KnownTodoStatus(status) then status else "queued", raw.value.detail)]
  }

  function CleanTodos(raw: seq<Option<RawTodo>>): seq<TodoItem> {
    if raw == [] then [] else CleanTodos(raw[..|raw| - 1]) + CleanTodo(raw[|raw| - 1])
  }

  /** A dictionary with an id and a title that are not blank. */
  predicate Usable(raw: Option<RawTodo>) {
    raw.Some? && Strip(raw.value.id) != "" && Strip(raw.value.title) != ""
  }

  /** The item shows the entry: its id and title without the space around them, its status when that is known. */
  predicate ShowsTodo(item: TodoItem, raw: RawTodo) {
    && item.id == Strip(raw.id) && item.title == Strip(raw.title) && item.detail == raw.detail
    && item.status ==
       if Strip(raw.status) in {"running", "completed", "failed", "skipped"} then Strip(raw.status) else "queued"
  }

  predicate IsItem(item: TodoItem, raw: Option<RawTodo>) {
    raw.Some? && ShowsTodo(item, raw.value)
  }

  /** The items are those of the usable entries, in order, none left out. */
  ghost predicate AreItems(items: seq<TodoItem>, raw: seq<Option<RawTodo>>, at: seq<nat>) {
    Extracts(raw, Usable, items, IsItem, at)
  }

  lemma CleanTodoIsItem(raw: Option<RawTodo>)
    ensures Usable(raw) ==> |CleanTodo(raw)| == 1 && IsItem(CleanTodo(raw)[0], raw)
    ensures !Usable(raw) ==> CleanTodo(raw) == []
  {
  }

  lemma {:induction false} CleanTodosAreItems(raw: seq<Option<RawTodo>>) returns (at: seq<nat>)
    ensures AreItems(CleanTodos(raw), raw, at)
  {
    at := [];
    if raw != [] {
      var init, r := raw[..|raw| - 1], raw[|raw| - 1];
      at := CleanTodosAreItems(init);
      assert init + [r] == raw;
      CleanTodoIsItem(r);
      at := ExtractsOneMore(init, r, Usable, CleanTodos(init), CleanTodos(raw), IsItem, at);
    }
  }

  /** The cleaning loop keeps the usable entries, in order, and nothing else. */
  method NormalizeTodoItems(raw: Option<seq<Option<RawTodo>>>) returns (items: seq<TodoItem>)
    ensures items == CleanTodos(if raw.Some? then raw.value else [])
    ensures forall t :: t in items ==> t.id != "" && t.title != "" && KnownTodoStatus(t.status)
  {
    items := [];
    if raw.None? { return; }
    for i := 0 to |raw.value|
      invariant items == CleanTodos(raw.value[..i])
      invariant forall t :: t in items ==> t.id != "" && t.title != "" && KnownTodoStatus(t.status)
    {
      assert raw.value[..i + 1][..i] == raw.value[..i];
      if raw.value[i].None? { continue; }
      var r := raw.value[i].value;
      var id, title := Strip(r.id), Strip(r.title);
      if id == "" || title == "" { continue; }
      var status := Strip(if r.status == "" then "queued" else r.status);
      items := items + [TodoItem(id, title, if KnownTodoStatus(status) then status else "queued", r.detail)];
    }
    assert raw.value[..|raw.value|] == raw.value;
  }

  /** The values an event writes into the nodes of its task; unset fields are left alone. */
  function WriteOf(e: Event): Fields {
    Fields(StatusFromEvent(e), e.payload.blockedReason, e.payload.executorSummary,
           if e.eventType.TaskTodoUpdated? && e.payload.todoItems.Some?
           then CleanTodos(e.payload.todoItems.value) else [])
  }

  const NO_WRITE := Fields(None, None, None, [])

  /** Field by field, the newer write if there is one. */
  function Overlay(older: Fields, newer: Fields): Fields {
    Fields(Latest(older.status, newer.status),
           Latest(older.blockedReason, newer.blockedReason),
           Latest(older.executorSummary, newer.executorSummary),
           if newer.todos != [] then newer.todos else older.todos)
  }

  /** The events of one run, in log order. */
  function RunLog(log: seq<Event>, runId: string): seq<Event> {
    if log == [] then []
    else
      var earlier := RunLog(log[..|log| - 1], runId);
      if log[|log| - 1].runId == runId then earlier + [log[|log| - 1]] else earlier
  }

  lemma RunLogSnoc(log: seq<Event>, e: Event, runId: string)
    ensures RunLog(log + [e], runId) == if e.runId == runId then RunLog(log, runId) + [e] else RunLog(log, runId)
  {
    assert (log + [e])[..|log|] == log;
  }
}
