# Runtime kernel: event log, leases, recovery and their neighbours

This project models the runtime kernel of the control plane API in Dafny and proves what its parts promise:

* an append-only, idempotent **event log**, and the read models (timelines, task graphs, attempt histories, worker
  reports) that one projector updates event by event and others recompute from the log or from table rows;
* the **claim/lease protocol**, written twice in the source: in memory with an index, and as rows of a table;
* **terminal finalisation, reconciliation and stale-claim recovery** over the runtime tables;
* the **SLA snapshot**: first-in-first-out matching of waits, time buckets, nearest-rank percentiles;
* the **context budgeter**, the governed **memory write path**, and the **Codex app-server session**.

Objects that change in place are classes with the source's fields. Each method is proved against a specification
function over the old state (or over the log), and the lemmas beside it say what that specification guarantees over
all inputs and over whole runs. A committed database session is one atomic step; clocks, fresh identifiers and remote
answers are parameters; times are integer microseconds. Queries that return rows in no stated order are visited in an
arbitrary order.

| file | module | what it holds |
|---|---|---|
| common.dfy, contracts.dfy, events.dfy | Common, RuntimeContracts, Events | shared helpers, vocabularies, event envelopes |
| sorting.dfy | Sorting | insertion sort by a key, and the orders a query by that key may return |
| graphs.dfy, graph_fields.dfy | TaskGraphs, GraphFields | the two graph projections, and what their nodes show |
| attempts.dfy, event_terms.dfy | AttemptHistories, EventTerms | attempt histories and timelines from events |
| attempt_marks.dfy, attempt_rows.dfy | AttemptMarks, AttemptRows | attempt rows of any sessions, against the records |
| attempt_events.dfy | AttemptEvents | attempt rows that events alone have written |
| attempt_lists.dfy | AttemptLists | the attempt list of a task, from rows and from events |
| workers.dfy | WorkerReports | worker reports by delivery and by time |
| store.dfy, idempotency_keys.dfy | EventStore, IdempotencyKeys | the in-memory store, its projector, default keys |
| leases.dfy, lease_simulation.dfy | Leases, LeaseSimulation | the lease manager; manager and claim table side by side |
| persistence.dfy, settled.dfy | RuntimePersistence, SettledRuns | the tables and the service; terminal runs stay clean |
| row_effects.dfy | RowEffects | what sessions leave in the rows, field by field |
| claim_rows.dfy, lease_times.dfy | ClaimRows, LeaseTimes | claim rows and the transition table; when a lease ends |
| recovery.dfy | Recovery | stale-claim recovery |
| fifo.dfy, percentile.dfy, sla.dfy, sla_reports.dfy | Fifo, Percentiles, Sla, SlaReports | matching, percentiles, the SLA snapshot |
| context.dfy, context_sources.dfy | ContextBuilder, ContextSources | the context budgeter |
| memory.dfy, codex.dfy | MemoryWrites, CodexSession | the two smaller cores |

## Where the code does not do what one would expect

Each of these is proved with its exact condition and with an input or a run on which it happens.

* **The two task graphs differ.** The incremental projector forgets what was written before the latest snapshot, the
  batch projector replays it (`TaskGraphs.ProjectionsAgreeExactly`, `ProjectionsCanDiffer`). The empty task id is a
  second difference (one projector tests truthiness, the other `is None`); it is part of the condition.
* **The two attempt histories differ.** Claims, sweeps, transitions and finalisation write the rows and not the records,
  rows list events by attempt id alone, their end follows the status instead of the event type, and they are listed by
  time of creation under the task they were created with (`AttemptLists.ListsAgreeExactly`, `AttemptCanBeMissing`; for
  one record `AttemptRows.RecordsAgreeExactly`, `StartCanDiffer`, `EventsCanDiffer`; for rows that events alone have
  written `AttemptEvents.EventStatusAgreesExactly`, `EventEndAgreesExactly`, `StatusAndEndCanDiffer`).
* **The two worker reports differ** when the report delivered last is not the newest, or when equally new ones differ
  (`WorkerReports.ReportsAgreeExactly`, `ReportsCanDiffer`). One report that names no worker, or an unreadable one that
  no newer report of its worker precedes, stops the projection from the table for all workers (`NeverStopsExactly`,
  `ProjectionCanStop`). The order in which workers are listed differs as well (`ListsAgreeExactly`).
* **`ClaimLeaseManager.release` does not check the status** and drops the task's index entry whichever claim it names.
  The index stays exact if and only if no inactive claim is released while its task has an active one
  (`Leases.IndexExactThroughout`, `TwoActiveClaimsReachable`). Releasing a claim that was taken back also leaves the
  claim transition table (`HistoriesFollowTable`, `ReclaimedClaimCanBeReleased`), and so it does among the rows, where
  finalisation takes claims back as well (`ClaimRows.RowHistoriesFollowTable`, `FinalizedClaimCanBeReleased`). The table
  form keeps one active claim per task and run without any such discipline (`RuntimePersistence.TablesKeepOneActive`).
* **The two lease stores part** on a claim of a task held under another run, on a claim of an attempt that has an old
  row, and after a misplaced release; on nothing else (`LeaseSimulation.StoresAgreeExactly`, `OtherRunReachable`,
  `HandedBackReachable`, `MisplacedReleaseReachable`).
* **A terminal event can revive what it closes.** The run is finalised before the event's own status is written
  (`RuntimePersistence.TerminalEventCleansExactly`, `TerminalEventCanRevive`).
* **A run that is over can be claimed in or written to again**, by a claim, an event, a task transition or an `ensure`
  call (`SettledRuns.SettledThroughoutExactly`, `ClaimCanUnsettle`).
* **Recovery can report a run twice** when its clock advances between sessions (`Recovery.OnePerRunExactly`,
  `RunCanBeReportedTwice`).
* **A memory candidate without a namespace is judged by the global threshold**, whatever namespace it is filed under
  (`MemoryWrites.ThresholdsDifferExactly`, `NamespaceDecides`).
* **A request can wait for ever, and a session can refuse to close.** A failure to receive, or an id that is no number,
  ends the reader of a session that stays open. Requests made after that are accepted and never answered
  (`CodexSession.StaysUnansweredExactly`, `RequestCanWaitForever`), and closing raises the reader's error before it
  drops the transport, each time (`CannotBeClosedExactly`).

## Model

| member | source | states |
|---|---|---|
| Common.StripTrims | apps/api/api/events/store.py:49-53 | stripping leaves the text without the space around it |
| Common.LowerKeeps | apps/api/api/context/service.py:290-291 | lowering changes capitals only, each to the small letter 32 codes on |
| RuntimeContracts.ParsesExactly | apps/api/api/runtime_persistence/service.py:43-49 | a text parses to the status whose wire value it is, and no other text parses |
| Events.StatusIsSaid | apps/api/api/events/store.py:23-38 | the status of an event is the one its `to_status` spells, or, without one, the one its own type `task.<status>` names; there is none otherwise |
| Events.NormalizeTodoItems | apps/api/api/events/store.py:41-64 | the cleaning loop yields exactly the usable entries in order; every kept item has an id, a title and a known status |
| Events.CleanTodosAreItems | apps/api/api/events/store.py:41-64 | the items are those of the usable entries, in order, none left out: id and title without the space around them, the status when it is known and queued otherwise, the detail as it came |
| TaskGraphs.TouchInPlace | apps/api/api/runtime_persistence/projectors.py:179-199 | the inner loop overwrites the set fields of every node of the event's task and leaves every other node alone; what the fields then show is said in `GraphFields.NodesShowEvents` |
| TaskGraphs.GraphOfRows | apps/api/api/runtime_persistence/projectors.py:150-177 | without a snapshot the graph is one node per task row and one edge per dependency, in row order |
| TaskGraphs.RowsGraphHolds | apps/api/api/runtime_persistence/projectors.py:150-177 | node i is that of row i, and the edges of row i are its dependencies in order, right after those of the rows before it |
| TaskGraphs.ProjectBatch | apps/api/api/runtime_persistence/projectors.py:133-200 | the two-pass projector returns the latest snapshot with the whole log replayed onto it, or the graph of the task rows; it raises exactly when some snapshot of the log cannot be validated |
| TaskGraphs.BatchNodes | apps/api/api/runtime_persistence/projectors.py:133-200 | for every log with a snapshot, each batch node is its snapshot node overlaid with everything the whole log wrote to its task |
| TaskGraphs.IncrementalNodes | apps/api/api/events/store.py:77-114 | for every log with a snapshot, each incremental node is its snapshot node overlaid only with what was written from the latest snapshot on (nothing, for the empty task id) |
| TaskGraphs.LaidIsLastWrite | apps/api/api/events/store.py:98-114 | writes laid over each other hold the last write of each field, and say nothing on a field nobody wrote |
| TaskGraphs.FieldsAreLastWrites | apps/api/api/runtime_persistence/projectors.py:133-200 | field by field, the batch graph holds the last write anywhere in the log and the incremental graph the last write at or after the snapshot, the snapshot's value being the default of both |
| TaskGraphs.SuffixSuffices | apps/api/api/events/store.py:85-114 | replaying all writes or only a suffix gives a field the same value if and only if its last write is in the suffix or wrote the base value |
| TaskGraphs.FieldAgreement | apps/api/api/events/store.py:85-114 | the two projections agree on one field of one node if and only if that field is not forgotten |
| TaskGraphs.ProjectionsAgreeExactly | apps/api/api/events/store.py:77-114 | for every log with a snapshot and no broken one, the two graphs are equal if and only if no field's last write precedes the snapshot (or addresses the empty task id) with a value other than the snapshot's |
| TaskGraphs.ReportsAgreeExactly | apps/api/api/runtime_persistence/projectors.py:143-200 | for every log and task table, what the two projectors report is equal if and only if no snapshot is broken and nothing is forgotten, or, without a snapshot, the run has no task rows |
| TaskGraphs.ProjectionsCanDiffer | apps/api/api/events/store.py:85-114 | a three-event log on which the batch graph shows a failed task and the incremental graph no status |
| GraphFields.NodesShowEvents | apps/api/api/runtime_persistence/projectors.py:133-200 | for every log with a snapshot and no broken one, each batch node shows, field by field, what the last event of its task that says something of the kind carries: the status said, `blocked_reason`, `executor_summary`, the items of the last todo update with a usable entry; each incremental node shows the same from the latest snapshot on; ids, titles, edges and whatever nobody said are the snapshot's |
| GraphFields.RowNodesShowRows | apps/api/api/runtime_persistence/projectors.py:150-177 | without a snapshot, node i carries id, title, status, blocked reason and executor summary of row i, and its edges lead from each dependency to it |
| GraphFields.SummaryIsNoReason | apps/api/api/runtime_persistence/projectors.py:190-195 | a running event with a summary and no reason: the node shows the summary, no reason, and running |
| EventTerms.TimelineTellsRun | apps/api/api/events/store.py:77-83 | the timeline of a run tells number, type, time, trace, task, attempt and summary of each event of the run, in log order, none left out |
| AttemptHistories.RecordAttempt | apps/api/api/events/store.py:117-136 | one event turns the history of a log into the history of the longer log |
| AttemptHistories.FirstSeenOnce | apps/api/api/events/store.py:117-125 | a task's history lists each attempt once, and exactly the attempts some event names together with the task |
| AttemptHistories.FirstSeenInOrder | apps/api/api/events/store.py:117-125 | the attempts are listed in the order in which events first name them: the positions of their first events ascend |
| AttemptHistories.AttemptLogIsSubsequence | apps/api/api/events/store.py:117-126 | the events behind a record are the log's events at the naming positions, in log order |
| AttemptHistories.PositionsAscend | apps/api/api/events/store.py:117-126 | the naming positions ascend strictly, so no event is entered twice or out of order |
| AttemptHistories.PositionsComplete | apps/api/api/events/store.py:117-126 | every event that names the attempt with its task is at one of the naming positions |
| AttemptHistories.LastStatusIsLast | apps/api/api/events/store.py:128-130 | the status of a record is the last status any of its events stands for, and there is one if and only if some event has one; which status an event stands for is said in `Events.StatusIsSaid` |
| EventTerms.RecordStarts | apps/api/api/events/store.py:126-127 | the start of a record is the time of the first event that names the attempt with its task |
| EventTerms.RecordStatus | apps/api/api/events/store.py:128-130 | its status is the last one such an event spells in `to_status` or names by its type |
| EventTerms.RecordEnds | apps/api/api/events/store.py:131-136 | its end is the time of the last such event of type task.completed, task.failed or task.reclaimed |
| EventTerms.RecordNumbers | apps/api/api/events/store.py:126-126 | its numbers are the sequence numbers of such events, in log order, none left out |
| EventTerms.HistoryListsNamed | apps/api/api/events/store.py:117-125 | the history of a task lists an attempt exactly when some event names both |
| AttemptHistories.EnterIsSummary | apps/api/api/events/store.py:126-136 | updating a record field by field equals summarising the longer list of its events (sequence list, start, status, end) |
| AttemptHistories.HistoryOfOthers | apps/api/api/events/store.py:117-136 | an event that does not name the task with an attempt leaves its history unchanged |
| AttemptHistories.HistoryIsPerRun | apps/api/api/events/store.py:116-136 | a task whose attempts only one run names has the history that run's own log gives |
| AttemptMarks.StatusIsFinal | apps/api/api/runtime_persistence/service.py:916-1025 | the status of a row is the last one a session puts into it whatever it held, unless that one is in flight and the run is closed after; then it is that of the first such closing |
| AttemptMarks.EndIsFinal | apps/api/api/runtime_persistence/service.py:916-1025 | the end of a row is the last one given by a terminal status, a sweep or a transition; or, if none was, the time of the first closing that found the row in flight |
| AttemptMarks.StartIsFirst | apps/api/api/runtime_persistence/service.py:562-1025 | the start of a row is the first one any session gives |
| AttemptMarks.ToldIs | apps/api/api/events/store.py:116-136 | status, start and end of the record are the last status, first time and last end that events naming the attempt bring |
| AttemptRows.MarkStep | apps/api/api/runtime_persistence/service.py:143-1040 | what a session writes into one attempt's row is what the session is, whether it goes through and the run of the row decide; nothing else about the row matters |
| AttemptRows.RowOfSessions | apps/api/api/runtime_persistence/service.py:143-1040 | over any sessions on empty tables (events, claims, sweeps, transitions, reconciliations, ensure calls), status, start and end of a row are what these writes add up to |
| AttemptRows.RecordOfSessions | apps/api/api/events/store.py:116-136 | and those of the in-memory record are what the accepted events among the sessions say |
| AttemptRows.StatusAgreesExactly | apps/api/api/runtime_persistence/projectors.py:214-218 | over any sessions, row status and record status agree if and only if some event named one and the last one named is the last word: it equals the last status any session put into the row, or what the first closing of the run after that made of it |
| AttemptRows.StartAgreesExactly | apps/api/api/runtime_persistence/projectors.py:219-219 | over any sessions, the starts agree if and only if the first event that names the attempt bears the first start any session gives the row |
| AttemptRows.EndAgreesExactly | apps/api/api/runtime_persistence/projectors.py:220-220 | over any sessions, the ends agree if and only if the last event of an ending type bears the last end given to the row, or, where none was given, the time of the first closing that found it in flight |
| AttemptRows.EventsAgreeExactly | apps/api/api/runtime_persistence/projectors.py:221-228 | the event lists agree if and only if every event of the attempt names the task and they arrived in sequence order |
| AttemptRows.EventsCanDiffer | apps/api/api/runtime_persistence/projectors.py:221-228 | an event that names the attempt without its task is listed with the row and not with the record |
| AttemptRows.RecordsAgreeExactly | apps/api/api/runtime_persistence/projectors.py:204-232 | over any sessions, the two projectors give the same record of an attempt that has a row if and only if these conditions hold together |
| AttemptRows.RowStaysAlong | apps/api/api/runtime_persistence/service.py:143-1040 | over any sessions, a row that is there stays, under its run and its task |
| AttemptRows.BornStartExactly | apps/api/api/runtime_persistence/service.py:562-615 | a row that a claim or an event creates starts when the record does if and only if the first event that names the attempt bears the time of that claim or event |
| AttemptRows.EventBornStartAgrees | apps/api/api/runtime_persistence/service.py:837-990 | so a row created by an event that names the attempt with its task always starts when the record does |
| AttemptRows.StartCanDiffer | apps/api/api/runtime_persistence/service.py:584-595 | an attempt claimed at time 0 whose first event comes at time 5: the row starts at 0, the record at 5 |
| AttemptEvents.EventStatusAgreesExactly | apps/api/api/runtime_persistence/service.py:916-1025 | of rows that events alone have written: when every event of the attempt names its task, the statuses agree if and only if the last event of the attempt with a status does not leave it in flight in a run that a later event ends |
| AttemptEvents.EventEndAgreesExactly | apps/api/api/runtime_persistence/service.py:916-1025 | of the same rows: the ends agree if and only if the last event of an ending type bears the time of the last event with a terminal status, or, without one, of the first event that ends the run once the attempt is named |
| AttemptEvents.StatusAndEndCanDiffer | apps/api/api/runtime_persistence/service.py:992-1025 | a two-event log, a running attempt and a failed workflow, on which row and record have different statuses and different ends |
| AttemptLists.SeenAsNamed | apps/api/api/events/store.py:117-125 | the history lists attempts in the order in which events first name them, so it follows the times of creation if and only if those do |
| AttemptLists.ListsAgreeExactly | apps/api/api/runtime_persistence/projectors.py:207-232 | for every sequence of sessions, every task and all times of creation, in whatever order equal times are returned: the two projectors give the same list if and only if the rows of the task are those of the attempts events name with it, created in the order of first naming at ascending times, and each row agrees with its record |
| AttemptLists.AttemptCanBeMissing | apps/api/api/runtime_persistence/projectors.py:209-213 | an attempt created under one task and named by an event with another is in the one list and not in the other, whatever the order |
| WorkerReports.ProjectWorkers | apps/api/api/runtime_persistence/projectors.py:238-266 | the loop over the rows lists each worker once, in the order of their first rows and with what these say, and raises exactly when a row has no worker id or is the first of its worker and unreadable |
| WorkerReports.ReportedOnce | apps/api/api/events/store.py:138-149 | the in-memory projector lists each worker once |
| WorkerReports.LastReportTells | apps/api/api/events/store.py:138-149 | what is shown of a worker is what its last readable report says, with the time of that report |
| WorkerReports.ReportsAgreeExactly | apps/api/api/runtime_persistence/projectors.py:238-266 | for every log and worker, in whatever order equal times are returned: the projection by time returns, and shows of the worker the last report delivered, if and only if every report names a worker, every unreadable one has a newer report of its worker, and every newest readable report of the worker says the same as the last delivered one |
| WorkerReports.NeverStopsExactly | apps/api/api/runtime_persistence/projectors.py:246-262 | the projection by time never raises, in whatever order equal times are returned, if and only if every report names a worker and every unreadable one has a strictly newer report of its worker |
| WorkerReports.ListedByTime | apps/api/api/runtime_persistence/projectors.py:240-266 | the projection by time lists workers by when they were last seen, latest first |
| WorkerReports.ListsAgreeExactly | apps/api/api/runtime_persistence/projectors.py:238-266 | for every log, the two projectors return the same list in whatever order equal times are returned, if and only if they agree on every worker and the last reports go strictly back in time along the order in which workers first reported |
| WorkerReports.AnyNewestCanBeFirst | apps/api/api/runtime_persistence/projectors.py:240-244 | whichever newest report of a worker one names, some order of the query makes it the one reported |
| WorkerReports.ReportsCanDiffer | apps/api/api/runtime_persistence/projectors.py:240-248 | two reports delivered newer first: one projector shows the older, the other the newer |
| WorkerReports.ProjectionCanStop | apps/api/api/runtime_persistence/projectors.py:246-256 | a readable report and a newer unreadable one of the same worker: the projection from the table raises for all workers, the in-memory one still shows the first |
| EventStore.RuntimeProjector.constructor | apps/api/api/events/store.py:68-75 | an empty projector holds the read models of the empty log |
| EventStore.RuntimeProjector.Apply | apps/api/api/events/store.py:77-149 | applying an event keeps every timeline, graph, history and worker report equal to what the log extended by that event says; it raises exactly on a snapshot that cannot be validated, with only the timeline extended, and on an unreadable worker report, after all else is applied |
| EventStore.RuntimeProjector.UpdateTimeline | apps/api/api/events/store.py:77-83 | appending the entry keeps all timelines those of the extended log |
| EventStore.RuntimeProjector.UpdateGraph | apps/api/api/events/store.py:85-114 | replacing and then touching the run's graph keeps all graphs those of the extended log |
| EventStore.RuntimeProjector.UpdateAttempts | apps/api/api/events/store.py:116-136 | the attempt update keeps all histories those of the extended log |
| EventStore.BrokenChangesNothing | apps/api/api/events/store.py:85-93 | an event whose snapshot cannot be validated leaves graphs and attempt histories those of the longer log, which has nothing more to say |
| EventStore.RuntimeProjector.UpdateWorkers | apps/api/api/events/store.py:138-149 | the report of a worker is the last readable one in the log, whatever its time, and workers are kept in the order of their first report; an unreadable report raises |
| EventStore.RuntimeProjector.GetTimeline | apps/api/api/events/store.py:151-154 | the timeline of a run lists one entry per event of the run, in log order |
| EventStore.RuntimeProjector.GetGraph | apps/api/api/events/store.py:156-159 | the graph read is the incremental graph of the run's own log, or the empty graph |
| EventStore.RuntimeProjector.GetAttempts | apps/api/api/events/store.py:161-164 | the history read is the history of the task over the whole log |
| EventStore.RuntimeProjector.GetWorkers | apps/api/api/events/store.py:166-167 | the reports read are the last readable report of each worker, in the order in which the workers first reported |
| EventStore.InMemoryRuntimeEventStore.constructor | apps/api/api/events/store.py:171-178 | a new store is valid and holds the empty log |
| EventStore.InMemoryRuntimeEventStore.NextSequence | apps/api/api/events/store.py:180-181 | the next sequence number is one more than the events of the run |
| EventStore.InMemoryRuntimeEventStore.Append | apps/api/api/events/store.py:183-197 | the event is stored if and only if its key is new and its sequence continues its run, also when the projector then raises on it; a known key returns the stored event with that key; a refused append leaves log, index and read models unchanged |
| EventStore.DeliverKeepsWellFormed | apps/api/api/events/store.py:183-197 | every delivery keeps distinct keys and sequences 1, 2, 3, ... in each run |
| EventStore.EveryLogIsWellFormed | apps/api/api/events/store.py:183-197 | after any deliveries whatever, each run's log has sequences 1..n and no two events share a key |
| EventStore.RepeatsHaveNoEffect | apps/api/api/events/store.py:183-187 | deliveries that repeat already accepted events can be dropped without changing the log, hence no read model |
| EventStore.RunLogIsLocal | apps/api/api/events/store.py:183-197 | with distinct keys, a run's log depends only on that run's own deliveries, in their order |
| EventStore.InterleavingKeepsKeysDistinct | apps/api/api/events/store.py:183-187 | keys that are distinct in one interleaving are distinct in every other |
| EventStore.InterleavingsAgreeOnRuns | apps/api/api/events/store.py:77-114 | any two interleavings of the same per-run deliveries give every run the same timeline and graph |
| EventStore.InterleavingsAgreeOnTasks | apps/api/api/events/store.py:116-136 | and give the same attempt history to every task that only one run names |
| IdempotencyKeys.DecimalInjective | apps/api/api/events/builder.py:42-43 | two sequence numbers with the same decimal text are equal |
| IdempotencyKeys.LastColonSplits | apps/api/api/events/builder.py:42-43 | text split at its last colon is determined by the whole, whatever colons come before |
| IdempotencyKeys.ValuesHaveNoColon | apps/api/api/runtime_contracts.py:75-98 | no event type's wire value contains a colon |
| IdempotencyKeys.ValuesInjective | apps/api/api/runtime_contracts.py:75-98 | distinct event types have distinct wire values |
| IdempotencyKeys.DefaultKeysInjective | apps/api/api/events/builder.py:42-43 | two default keys are equal only when run id, sequence and event type all agree, run ids with colons included |
| IdempotencyKeys.DefaultKeyText | apps/api/api/events/builder.py:42-43 | the key of event 12 of run-1, a task.failed, is run-1:12:task.failed |
| IdempotencyKeys.DuplicatesAreGenuine | apps/api/api/events/store.py:183-187 | among default-keyed events, one is refused as a duplicate if and only if the log already has that type at that position of that run |
| IdempotencyKeys.NextEventAccepted | apps/api/api/events/store.py:183-197 | in a well-formed log of default-keyed events, a default-keyed event is accepted if and only if it continues its run |
| Leases.ClaimLeaseManager.constructor | apps/api/api/workflows/lease_manager.py:31-36 | a new manager has no claims, no order and no index |
| Leases.ClaimLeaseManager.Claim | apps/api/api/workflows/lease_manager.py:38-65 | refused exactly when the indexed claim of the task is active; otherwise a fresh active claim is filed and indexed, nothing else changes |
| Leases.ClaimLeaseManager.HeartbeatClaim | apps/api/api/workflows/lease_manager.py:67-73 | an unknown or inactive claim is refused; otherwise only its heartbeat changes |
| Leases.ClaimLeaseManager.ReleaseClaim | apps/api/api/workflows/lease_manager.py:75-84 | a known claim is released whatever its status, and its task leaves the index |
| Leases.ClaimLeaseManager.Visit | apps/api/api/workflows/lease_manager.py:97-117 | one claim of the sweep: taken back and its task dropped from the index exactly when it is of the swept run, active, and forced or out of lease |
| Leases.ClaimLeaseManager.VisitAll | apps/api/api/workflows/lease_manager.py:95-118 | the loop looks at every claim once, in insertion order |
| Leases.ClaimLeaseManager.ReclaimStaleClaims | apps/api/api/workflows/lease_manager.py:86-118 | the sweep takes back all such claims and no other, and returns them in insertion order; when a lease ends is said in `LeaseTimes.ManagerKeepsLeases` |
| Leases.StepKeepsWellFormed | apps/api/api/workflows/lease_manager.py:38-118 | every call keeps claims under their ids, the order complete without repeats, and index entries pointing at claims of their task |
| Leases.OneActivePerTask | apps/api/api/workflows/lease_manager.py:30-36 | under an exact index a task has at most one active claim |
| Leases.IndexKeptExactly | apps/api/api/workflows/lease_manager.py:38-118 | a call keeps the index naming exactly the active claims if and only if it is not a misplaced release |
| Leases.MisplacedReleaseDoublesClaims | apps/api/api/workflows/lease_manager.py:75-84 | from every state with an exact index, a misplaced release lets the next claim of the task succeed beside the one still active |
| Leases.TwoActiveClaimsReachable | apps/api/api/workflows/lease_manager.py:38-84 | a run of five calls from the empty manager (claim, release, claim, release the first again, claim) that ends with two active claims of one task |
| Leases.IndexExactThroughout | apps/api/api/workflows/lease_manager.py:30-118 | over every run from the empty manager, the index is exact in all states if and only if no release is misplaced |
| Leases.StepFollowsTableExactly | apps/api/api/workflows/state_machine.py:75-105 | a call moves every claim along the claim transition table if and only if it does not release a claim taken back before; new claims are active; who holds what never changes |
| Leases.HistoriesFollowTable | apps/api/api/workflows/state_machine.py:75-80 | over every run, every claim's status history is a path in the table if and only if no claim is released after it was taken back |
| Leases.ReclaimedClaimCanBeReleased | apps/api/api/workflows/lease_manager.py:75-118 | a run of three calls (claim, sweep, release) on which a claim's status leaves the transition table |
| RuntimeContracts.MovesExactly | apps/api/api/workflows/state_machine.py:75-80 | the claim table allows a move only from active, to anything, and from expired to reclaimed |
| LeaseTimes.AllWellFormed | apps/api/api/workflows/lease_manager.py:30-118 | in every run of the manager all states are well formed |
| LeaseTimes.ManagerKeepsLeases | apps/api/api/workflows/lease_manager.py:67-118 | over every run of the manager: an active claim whose grant or last heartbeat is at h stays as it is in an unforced sweep before h plus its lease in seconds, and is taken back with the time of the sweep, and returned, by one from then on |
| LeaseTimes.ForcedAndForeignSweeps | apps/api/api/workflows/lease_manager.py:95-118 | a sweep that forces an active claim of its run takes it back at any time; a sweep of another run never touches it |
| LeaseTimes.CallsWrite | apps/api/api/workflows/lease_manager.py:38-84 | a grant files an active claim with what was asked for and the time of the call; a release marks the claim, whatever its status, with the time; both leave the other claims alone |
| LeaseTimes.TablesKeepLeases | apps/api/api/runtime_persistence/service.py:617-691 | over every sequence of sessions: an active claim row whose grant or last heartbeat is at h stays as it is in an unforced sweep before h plus its lease; from then on it is taken back, its task and its attempt are reclaimed, the attempt ended; and the scan lists it exactly from then on |
| LeaseTimes.OtherRowsKept | apps/api/api/runtime_persistence/service.py:640-676 | a sweep leaves the tasks and attempts of claims it does not take back alone, and all runs and events |
| LeaseTimes.HeartbeatExtends | apps/api/api/runtime_persistence/service.py:617-661 | a minute's lease claimed at 0 and beaten at 50 seconds survives a sweep at 70 and not one at 110 |
| ClaimRows.SessionFollowsTableExactly | apps/api/api/workflows/state_machine.py:75-105 | a session moves every claim row along the claim transition table if and only if it does not release one taken back before |
| ClaimRows.RowHistoriesFollowTable | apps/api/api/workflows/state_machine.py:75-105 | over every sequence of sessions, finalisation and sweeps included, the claim rows follow the table at every step if and only if no claim is released after it was taken back |
| ClaimRows.FinalizedClaimCanBeReleased | apps/api/api/runtime_persistence/service.py:630-719 | four sessions on empty tables (run, claim, failure, release) on which a claim row leaves the table |
| LeaseSimulation.SameConflict | apps/api/api/runtime_persistence/service.py:562-615 | the table finds a task taken exactly when the manager does under the same run |
| LeaseSimulation.ClaimingExactly | apps/api/api/runtime_persistence/service.py:562-615 | on related stores, a claim call gets the same answer if and only if the task is not held under another run and the attempt has no old row the table hands back |
| LeaseSimulation.AlignedSweep | apps/api/api/runtime_persistence/service.py:640-676 | a sweep over the same claims takes back the same ones in both stores and keeps them aligned |
| LeaseSimulation.SimulationStep | apps/api/api/runtime_persistence/service.py:562-676 | on related stores, one call gets the same answer and leaves them related if and only if it is not a claim of that kind or a misplaced release |
| LeaseSimulation.StoresAgree | apps/api/api/workflows/lease_manager.py:38-118 | as long as no call parts them, both stores accept and refuse alike and hold the same active (task, worker, heartbeat) set, over any sequence of calls from empty claims |
| LeaseSimulation.StoresAgreeExactly | apps/api/api/workflows/lease_manager.py:38-118 | over every run, the stores answer alike and stay related throughout if and only if no call parts them |
| LeaseSimulation.MisplacedReleaseParts | apps/api/api/workflows/lease_manager.py:75-84 | after every misplaced release, the next claim of the task for the run that holds it is granted by the manager and refused by the table |
| LeaseSimulation.OtherRunReachable | apps/api/api/runtime_persistence/service.py:572-579 | a run after which a task claimed under another run is refused by the manager and granted by the table |
| LeaseSimulation.HandedBackReachable | apps/api/api/runtime_persistence/service.py:581-583 | a run after which the same attempt claims again: the manager makes an active claim, the table hands back the released row |
| LeaseSimulation.MisplacedReleaseReachable | apps/api/api/workflows/lease_manager.py:75-84 | a run of four calls after which the manager grants and the table refuses |
| LeaseSimulation.SameHoldings | apps/api/api/runtime_persistence/service.py:562-676 | related stores agree on who holds which task and since when it was heard of |
| RuntimePersistence.CloseRunsCleans | apps/api/api/runtime_persistence/service.py:992-1040 | after finalisation nothing of the closed runs is in flight or holds a lease |
| RuntimePersistence.CloseRunsChangesOpenRows | apps/api/api/runtime_persistence/service.py:992-1040 | the rows finalisation changes are exactly the in-flight tasks and attempts and active claims of the closed runs |
| RuntimePersistence.CloseCleanRuns | apps/api/api/runtime_persistence/service.py:992-1040 | finalising clean runs changes nothing |
| RuntimePersistence.CloseOneMore | apps/api/api/runtime_persistence/service.py:721-759 | closing runs one after the other, in any order, equals closing them together |
| RuntimePersistence.OpenAfterOthersClosed | apps/api/api/runtime_persistence/service.py:721-759 | closing other runs leaves what a run has open as it was |
| RuntimePersistence.Appended | apps/api/api/runtime_persistence/service.py:249-284 | the event table after a delivery is the one the in-memory store's rule gives |
| RuntimePersistence.AppendAll | apps/api/api/runtime_persistence/service.py:249-284 | and so over any deliveries |
| RuntimePersistence.DuplicateChangesNothing | apps/api/api/runtime_persistence/service.py:249-262 | an event with a known key changes no table |
| RuntimePersistence.RepeatsHaveNoTableEffect | apps/api/api/runtime_persistence/service.py:249-284 | redelivered events change no table: runs, tasks, attempts, claims and log are those of the deliveries kept |
| RuntimePersistence.TerminalEventCleansExactly | apps/api/api/runtime_persistence/service.py:916-990 | an accepted event that ends its run leaves the run clean if and only if it does not itself put a task or attempt of the run back in flight |
| RuntimePersistence.TerminalEventCanRevive | apps/api/api/runtime_persistence/service.py:916-990 | an accepted event on empty tables after which the run is failed and its task running |
| RuntimePersistence.AppendTouchesOwnRun | apps/api/api/runtime_persistence/service.py:837-990 | whatever the event, a row of another run changes only if the event names it |
| RuntimePersistence.TerminalTransitionCleans | apps/api/api/runtime_persistence/service.py:693-719 | a terminal status written from outside leaves the run clean and every row of every other run unchanged |
| RuntimePersistence.ReconcileStep | apps/api/api/runtime_persistence/service.py:721-759 | one more run closed: tables and counters advance together |
| RuntimePersistence.ReconcileOnce | apps/api/api/runtime_persistence/service.py:721-759 | after reconciliation every scanned run is clean, the row counters are the numbers of rows changed, and a second call at any time changes nothing and reports zero |
| RuntimePersistence.SummaryCounts | apps/api/api/runtime_persistence/service.py:721-759 | the summary reports the runs looked at, those of them with something open, and the numbers of tasks, attempts and claims changed |
| RowEffects.TransitionWrites | apps/api/api/runtime_persistence/service.py:693-719 | a status written to a run: its row has it, with the first start or the end; if it ends the run, each unfinished task and attempt of the run becomes failed in a failed run and cancelled in a completed or cancelled one, takes the time and the reason where it has none, each active claim is reclaimed, and no other row changes |
| RowEffects.ReconciliationCloses | apps/api/api/runtime_persistence/service.py:721-759 | a reconciliation closes the rows of every terminal run asked for in the same way, with the run's own status and end, and changes nothing else |
| RowEffects.EventTellsRun | apps/api/api/runtime_persistence/service.py:837-955 | an accepted event gives its run the status its type stands for, keeps the first start, sets the end, names it, and creates it when missing; other runs stay |
| RowEffects.EventWrites | apps/api/api/runtime_persistence/service.py:837-1040 | an accepted event in three steps: missing rows are created queued; the rows of a run it completes or fails are closed as by a transition; then the task and the attempt it names take the status it says, its reason and summary, its time as first start and, for a finished status, as end; every other row stays |
| RowEffects.StatusShownEverywhere | apps/api/api/runtime_persistence/service.py:916-990 | an accepted event that names a task and an attempt and says a status leaves the in-memory record and both rows with it |
| RowEffects.ClaimWrites | apps/api/api/runtime_persistence/service.py:562-615 | a claim that is refused or handed its old row writes nothing; otherwise it writes a fresh active claim row, the attempt claimed with its first start, the task claimed if it has a row, and nothing else |
| RowEffects.HeartbeatAndReleaseWrite | apps/api/api/runtime_persistence/service.py:617-638 | a heartbeat moves the heartbeat of an active claim only; a release marks any claim released with the time |
| RowEffects.TaskTransitionWrites | apps/api/api/runtime_persistence/service.py:761-797 | a status written to a task and an attempt: both rows have it, with the first start, the end when it is a finished one, and the reason when one is given; no other row changes |
| RowEffects.EnsureWrites | apps/api/api/runtime_persistence/service.py:143-247 | an ensure call creates the missing row, or updates only the name of the run, title and summary of the task, the status of the attempt |
| RuntimePersistence.CommitKeepsOneActive | apps/api/api/runtime_persistence/service.py:143-835 | no session creates a second active claim for a task of a run |
| RuntimePersistence.TablesKeepOneActive | apps/api/api/runtime_persistence/service.py:562-676 | over any sequence of sessions, a task of a run never has two active claims |
| RuntimePersistence.TablesKeepKeyed | apps/api/api/runtime_persistence/service.py:562-676 | over any sequence of sessions, every claim row stays filed under its own id |
| SettledRuns.SettledMeansClean | apps/api/api/runtime_persistence/service.py:992-1040 | the tables are settled exactly when every run that is over is clean |
| SettledRuns.ReconcileSettles | apps/api/api/runtime_persistence/service.py:721-759 | a reconciliation of all runs settles any tables |
| SettledRuns.ClaimSettledExactly | apps/api/api/runtime_persistence/service.py:562-615 | on settled tables, a claim leaves them settled if and only if it makes no new row for a run, attempt or task that belongs to a run that is over |
| SettledRuns.TasksSettledExactly | apps/api/api/runtime_persistence/service.py:837-990 | an accepted event leaves the task table settled if and only if it does not leave the task it names in flight in a run that is over by then |
| SettledRuns.AttemptsSettledExactly | apps/api/api/runtime_persistence/service.py:837-990 | the same for the attempt table |
| SettledRuns.WriteSettledExactly | apps/api/api/runtime_persistence/service.py:761-797 | on settled tables, a task transition leaves them settled if and only if its target is not in flight or neither the task nor the attempt it names belongs to a run that is over |
| SettledRuns.EnsureSettledExactly | apps/api/api/runtime_persistence/service.py:143-247 | the same for an ensure call: only a new task, or an attempt put in flight, in a run that is over unsettles |
| SettledRuns.CommitSettledExactly | apps/api/api/runtime_persistence/service.py:143-835 | on settled tables, a session leaves them settled if and only if it is not such a claim, event, task transition or ensure call |
| SettledRuns.SettledThroughoutExactly | apps/api/api/runtime_persistence/service.py:143-835 | over every sequence of sessions from settled tables, every run that is over is clean at all times if and only if no session unsettles |
| SettledRuns.ClaimCanUnsettle | apps/api/api/runtime_persistence/service.py:562-615 | two sessions from empty tables, a failed workflow and a claim in it, after which a run that is over holds a lease |
| RuntimePersistence.RuntimePersistenceService.FinalizeTasks | apps/api/api/runtime_persistence/service.py:1001-1012 | in-flight tasks of the run get the closing status, and a completion time and a reason where they had none (which status and which reason is said in `RowEffects.TransitionWrites`); the count is the number of such tasks |
| RuntimePersistence.RuntimePersistenceService.FinalizeAttempts | apps/api/api/runtime_persistence/service.py:1014-1025 | the same for attempts, which also record the status that closed them (`RowEffects.TransitionWrites`) |
| RuntimePersistence.RuntimePersistenceService.FinalizeClaims | apps/api/api/runtime_persistence/service.py:1027-1035 | active claims of the run become reclaimed and keep earlier expiry and reclaim times |
| RuntimePersistence.RuntimePersistenceService.FinalizeInflight | apps/api/api/runtime_persistence/service.py:992-1040 | the three loops together close one run and report the numbers of rows that were open |
| RuntimePersistence.RuntimePersistenceService.FindByKey | apps/api/api/runtime_persistence/service.py:249-262 | finds a stored event with the key if there is one |
| RuntimePersistence.RuntimePersistenceService.EnsureMinimumRecords | apps/api/api/runtime_persistence/service.py:837-896 | creates the missing run, task and attempt of an event and changes no existing row |
| RuntimePersistence.RuntimePersistenceService.EnsureWorkflowRun | apps/api/api/runtime_persistence/service.py:143-182 | creates the run if it is missing, and otherwise leaves its status and times alone |
| RuntimePersistence.RuntimePersistenceService.EnsureTask | apps/api/api/runtime_persistence/service.py:184-218 | creates the task queued if it is missing, and otherwise leaves its run and status alone |
| RuntimePersistence.RuntimePersistenceService.EnsureAttempt | apps/api/api/runtime_persistence/service.py:220-247 | creates the attempt with the given status, or writes the status into the one there, and leaves its times alone |
| RuntimePersistence.RuntimePersistenceService.ApplyEventSideEffects | apps/api/api/runtime_persistence/service.py:916-990 | the run's status, times and name, then finalisation, then the event's own task and attempt, in that order |
| RuntimePersistence.RuntimePersistenceService.AppendEvent | apps/api/api/runtime_persistence/service.py:249-284 | stored if and only if the key is new and the sequence continues the run; a refused event leaves every table as it was, created rows included |
| RuntimePersistence.RuntimePersistenceService.TransitionWorkflowStatus | apps/api/api/runtime_persistence/service.py:693-719 | writes the status and its times, and finalises on a terminal one; an unknown run is ignored |
| RuntimePersistence.RuntimePersistenceService.TransitionTaskStatus | apps/api/api/runtime_persistence/service.py:761-797 | writes the status into the task and the attempt that are there, with their times on a terminal one; a missing row is not created |
| RuntimePersistence.RuntimePersistenceService.ReconcileTerminalRuns | apps/api/api/runtime_persistence/service.py:721-759 | whatever order runs are visited in, all terminal runs asked for are closed at once, and the five counters count runs and rows |
| RuntimePersistence.RuntimePersistenceService.ClaimTask | apps/api/api/runtime_persistence/service.py:562-615 | refused when the task has an active claim in the run; a repeated attempt gets its old row; otherwise claim, attempt and task rows are written |
| RuntimePersistence.RuntimePersistenceService.HeartbeatClaim | apps/api/api/runtime_persistence/service.py:617-628 | an unknown or inactive claim is refused; otherwise only its heartbeat changes |
| RuntimePersistence.RuntimePersistenceService.ReleaseClaim | apps/api/api/runtime_persistence/service.py:630-638 | a known claim is released whatever its status |
| RuntimePersistence.RuntimePersistenceService.ReclaimStaleClaims | apps/api/api/runtime_persistence/service.py:640-676 | the swept claims of the run, their tasks and attempts become reclaimed, and each claim is returned once; when a lease ends is said in `LeaseTimes.TablesKeepLeases` |
| RuntimePersistence.RuntimePersistenceService.ScanAllStaleClaims | apps/api/api/runtime_persistence/service.py:678-691 | lists each active claim that has run out of lease once |
| Recovery.RecoverStaleClaims | apps/api/api/workflows/recovery.py:42-62 | scans once, then runs one forced session per scanned claim; a result is reported for each session that took something back |
| Recovery.ScannedClaimsReclaimed | apps/api/api/workflows/recovery.py:42-62 | however the clock advances between sessions, every claim the scan finds ends up reclaimed, and a claim not active or still in lease at the last reading is not touched |
| Recovery.ReclaimedByAnyClock | apps/api/api/workflows/recovery.py:42-62 | whatever the clock does between sessions, also backwards, a scanned claim is reclaimed once its own session is over: it is forced |
| Recovery.ResultsNameClaims | apps/api/api/workflows/recovery.py:52-62 | every result names a scanned claim with its task and its run |
| Recovery.RowAfterSessions | apps/api/api/workflows/recovery.py:42-62 | after n sessions the claims taken back are those that were active and that one of the sessions covered: same run, out of lease by its reading |
| Recovery.OwnClaimTakenExactly | apps/api/api/workflows/recovery.py:46-51 | a session takes back the claim it was started for if and only if it is the first session of its run |
| Recovery.OnePerRunExactly | apps/api/api/workflows/recovery.py:45-62 | however the clock advances, the results name each run with a scanned claim, and exactly once if and only if no claim of such a run runs out of lease between two of its sessions |
| Recovery.RunCanBeReportedTwice | apps/api/api/workflows/recovery.py:45-62 | three claims and a clock for which one run is reported twice |
| Recovery.SweepOneRun | apps/api/api/workflows/recovery.py:46-51 | with a fixed clock, one forced session takes back all stale claims of its claim's run, and nothing if that run was swept before |
| Recovery.TakeBackTwice | apps/api/api/runtime_persistence/service.py:640-676 | taking back two disjoint sets of claims in turn equals taking back their union, in all three tables |
| Recovery.RunsRecovered | apps/api/api/workflows/recovery.py:42-62 | with a fixed clock, after n sessions exactly the stale claims of the runs seen so far are back |
| Recovery.RecoveryIsOneSweep | apps/api/api/workflows/recovery.py:42-62 | with a fixed clock, recovery leaves the tables one global sweep would leave, no stale claim remains, and each run that had one is reported exactly once |
| Fifo.WaitingIsLargestExcess | apps/api/api/runtime_persistence/service.py:470-502 | the number left waiting is the largest excess of openings over closings in any suffix |
| Fifo.OpeningsServedInOrder | apps/api/api/runtime_persistence/service.py:470-502 | every opening is served or waiting; the k-th match serves the k-th opening |
| Fifo.MatchesNeverCross | apps/api/api/runtime_persistence/service.py:484-501 | an earlier closing serves an earlier opening |
| Fifo.WaitsAreNotNegative | apps/api/api/runtime_persistence/service.py:484-501 | when time does not run backwards no matched wait is negative |
| Percentiles.SortSorts | apps/api/api/runtime_persistence/service.py:98-98 | sorting gives an ascending permutation |
| Percentiles.AscendingIsUnique | apps/api/api/runtime_persistence/service.py:98-98 | two ascending sequences of the same values are equal |
| Percentiles.RankInRange | apps/api/api/runtime_persistence/service.py:101-102 | the rank lies in 1..n, and for 0 < p <= 100 it is ceil(p * n / 100) unforced |
| Percentiles.PercentileIsNearestRank | apps/api/api/runtime_persistence/service.py:95-102 | for every non-empty list and every p, the result is one of the values, at least rank values are at or below it, and fewer than rank are below it |
| Percentiles.PercentileIgnoresOrder | apps/api/api/runtime_persistence/service.py:95-102 | the result does not depend on the order of the values |
| Percentiles.PercentileMonotone | apps/api/api/runtime_persistence/service.py:109-114 | a larger p never gives a smaller value, so the median is at most the 95th percentile |
| Sla.Enqueue | apps/api/api/runtime_persistence/service.py:470-481 | an opening row appends to its key's queue; every queue still holds what its key waits for |
| Sla.Serve | apps/api/api/runtime_persistence/service.py:483-502 | a closing row pops the oldest of its key, records the duration, and says whether it did |
| Sla.RouteRow | apps/api/api/runtime_persistence/service.py:461-502 | one event row advances the three families of queues and tells the columns it is counted in |
| Sla.ScanRows | apps/api/api/runtime_persistence/service.py:457-502 | the event loop leaves the queues and buckets of all rows; every bucket is aligned and not empty |
| Sla.ScanDeliveries | apps/api/api/runtime_persistence/service.py:504-514 | each delivery is counted in its bucket, and failed when its status is not "sent" whatever the case; buckets stay aligned and not empty |
| Sla.PointsOf | apps/api/api/runtime_persistence/service.py:518-520 | the points are the bucket rows in strictly ascending order, none left out |
| Sla.RuntimeSlaSnapshot | apps/api/api/runtime_persistence/service.py:340-544 | of the rows and deliveries of the window, each of the three waits reports how many were served, and, unless none was, a median and a 95th percentile: a duration with at least that share of the durations at or below it and less below it, the median not above the other; delivered plus failed equals total, and the points are the trend; with a clock ninety days past the epoch each point counts exactly the times in its bucket |
| Sla.SnapshotOf | apps/api/api/runtime_persistence/service.py:438-544 | the same of given rows and deliveries; its points ascend, start at multiples of the width, are not empty, and leave no count out |
| Sla.StatsShowValues | apps/api/api/runtime_persistence/service.py:105-115 | of any durations: their number, their median and their 95th percentile, the two absent exactly when there are no durations |
| SlaReports.MedianIsNotTheTail | apps/api/api/runtime_persistence/service.py:109-114 | of 10 and 100 seconds, the median is 10 and the 95th percentile 100 |
| SlaReports.SignalsAreRows | apps/api/api/runtime_persistence/service.py:461-502 | a wait of a task is opened by its rows of type workflow.retrying, task.failed or approval.requested, and ended by its rows of type task.claimed, or approval.resolved for the last: all of them, in order, at their times |
| SlaReports.TypeColumnsCountRows | apps/api/api/runtime_persistence/service.py:470-496 | the columns for retrying and for resolved approvals count the rows of those types that are about a task, at their times |
| SlaReports.WaitColumnsCountWaits | apps/api/api/runtime_persistence/service.py:467-493 | the event column counts every row, the recovered columns the served waits when they ended |
| SlaReports.FailedColumnCounts | apps/api/api/runtime_persistence/service.py:504-513 | the failed column counts the deliveries whose status is not sent, however it is spelled |
| SlaReports.DeliveryColumnsCount | apps/api/api/runtime_persistence/service.py:504-508 | the notifications column counts every delivery, and no other column any |
| SlaReports.PointFieldsCount | apps/api/api/runtime_persistence/service.py:438-520 | each of the seven fields of a point is the number of times of its own column in its bucket |
| SlaReports.WindowRows | apps/api/api/runtime_persistence/service.py:395-406 | the rows of the window keep their order, and none is left out |
| SlaReports.WindowDeliveries | apps/api/api/runtime_persistence/service.py:421-428 | and so do the deliveries |
| Sla.Cutoff | apps/api/api/runtime_persistence/service.py:348-351 | the window reaches back as many hours as asked for, between an hour and ninety days |
| Sla.RowsSince | apps/api/api/runtime_persistence/service.py:395-406 | the rows of the window are the rows not before the cutoff |
| Sla.DeliveriesSince | apps/api/api/runtime_persistence/service.py:421-428 | the deliveries of the window are those not before the cutoff |
| Sla.PointsContainTheirTimes | apps/api/api/runtime_persistence/service.py:432-436 | from the epoch on, each cell is the number of counted times that lie in its bucket, and each counted time lies in the bucket of a point |
| Sla.BucketWidth | apps/api/api/runtime_persistence/service.py:349-349 | the width is the minutes asked for, in seconds, between five minutes and a day |
| Sla.ServedAreMatches | apps/api/api/runtime_persistence/service.py:457-502 | for every (run, task) key, the waits reported are exactly the first-in-first-out matches of the key's events, with their times |
| Sla.WaitsConserved | apps/api/api/runtime_persistence/service.py:457-502 | for every key, served plus waiting equals openings, and waiting is the largest suffix excess |
| Sla.DurationsNotNegative | apps/api/api/runtime_persistence/service.py:484-501 | when a key's rows do not go back in time, none of its durations is negative |
| Sla.BucketContainsExactly | apps/api/api/runtime_persistence/service.py:432-436 | a bucket start is a multiple of the width, and the bucket contains the time if and only if the time is not one before the epoch that truncation moves up onto a bucket start |
| Sla.BucketIsWhereItBelongs | apps/api/api/runtime_persistence/service.py:432-436 | from the epoch on, a time is put into the one aligned bucket that contains it |
| Sla.TrendStep | apps/api/api/runtime_persistence/service.py:440-468 | bumping the row of a time's bucket counts that time in those columns and in no other bucket |
| Sla.TrendConserves | apps/api/api/runtime_persistence/service.py:438-520 | summed over the points, each of the seven columns equals the number of rows or deliveries it counts |
| Sla.TrendSumsAreTotals | apps/api/api/runtime_persistence/service.py:510-544 | the sums of events, recovered retries, recovered failures, notifications and failed notifications are the reported totals |
| ContextBuilder.Deduplicate | apps/api/api/context/service.py:288-294 | the loop keeps, in order, the first entry of each distinct non-empty normalised body |
| ContextBuilder.RankEntries | apps/api/api/context/service.py:287-296 | the entries returned are a top ranking: first occurrences, each outranking the next, min(limit, distinct) of them, and every distinct entry left out outranked by all kept |
| ContextBuilder.RankedIsTopRanking | apps/api/api/context/service.py:287-296 | the ranked entries come from first occurrences, each outranks the next (score, then input order), there are min(limit, distinct) of them, and every distinct entry left out is outranked by all kept |
| ContextBuilder.EntriesToBlocks | apps/api/api/context/service.py:299-316 | each block shows the first 280 characters of its entry and is flagged exactly when that is not all of it |
| ContextBuilder.TotalChars | apps/api/api/context/service.py:321-321 | the sum of the body lengths is the length of the concatenated text |
| ContextBuilder.ApplyTokenBudget | apps/api/api/context/service.py:319-345 | returns the blocks unchanged when they fit, otherwise cut to the character budget |
| ContextBuilder.BudgetIsTextPrefix | apps/api/api/context/service.py:319-345 | the text after the cut is the first min(total, 4 * budget) characters of the text before it |
| ContextBuilder.BudgetIdempotentMonotone | apps/api/api/context/service.py:319-345 | cutting twice is cutting once; a larger budget extends the text of a smaller one |
| ContextBuilder.CutBlocksAreCuts | apps/api/api/context/service.py:326-344 | each block after the cut is the block before it, or a strict prefix of it flagged as truncated |
| ContextBuilder.ShowsSurvivesCut | apps/api/api/context/service.py:319-345 | blocks that show their entries truthfully still do after the cut |
| ContextBuilder.CollectEntries | apps/api/api/context/service.py:185-261 | the builder loops give one entry per record and extend the shared evidence list by all records' evidence |
| ContextSources.EntryCarriesRecord | apps/api/api/context/service.py:185-261 | an entry carries text, evidence and relevance of its record under the source of its kind; a constraint counts 0.75 |
| ContextSources.EvidenceInOrder | apps/api/api/context/service.py:185-261 | the evidence of some records is that of each, in their order |
| ContextSources.AllEvidenceInOrder | apps/api/api/context/service.py:119-155 | the bundle's evidence is that of the assembly, the task, the facts, the constraints, the attempts and the memories, in this order |
| ContextBuilder.BuildFromRecords | apps/api/api/context/service.py:119-155 | the bundle is the ranked blocks of the four levels cut to the budget; a block is flagged exactly when it shows less than its source entry; the text fits the budget; all evidence is listed whether or not its entry was kept |
| ContextSources.BlockShowsEntry | apps/api/api/context/service.py:299-316 | a block shows the first 280 characters of its entry and is flagged exactly when there are more |
| ContextSources.BundleByLevel | apps/api/api/context/service.py:119-155 | the blocks of a bundle come level by level, under the title of their level, also after the cut |
| ContextSources.MoreRelevantIsKept | apps/api/api/context/service.py:287-296 | of two facts with a text of their own, the more relevant one is kept when the other is |
| ContextSources.TitleComesFirst | apps/api/api/context/service.py:157-175 | a task's title comes before its description when two blocks are allowed and the texts differ |
| ContextSources.CoreWithoutTask | apps/api/api/context/service.py:176-183 | without a task the core is the workflow's summary, or a line that says there is none |
| ContextSources.SummaryAmongFacts | apps/api/api/context/service.py:119-135 | the second level ranks the facts, the workflow's summary, counted 0.8, and the constraints |
| ContextSources.SpaceAndCapitalsDoNotCount | apps/api/api/context/service.py:287-294 | two entries are the same when their texts differ only in the space around them and in capitals |
| MemoryWrites.DecidesExactly | apps/api/api/memory/governance.py:39-75 | the exact conditions of the four decisions in terms of the threshold, the force flag, the row that is there and what the candidate supersedes |
| MemoryWrites.ThresholdIsFirst | apps/api/api/memory/governance.py:33-37 | the threshold is that of the first key the namespace contains, or the global one: quality 0.65, both ways of changing a row allowed |
| MemoryWrites.WriteShowsCandidate | apps/api/api/memory/service.py:205-504 | an accept leaves the candidate as a row of version 1, a supersede the candidate over the old row with one more version and its recalls kept, a merge the old row with quality, score and summary of a better candidate and one recall more, a decline nothing |
| MemoryWrites.FiledUnder | apps/api/api/memory/service.py:64-68 | a lesson about project p without an iteration is filed under p:global:lesson |
| MemoryWrites.ArmsAgreeExactly | apps/api/api/memory/service.py:362-476 | the upsert arm and the fallback arm compute the same row if and only if the row was versioned and the candidate does not supersede the empty id over another |
| MemoryWrites.ThresholdsDifferExactly | apps/api/api/memory/governance.py:33-49 | under the default policy a candidate is judged by another threshold than that of the namespace it is filed under if and only if it brings no namespace |
| MemoryWrites.NamespaceDecides | apps/api/api/memory/governance.py:45-60 | long-term knowledge of quality 0.67 is accepted without a namespace and declined with the one it would be filed under |
| MemoryWrites.MemoryGovernanceService.constructor | apps/api/api/memory/governance.py:27-31 | an empty table under the given thresholds, or the default ones when none are given |
| MemoryWrites.MemoryGovernanceService.Find | apps/api/api/memory/service.py:81-93 | finds the row filed under a key if there is one |
| MemoryWrites.MemoryGovernanceService.HandleAccept | apps/api/api/memory/service.py:205-238 | the key, which had no row, has exactly one, of version 1 |
| MemoryWrites.MemoryGovernanceService.HandleSupersede | apps/api/api/memory/service.py:300-476 | overwrites the key's row by the arm the database supports, or inserts one |
| MemoryWrites.MemoryGovernanceService.HandleMerge | apps/api/api/memory/service.py:478-504 | keeps the better of row and candidate, counting only an improvement as a recall |
| MemoryWrites.MemoryGovernanceService.Write | apps/api/api/memory/service.py:118-152 | the table becomes the one the policy's decision prescribes, by either arm; nothing is stored exactly when the policy declines; every key's row still shows the life of that key |
| MemoryWrites.RowsChangeOnlyOwnKey | apps/api/api/memory/service.py:205-504 | a write changes or adds the row of its own key only, and no row ever changes its key or id |
| MemoryWrites.RowsStayConsistent | apps/api/api/memory/service.py:205-504 | a write keeps one row per (project, namespace, content hash), each under its own id, versioned, with score equal to quality |
| MemoryWrites.RowsShowLives | apps/api/api/memory/service.py:118-504 | one write keeps every key's row what its life says: version 1 plus the supersedes it took, its first id, the quality of its life |
| MemoryWrites.TablesShowLives | apps/api/api/memory/service.py:118-504 | over any writes from an empty table there is one row per key, and every key's row is what its life says |
| MemoryWrites.IdNeverChanges | apps/api/api/memory/service.py:118-504 | once a key has its row, no later writes change its id or lower its number of supersedes |
| MemoryWrites.QualityIsMaximum | apps/api/api/memory/service.py:478-504 | a row's quality is the maximum over its last accept or supersede and the merges since |
| CodexSession.CodexAppServerSession.constructor | apps/api/api/executors/transports.py:148-154 | a new session is not open and has an empty history |
| CodexSession.CodexAppServerSession.Open | apps/api/api/executors/transports.py:156-178 | opening starts the reader and makes the initialize request, under an id never used before |
| CodexSession.CodexAppServerSession.Close | apps/api/api/executors/transports.py:180-193 | closing stops the reader and drops the transport, and what is pending stays pending; it raises exactly when the reader has failed, and then changes nothing |
| CodexSession.CodexAppServerSession.MakeRequest | apps/api/api/executors/transports.py:195-210 | refused without effect on a session that is not open; otherwise the drawn id was never used before, is the number of the request in the history, and becomes pending |
| CodexSession.CodexAppServerSession.ReceiveMessage | apps/api/api/executors/transports.py:217-232 | a pending id is answered and leaves the table, an unknown or repeated id changes nothing, an id that is no number ends the reader, a message without an id joins the queue |
| CodexSession.CodexAppServerSession.FailToReceive | apps/api/api/executors/transports.py:217-220 | when receiving raises, the reader ends with that error and the session stays open |
| CodexSession.CodexAppServerSession.NextNotification | apps/api/api/executors/transports.py:212-215 | takes the oldest queued notification; taken followed by queued are the notifications received, in order |
| CodexSession.StepExtends | apps/api/api/executors/transports.py:195-232 | a step answers the waiting request whose id it carries and leaves every other request as it was |
| CodexSession.RequestedOnce | apps/api/api/executors/transports.py:198-201 | an id belongs to one request of the history |
| CodexSession.AnswerIsFirstReply | apps/api/api/executors/transports.py:221-231 | in every history a request's answer is that of the first message with its id received after it was made: its error, if it has one, and otherwise its result; and an answered request is not waiting |
| CodexSession.StaysUnansweredExactly | apps/api/api/executors/transports.py:180-232 | an unanswered request stays so in every continuation without a new opening if and only if the reader does not run: the session was closed, or receiving failed or an id was no number, also before the request |
| CodexSession.RequestCanWaitForever | apps/api/api/executors/transports.py:195-232 | a session whose reader a bad id has ended still takes a request, which nothing that follows answers |
| CodexSession.CannotBeClosedExactly | apps/api/api/executors/transports.py:180-193 | an open session stays open in every continuation without a new opening if and only if its reader has failed |

## Left out

- Malformed payloads: events arrive decoded. A snapshot that cannot be validated and an unreadable worker report raise;
  the text that table rows make of values that are not strings, and a list of active workflows that is no list, are not
  modelled.
- Status names: a target that is no status raises in the source; here a target is a status.
- Copies: the read methods of the store return values, so the deep copies that prevent aliasing are not modelled.
- Text: `strip` and `lower` follow Python on ASCII only; Unicode spaces and case folding are not modelled.
- Database constraints: foreign keys and the unique event id column are not modelled; fresh identifiers are assumed not
  to be in use.
- Concurrent sessions: each session commits atomically after the one before it; the evaluation and the write of one
  memory candidate are one step.
- Clock: each session reads its clock once, while the source may read it for each row; recovery reads it anew for each
  of its sessions.
- TimelineProjector: the timeline recomputed from the event table is not modelled.
- Status machines: the workflow and task transition tables are not modelled; the claim table is, as the specification
  of claim histories.
- Other service methods: graph checkpoints are not modelled, nor are the columns that no read model here uses
  (metadata, executor, project and iteration, the dependencies that `ensure_task` stores).
- Recovery: the decision and the detail text of a recovery result are constants and are not modelled.
- Sla.RuntimeSlaSnapshot: project and iteration scoping, the run count, the list of channels and the averages are not
  modelled; it is about the rows and deliveries of the queries, from the window on.
- Floating point: durations, scores and qualities are exact numbers; `avg_seconds` and the rounding inside
  `p / 100 * n` are not modelled.
- Percentiles.PercentileIsNearestRank: is about exact p and exact values, because the rank of the source is computed in
  floating point.
- Context: the older `build` entry point, which slices plain strings, is not modelled.
- Memory: the in-memory record store, recall and its ranking, and the remote stores are not modelled; what a remote
  store answers is an input, and the error note a failed remote write adds to the metadata is not kept.
- Codex session: cancellation of a request, a failing send, the transports themselves, an opening that fails or waits
  for the answer to its initialize request, and a second opening while the reader runs are not modelled;
  `NextNotification` describes the moment a waiting consumer gets a message.
