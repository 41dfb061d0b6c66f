/** The SLA snapshot in terms of its rows: which rows open and end a wait, and what each column counts. */
module SlaReports {
  import opened Common
  import opened RuntimeContracts
  import opened Fifo
  import opened Percentiles
  import opened Sorting
  import opened Sla

  // ----- what opens and ends a wait -----

  /** The wire value of the rows that open a wait. */
  function Opener(kind: Kind): string {
    match kind
    case Retry => "workflow.retrying"
    case Failure => "task.failed"
    case Approval => "approval.requested"
  }

  /** ... and of those that end one. */
  function Closer(kind: Kind): string {
    match kind
    case Retry => "task.claimed"
    case Failure => "task.claimed"
    case Approval => "approval.resolved"
  }

  /** The row is about a task of the key, and opens or ends a wait. */
  predicate IsAbout(r: Row, key: Key, kind: Kind) {
    && r.runId == key.runId && Truthy(r.taskId) && r.taskId.value == key.taskId
    && (EventTypeValue(r.eventType) == Opener(kind) || EventTypeValue(r.eventType) == Closer(kind))
  }

  /** The signal of a row: an opening or an end, at its time. */
  predicate IsSignal(s: Signal, r: Row, kind: Kind) {
    s.at == r.at && (s.Open? <==> EventTypeValue(r.eventType) == Opener(kind))
  }

  lemma WaitTypes(t: EventType)
    ensures EventTypeValue(t) == "workflow.retrying" <==> t.WorkflowRetrying?
    ensures EventTypeValue(t) == "task.failed" <==> t.TaskFailed?
    ensures EventTypeValue(t) == "task.claimed" <==> t.TaskClaimed?
    ensures EventTypeValue(t) == "approval.requested" <==> t.ApprovalRequested?
    ensures EventTypeValue(t) == "approval.resolved" <==> t.ApprovalResolved?
  {
    var v := EventTypeValue(t);
    assert |v| > 9;
    assert v[0] == 'w' ==> v[1] == 'o';
  }

  function About(key: Key, kind: Kind): Row -> bool {
    (r: Row) => IsAbout(r, key, kind)
  }

  function SignalOf(kind: Kind): (Signal, Row) -> bool {
    (s: Signal, r: Row) => IsSignal(s, r, kind)
  }

  lemma SignalStep(rows: seq<Row>, r: Row, key: Key, kind: Kind)
    ensures Extends(r, About(key, kind), SignalsFor(rows, key, kind), SignalsFor(rows + [r], key, kind), SignalOf(kind))
  {
    WaitTypes(r.eventType);
    assert (rows + [r])[..|rows|] == rows;
  }

  /** The signals of a key are its rows that open or end a wait, in order, none left out. */
  lemma {:induction false} SignalsAreRows(rows: seq<Row>, key: Key, kind: Kind) returns (at: seq<nat>)
    ensures Extracts(rows, About(key, kind), SignalsFor(rows, key, kind), SignalOf(kind), at)
  {
    at := [];
    if rows != [] {
      var init, r := rows[..|rows| - 1], rows[|rows| - 1];
      at := SignalsAreRows(init, key, kind);
      assert init + [r] == rows;
      SignalStep(init, r, key, kind);
      at := ExtractsOneMore(init, r, About(key, kind), SignalsFor(init, key, kind), SignalsFor(rows, key, kind),
                            SignalOf(kind), at);
    }
  }

  // ----- what the columns count -----

  /** The column that counts rows of a type: those for retrying and for resolved approvals. */
  function TypeOf(c: Column): string
    requires c.Retried? || c.Resolved?
  {
    if c.Retried? then "workflow.retrying" else "approval.resolved"
  }

  /** A row of a task with this wire value. */
  function InTask(wire: string): Row -> bool {
    (r: Row) => Truthy(r.taskId) && EventTypeValue(r.eventType) == wire
  }

  function TimeOfRow(): (int, Row) -> bool {
    (t: int, r: Row) => t == r.at
  }

  lemma TypeColumnStep(rows: seq<Row>, r: Row, c: Column)
    requires c.Retried? || c.Resolved?
    ensures Extends(r, InTask(TypeOf(c)), RowTimes(rows, c), RowTimes(rows + [r], c), TimeOfRow())
  {
    WaitTypes(r.eventType);
    assert (rows + [r])[..|rows|] == rows;
  }

  /** Such a column counts the rows of that type that are about a task, at their times. */
  lemma {:induction false} TypeColumnsCountRows(rows: seq<Row>, c: Column) returns (at: seq<nat>)
    requires c.Retried? || c.Resolved?
    ensures Extracts(rows, InTask(TypeOf(c)), RowTimes(rows, c), TimeOfRow(), at)
  {
    at := [];
    if rows != [] {
      var init, r := rows[..|rows| - 1], rows[|rows| - 1];
      at := TypeColumnsCountRows(init, c);
      assert init + [r] == rows;
      TypeColumnStep(init, r, c);
      at := ExtractsOneMore(init, r, InTask(TypeOf(c)), RowTimes(init, c), RowTimes(rows, c), TimeOfRow(), at);
    }
  }

  /** The events column counts every row, and the recovered columns the waits that were served, when they ended. */
  lemma {:induction false} WaitColumnsCountWaits(rows: seq<Row>)
    ensures |RowTimes(rows, Events)| == |rows|
    ensures forall i :: 0 <= i < |rows| ==> RowTimes(rows, Events)[i] == rows[i].at
    ensures EndsOf(ServedIn(rows, Retry)) == RowTimes(rows, RetryRecovered)
    ensures EndsOf(ServedIn(rows, Failure)) == RowTimes(rows, FailureRecovered)
    ensures RowTimes(rows, Notifications) == [] && RowTimes(rows, NotificationsFailed) == []
  {
    if rows != [] { WaitColumnsCountWaits(rows[..|rows| - 1]); }
  }

  function EndsOf(served: seq<Served>): seq<int> {
    seq(|served|, i requires 0 <= i < |served| => served[i].at)
  }

  /** A delivery that was not sent, however that is spelled. */
  function NotSent(): Delivery -> bool {
    (d: Delivery) => Lower(d.status) != "sent"
  }

  function TimeOfDelivery(): (int, Delivery) -> bool {
    (t: int, d: Delivery) => t == d.sentAt
  }

  lemma FailedStep(deliveries: seq<Delivery>, d: Delivery)
    ensures Extends(d, NotSent(), DeliveryTimes(deliveries, NotificationsFailed),
                    DeliveryTimes(deliveries + [d], NotificationsFailed), TimeOfDelivery())
  {
    assert (deliveries + [d])[..|deliveries|] == deliveries;
  }

  /** The failed column counts the deliveries that were not sent, at their times. */
  lemma {:induction false} FailedColumnCounts(deliveries: seq<Delivery>) returns (at: seq<nat>)
    ensures Extracts(deliveries, NotSent(), DeliveryTimes(deliveries, NotificationsFailed), TimeOfDelivery(), at)
  {
    at := [];
    if deliveries != [] {
      var init, d := deliveries[..|deliveries| - 1], deliveries[|deliveries| - 1];
      at := FailedColumnCounts(init);
      assert init + [d] == deliveries;
      FailedStep(init, d);
      at := ExtractsOneMore(init, d, NotSent(), DeliveryTimes(init, NotificationsFailed),
                            DeliveryTimes(deliveries, NotificationsFailed), TimeOfDelivery(), at);
    }
  }

  /** The notifications column counts every delivery, and the columns for events count none. */
  lemma {:induction false} DeliveryColumnsCount(deliveries: seq<Delivery>)
    ensures |DeliveryTimes(deliveries, Notifications)| == |deliveries|
    ensures forall i :: 0 <= i < |deliveries| ==> DeliveryTimes(deliveries, Notifications)[i] == deliveries[i].sentAt
    ensures forall c: Column :: !c.Notifications? && !c.NotificationsFailed? ==> DeliveryTimes(deliveries, c) == []
  {
    if deliveries != [] { DeliveryColumnsCount(deliveries[..|deliveries| - 1]); }
  }

  // ----- the window -----

  function RowFrom(cutoff: int): Row -> bool {
    (r: Row) => r.at >= cutoff
  }

  function DeliveryFrom(cutoff: int): Delivery -> bool {
    (d: Delivery) => d.sentAt >= cutoff
  }

  function Same<T(==)>(): (T, T) -> bool {
    (a: T, b: T) => a == b
  }

  /** The rows of the window are those not before the cutoff, in their order, none left out. */
  lemma {:induction false} WindowRows(table: seq<Row>, cutoff: int) returns (at: seq<nat>)
    ensures Extracts(table, RowFrom(cutoff), RowsSince(table, cutoff), Same(), at)
  {
    at := [];
    if table != [] {
      var init, r := table[..|table| - 1], table[|table| - 1];
      at := WindowRows(init, cutoff);
      assert init + [r] == table;
      at := ExtractsOneMore(init, r, RowFrom(cutoff), RowsSince(init, cutoff), RowsSince(table, cutoff), Same(), at);
    }
  }

  /** ... and so are the deliveries. */
  lemma {:induction false} WindowDeliveries(table: seq<Delivery>, cutoff: int) returns (at: seq<nat>)
    ensures Extracts(table, DeliveryFrom(cutoff), DeliveriesSince(table, cutoff), Same(), at)
  {
    at := [];
    if table != [] {
      var init, d := table[..|table| - 1], table[|table| - 1];
      at := WindowDeliveries(init, cutoff);
      assert init + [d] == table;
      at := ExtractsOneMore(init, d, DeliveryFrom(cutoff), DeliveriesSince(init, cutoff),
                            DeliveriesSince(table, cutoff), Same(), at);
    }
  }

  // ----- the points -----

  /** Each field of a point is the number of times of its own column that fall into its bucket. */
  lemma PointFieldsCount(points: seq<Point>, rows: seq<Row>, deliveries: seq<Delivery>, width: nat, i: nat)
    requires width > 0 && IsTrend(points, rows, deliveries, width) && i < |points|
    ensures var p, b := points[i].row, points[i].start;
            && p.events == InBucket(Times(rows, deliveries, Events), width, b)
            && p.retrying == InBucket(Times(rows, deliveries, Retried), width, b)
            && p.resolved == InBucket(Times(rows, deliveries, Resolved), width, b)
            && p.retryRecovered == InBucket(Times(rows, deliveries, RetryRecovered), width, b)
            && p.failureRecovered == InBucket(Times(rows, deliveries, FailureRecovered), width, b)
            && p.notifications == InBucket(Times(rows, deliveries, Notifications), width, b)
            && p.notificationsFailed == InBucket(Times(rows, deliveries, NotificationsFailed), width, b)
  {
    assert forall c: Column :: Cell(points[i].row, c) == InBucket(Times(rows, deliveries, c), width, points[i].start);
    forall c: Column ensures Cell(points[i].row, c) == match c
        case Events => points[i].row.events
        case Retried => points[i].row.retrying
        case Resolved => points[i].row.resolved
        case RetryRecovered => points[i].row.retryRecovered
        case FailureRecovered => points[i].row.failureRecovered
        case Notifications => points[i].row.notifications
        case NotificationsFailed => points[i].row.notificationsFailed
    {}
  }

  /** Two retries recovered after 10 and 100 seconds: the median is 10 seconds, the 95th percentile 100. */
  lemma MedianIsNotTheTail(s: Stats)
    requires StatsShow(s, [10_000_000, 100_000_000])
    ensures s == Stats(2, Some(10_000_000), Some(100_000_000))
  {
    var values := [10_000_000, 100_000_000];
    assert values[1..] == [100_000_000] && values[1..][1..] == [];
    assert AtMost(values, 10_000_000) == 1 && AtMost(values, 100_000_000) == 2;
    assert AtMost(values, 99_999_999) == 1;
    assert forall v :: v in multiset(values) ==> v == 10_000_000 || v == 100_000_000;
  }
}
