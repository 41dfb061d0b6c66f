/** The SLA snapshot: how long retries, failures and approvals wait, and a trend of what happened when.
    Times are integer microseconds since the epoch. */
module Sla {
  import opened Common
  import opened RuntimeContracts
  import opened Fifo
  import opened Percentiles

  datatype Row = Row(runId: string, taskId: Option<string>, eventType: EventType, at: int)
  datatype Delivery = Delivery(sentAt: int, status: string)
  datatype Key = Key(runId: string, taskId: string)

  /** The three waits that are measured. */
  datatype Kind = Retry | Failure | Approval

  predicate Opens(kind: Kind, t: EventType) {
    match kind
    case Retry => t.WorkflowRetrying?
    case Failure => t.TaskFailed?
    case Approval => t.ApprovalRequested?
  }

  predicate Closes(kind: Kind, t: EventType) {
    match kind
    case Retry => t.TaskClaimed?
    case Failure => t.TaskClaimed?
    case Approval => t.ApprovalResolved?
  }

  function TaskOf(r: Row): string {
    if r.taskId.Some? then r.taskId.value else ""
  }

  function KeyOf(r: Row): Key {
    Key(r.runId, TaskOf(r))
  }

  // ----- the specification: what each key waits for, and what is counted when -----

  /** What the rows mean for one wait of one key; rows without a task mean nothing. */
  function SignalsFor(rows: seq<Row>, key: Key, kind: Kind): seq<Signal> {
    if rows == [] then []
    else
      var r := rows[|rows| - 1];
      var earlier := SignalsFor(rows[..|rows| - 1], key, kind);
      if TaskOf(r) == "" || KeyOf(r) != key then earlier
      else if Opens(kind, r.eventType) then earlier + [Open(r.at)]
      else if Closes(kind, r.eventType) then earlier + [Close(r.at)]
      else earlier
  }

  function WaitingTimes(s: seq<Signal>): seq<int> {
    var w := Waiting(s);
    seq(|w|, i requires 0 <= i < |w| => s[w[i]].at)
  }

  /** The last row ends a wait of its key. */
  predicate Serves(rows: seq<Row>, kind: Kind)
    requires rows != []
  {
    var r := rows[|rows| - 1];
    TaskOf(r) != "" && Closes(kind, r.eventType) && WaitingTimes(SignalsFor(rows[..|rows| - 1], KeyOf(r), kind)) != []
  }

  datatype Served = Served(key: Key, since: int, at: int)

  /** The waits that ended, in the order they ended. */
  function ServedIn(rows: seq<Row>, kind: Kind): seq<Served> {
    if rows == [] then []
    else
      var r := rows[|rows| - 1];
      var earlier := ServedIn(rows[..|rows| - 1], kind);
      if Serves(rows, kind)
      then earlier + [Served(KeyOf(r), WaitingTimes(SignalsFor(rows[..|rows| - 1], KeyOf(r), kind))[0], r.at)]
      else earlier
  }

  function Durations(served: seq<Served>): seq<int> {
    seq(|served|, i requires 0 <= i < |served| => served[i].at - served[i].since)
  }

  function ForKey(served: seq<Served>, key: Key): seq<Served> {
    if served == [] then []
    else
      var earlier := ForKey(served[..|served| - 1], key);
      if served[|served| - 1].key == key then earlier + [served[|served| - 1]] else earlier
  }

  /** The served waits are the first-in-first-out matches of the signals. */
  ghost predicate AreMatches(served: seq<Served>, key: Key, s: seq<Signal>) {
    var m := Matches(s);
    && |served| == |m|
    && forall k :: 0 <= k < |m| ==>
         m[k].opening < |s| && m[k].closing < |s| && served[k] == Served(key, s[m[k].opening].at, s[m[k].closing].at)
  }

  /** One more signal: a closing with something waiting adds a match, anything else adds none. */
  lemma MatchesSnoc(served: seq<Served>, key: Key, s: seq<Signal>, x: Signal)
    requires AreMatches(served, key, s)
    ensures if x.Close? && WaitingTimes(s) != []
            then AreMatches(served + [Served(key, WaitingTimes(s)[0], x.at)], key, s + [x])
            else AreMatches(served, key, s + [x])
  {
    assert (s + [x])[..|s|] == s;
  }

  /** The waits reported for a key are exactly the first-in-first-out matches of its signals. */
  lemma {:induction false} ServedAreMatches(rows: seq<Row>, key: Key, kind: Kind)
    ensures AreMatches(ForKey(ServedIn(rows, kind), key), key, SignalsFor(rows, key, kind))
  {
    if rows != [] {
      var init, r := rows[..|rows| - 1], rows[|rows| - 1];
      ServedAreMatches(init, key, kind);
      var s, served := SignalsFor(init, key, kind), ServedIn(init, kind);
      if Serves(rows, kind) {
        ForKeySnoc(served, Served(KeyOf(r), WaitingTimes(SignalsFor(init, KeyOf(r), kind))[0], r.at), key);
      }
      if TaskOf(r) != "" && KeyOf(r) == key {
        if Opens(kind, r.eventType) {
          MatchesSnoc(ForKey(served, key), key, s, Open(r.at));
        } else if Closes(kind, r.eventType) {
          MatchesSnoc(ForKey(served, key), key, s, Close(r.at));
        }
      }
    }
  }

  lemma ForKeySnoc(served: seq<Served>, last: Served, key: Key)
    ensures ForKey(served + [last], key) ==
            if last.key == key then ForKey(served, key) + [last] else ForKey(served, key)
  {
    assert (served + [last])[..|served|] == served;
  }

  /** For every run and task: openings are either served or still waiting, and the number still waiting is the
      largest excess of openings over closings in any suffix of the key's signals. */
  lemma WaitsConserved(rows: seq<Row>, key: Key, kind: Kind)
    ensures var s := SignalsFor(rows, key, kind);
            && |ForKey(ServedIn(rows, kind), key)| + |Waiting(s)| == |Openings(s)|
            && (forall i :: 0 <= i <= |s| ==> Excess(s[i..]) <= |Waiting(s)|)
            && (exists i :: 0 <= i <= |s| && Excess(s[i..]) == |Waiting(s)|)
  {
    ServedAreMatches(rows, key, kind);
    OpeningsServedInOrder(SignalsFor(rows, key, kind));
    WaitingIsLargestExcess(SignalsFor(rows, key, kind));
  }

  lemma {:induction false} SignalTimes(rows: seq<Row>, key: Key, kind: Kind, bound: int)
    requires forall i, j :: 0 <= i < j < |rows| && KeyOf(rows[i]) == KeyOf(rows[j]) == key ==> rows[i].at <= rows[j].at
    requires forall i :: 0 <= i < |rows| && KeyOf(rows[i]) == key ==> rows[i].at <= bound
    ensures forall i, j :: 0 <= i < j < |SignalsFor(rows, key, kind)| ==>
            SignalsFor(rows, key, kind)[i].at <= SignalsFor(rows, key, kind)[j].at
    ensures forall i :: 0 <= i < |SignalsFor(rows, key, kind)| ==> SignalsFor(rows, key, kind)[i].at <= bound
  {
    if rows != [] {
      var n := |rows| - 1;
      SignalTimes(rows[..n], key, kind, if KeyOf(rows[n]) == key then rows[n].at else bound);
    }
  }

  /** A time no row is later than. */
  function LatestTime(rows: seq<Row>): (bound: int)
    ensures forall i :: 0 <= i < |rows| ==> rows[i].at <= bound
  {
    if rows == [] then 0
    else
      var earlier := LatestTime(rows[..|rows| - 1]);
      if rows[|rows| - 1].at > earlier then rows[|rows| - 1].at else earlier
  }

  /** When the rows of a key do not go back in time, none of its reported durations is negative. */
  lemma DurationsNotNegative(rows: seq<Row>, key: Key, kind: Kind, k: nat)
    requires forall i, j :: 0 <= i < j < |rows| && KeyOf(rows[i]) == KeyOf(rows[j]) == key ==> rows[i].at <= rows[j].at
    requires k < |ForKey(ServedIn(rows, kind), key)|
    ensures Durations(ForKey(ServedIn(rows, kind), key))[k] >= 0
  {
    SignalTimes(rows, key, kind, LatestTime(rows));
    ServedAreMatches(rows, key, kind);
    WaitsAreNotNegative(SignalsFor(rows, key, kind), k);
  }

  // ----- the queues as they run -----

  datatype Queues = Queues(pending: map<Key, seq<int>>, durations: seq<int>)

  ghost predicate QueuesMatch(q: Queues, rows: seq<Row>, kind: Kind) {
    && PendingMatch(q.pending, rows, kind)
    && q.durations == Durations(ServedIn(rows, kind))
  }

  lemma WaitingOpened(s: seq<Signal>, at: int)
    ensures WaitingTimes(s + [Open(at)]) == WaitingTimes(s) + [at]
  {
    assert (s + [Open(at)])[..|s|] == s;
  }

  lemma WaitingClosed(s: seq<Signal>, at: int)
    ensures WaitingTimes(s + [Close(at)]) == if WaitingTimes(s) == [] then [] else WaitingTimes(s)[1..]
  {
    assert (s + [Close(at)])[..|s|] == s;
  }

  /** A row that is not about this wait leaves its queues alone. */
  lemma QueuesIgnore(q: Queues, rows: seq<Row>, r: Row, kind: Kind)
    requires QueuesMatch(q, rows, kind)
    requires TaskOf(r) == "" || (!Opens(kind, r.eventType) && !Closes(kind, r.eventType))
    ensures QueuesMatch(q, rows + [r], kind) && !Serves(rows + [r], kind)
  {
    assert (rows + [r])[..|rows|] == rows;
  }

  method Enqueue(q: Queues, r: Row, kind: Kind, ghost rows: seq<Row>) returns (updated: Queues)
    requires QueuesMatch(q, rows, kind) && TaskOf(r) != "" && Opens(kind, r.eventType)
    ensures QueuesMatch(updated, rows + [r], kind) && !Serves(rows + [r], kind)
  {
    assert (rows + [r])[..|rows|] == rows;
    WaitingOpened(SignalsFor(rows, KeyOf(r), kind), r.at);
    updated := q.(pending := q.pending[KeyOf(r) := GetOr(q.pending, KeyOf(r), []) + [r.at]]);
  }

  method Serve(q: Queues, r: Row, kind: Kind, ghost rows: seq<Row>) returns (updated: Queues, served: bool)
    requires QueuesMatch(q, rows, kind) && TaskOf(r) != "" && Closes(kind, r.eventType)
    ensures QueuesMatch(updated, rows + [r], kind) && served == Serves(rows + [r], kind)
  {
    QueuesServe(q, r, kind, rows);
    var waiting := GetOr(q.pending, KeyOf(r), []);
    if waiting == [] {
      return q, false;
    }
    updated := Queues(q.pending[KeyOf(r) := waiting[1..]], q.durations + [r.at - waiting[0]]);
    served := true;
  }

  ghost predicate PendingMatch(pending: map<Key, seq<int>>, rows: seq<Row>, kind: Kind) {
    forall key :: GetOr(pending, key, []) == WaitingTimes(SignalsFor(rows, key, kind))
  }

  lemma PendingServe(pending: map<Key, seq<int>>, r: Row, kind: Kind, rows: seq<Row>)
    requires PendingMatch(pending, rows, kind) && TaskOf(r) != "" && Closes(kind, r.eventType)
    ensures var waiting := GetOr(pending, KeyOf(r), []);
            PendingMatch(if waiting == [] then pending else pending[KeyOf(r) := waiting[1..]], rows + [r], kind)
  {
    var key := KeyOf(r);
    var waiting := GetOr(pending, key, []);
    var after := if waiting == [] then pending else pending[key := waiting[1..]];
    forall k ensures GetOr(after, k, []) == WaitingTimes(SignalsFor(rows + [r], k, kind)) {
      SignalsSnoc(rows, r, kind, k);
      assert GetOr(pending, k, []) == WaitingTimes(SignalsFor(rows, k, kind));
      assert GetOr(after, k, []) == if k == key then (if waiting == [] then [] else waiting[1..])
          else GetOr(pending, k, []);
      if k == key { WaitingClosed(SignalsFor(rows, key, kind), r.at); }
    }
  }

  lemma QueuesServe(q: Queues, r: Row, kind: Kind, rows: seq<Row>)
    requires QueuesMatch(q, rows, kind) && TaskOf(r) != "" && Closes(kind, r.eventType)
    ensures var waiting := GetOr(q.pending, KeyOf(r), []);
            && Serves(rows + [r], kind) == (waiting != [])
            && QueuesMatch(if waiting == [] then q
                           else Queues(q.pending[KeyOf(r) := waiting[1..]], q.durations + [r.at - waiting[0]]),
                               rows + [r], kind)
  {
    PendingServe(q.pending, r, kind, rows);
    ServedSnoc(rows, r, kind);
    assert GetOr(q.pending, KeyOf(r), []) == WaitingTimes(SignalsFor(rows, KeyOf(r), kind));
  }

  lemma SignalsSnoc(rows: seq<Row>, r: Row, kind: Kind, key: Key)
    requires TaskOf(r) != "" && Closes(kind, r.eventType)
    ensures SignalsFor(rows + [r], key, kind) ==
            if key == KeyOf(r) then SignalsFor(rows, key, kind) + [Close(r.at)] else SignalsFor(rows, key, kind)
  {
    assert (rows + [r])[..|rows|] == rows;
  }

  lemma DurationsSnoc(served: seq<Served>, last: Served)
    ensures Durations(served + [last]) == Durations(served) + [last.at - last.since]
  {
  }

  lemma {:induction false} ServedSnoc(rows: seq<Row>, r: Row, kind: Kind)
    requires TaskOf(r) != "" && Closes(kind, r.eventType)
    ensures var waiting := WaitingTimes(SignalsFor(rows, KeyOf(r), kind));
            && Serves(rows + [r], kind) == (waiting != [])
            && Durations(ServedIn(rows + [r], kind)) ==
                 (if waiting == [] then Durations(ServedIn(rows, kind))
                     else Durations(ServedIn(rows, kind)) + [r.at - waiting[0]])
  {
    assert (rows + [r])[..|rows|] == rows;
    var waiting := WaitingTimes(SignalsFor(rows, KeyOf(r), kind));
    if waiting != [] {
      DurationsSnoc(ServedIn(rows, kind), Served(KeyOf(r), waiting[0], r.at));
    }
  }

  // ----- the trend -----

  function TruncToSeconds(us: int): int {
    if us >= 0 then us / 1_000_000 else -((-us) / 1_000_000)
  }

  /** Where a time's bucket starts, in seconds: the time is truncated to seconds, then rounded down to the width. */
  function BucketStart(us: int, width: nat): int
    requires width > 0
  {
    TruncToSeconds(us) / width * width
  }

  /** A bucket is aligned, and contains the time, except for times before the epoch that truncation moves up onto
      the start of a bucket. */
  lemma {:induction false} BucketContainsExactly(us: int, width: nat)
    requires width > 0
    ensures BucketStart(us, width) % width == 0
    ensures Contains(BucketStart(us, width), width, us) <==>
            us >= 0 || us % 1_000_000 == 0 || TruncToSeconds(us) % width != 0
  {
    var q, m := TruncToSeconds(us) / width, TruncToSeconds(us) % width;
    assert TruncToSeconds(us) == BucketStart(us, width) + m && 0 <= m < width;
    assert q * width % width == 0 by { MultipleOf(q, width); }
  }

  /** The bucket of width seconds that starts here contains the time. */
  predicate Contains(start: int, width: nat, us: int) {
    start * 1_000_000 <= us < (start + width) * 1_000_000
  }

  lemma {:induction false} LargerMultiple(p: int, q: int, width: nat)
    requires p > q
    ensures p * width >= q * width + width
    decreases p - q
  {
    assert p * width == (p - 1) * width + width;
    if p > q + 1 { LargerMultiple(p - 1, q, width); }
  }

  lemma MultiplesApart(p: int, q: int, width: nat)
    requires p * width < q * width + width && q * width < p * width + width
    ensures p == q
  {
    if p > q { LargerMultiple(p, q, width); }
    if q > p { LargerMultiple(q, p, width); }
  }

  lemma MultipleOf(q: int, width: nat)
    requires width > 0
    ensures q * width % width == 0
  {
    MultiplesApart(q, q * width / width, width);
  }

  /** From the epoch on, a time is put into the one aligned bucket that contains it. */
  lemma {:induction false} BucketIsWhereItBelongs(us: int, width: nat, start: int)
    requires width > 0 && us >= 0 && start % width == 0
    ensures BucketStart(us, width) == start <==> Contains(start, width, us)
  {
    BucketContainsExactly(us, width);
    var p, q := start / width, TruncToSeconds(us) / width;
    assert start == p * width;
    if Contains(start, width, us) { MultiplesApart(p, q, width); }
  }

  /** The seven columns of the trend. */
  datatype Column =
    | Events | Retried | Resolved | RetryRecovered | FailureRecovered | Notifications | NotificationsFailed

  datatype TrendRow = TrendRow(
    events: nat, retrying: nat, resolved: nat, retryRecovered: nat, failureRecovered: nat,
    notifications: nat, notificationsFailed: nat)

  const EMPTY_ROW := TrendRow(0, 0, 0, 0, 0, 0, 0)

  function Cell(row: TrendRow, c: Column): nat {
    match c
    case Events => row.events
    case Retried => row.retrying
    case Resolved => row.resolved
    case RetryRecovered => row.retryRecovered
    case FailureRecovered => row.failureRecovered
    case Notifications => row.notifications
    case NotificationsFailed => row.notificationsFailed
  }

  /** Whether the last row is counted in a column. */
  predicate Counted(rows: seq<Row>, c: Column)
    requires rows != []
  {
    var r := rows[|rows| - 1];
    match c
    case Events => true
    case Retried => TaskOf(r) != "" && r.eventType.WorkflowRetrying?
    case Resolved => TaskOf(r) != "" && r.eventType.ApprovalResolved?
    case RetryRecovered => Serves(rows, Retry)
    case FailureRecovered => Serves(rows, Failure)
    case Notifications => false
    case NotificationsFailed => false
  }

  /** The times of the rows a column counts. */
  function RowTimes(rows: seq<Row>, c: Column): seq<int> {
    if rows == [] then []
    else
      var earlier := RowTimes(rows[..|rows| - 1], c);
      if Counted(rows, c) then earlier + [rows[|rows| - 1].at] else earlier
  }

  predicate DeliveryFailed(d: Delivery) {
    Lower(d.status) != "sent"
  }

  predicate DeliveryCounted(d: Delivery, c: Column) {
    c.Notifications? || (c.NotificationsFailed? && DeliveryFailed(d))
  }

  function DeliveryTimes(deliveries: seq<Delivery>, c: Column): seq<int> {
    if deliveries == [] then []
    else
      var d := deliveries[|deliveries| - 1];
      var earlier := DeliveryTimes(deliveries[..|deliveries| - 1], c);
      if DeliveryCounted(d, c) then earlier + [d.sentAt] else earlier
  }

  /** Everything a column counts: rows first, then deliveries. */
  function Times(rows: seq<Row>, deliveries: seq<Delivery>, c: Column): seq<int> {
    RowTimes(rows, c) + DeliveryTimes(deliveries, c)
  }

  /** How many of the times fall into the bucket. */
  function InBucket(times: seq<int>, width: nat, start: int): nat
    requires width > 0
  {
    if times == [] then 0
    else InBucket(times[..|times| - 1], width, start) + if BucketStart(times[|times| - 1], width) == start then 1 else 0
  }

  lemma InBucketSnoc(times: seq<int>, t: int, width: nat, start: int)
    requires width > 0
    ensures InBucket(times + [t], width, start) ==
            InBucket(times, width, start) + if BucketStart(t, width) == start then 1 else 0
  {
    assert (times + [t])[..|times|] == times;
  }

  /** The cells of the trend are the counts, and a bucket without a row counts nothing. */
  ghost predicate TrendMatches(buckets: map<int, TrendRow>, rows: seq<Row>, deliveries: seq<Delivery>, width: nat)
    requires width > 0
  {
    forall b, c: Column :: Cell(GetOr(buckets, b, EMPTY_ROW), c) == InBucket(Times(rows, deliveries, c), width, b)
  }

  /** A row of the trend with one more event in the given columns. */
  function Bump(row: TrendRow, columns: set<Column>): TrendRow {
    TrendRow(row.events + (if Column.Events in columns then 1 else 0),
             row.retrying + (if Column.Retried in columns then 1 else 0),
             row.resolved + (if Column.Resolved in columns then 1 else 0),
             row.retryRecovered + (if Column.RetryRecovered in columns then 1 else 0),
             row.failureRecovered + (if Column.FailureRecovered in columns then 1 else 0),
             row.notifications + (if Column.Notifications in columns then 1 else 0),
             row.notificationsFailed + (if Column.NotificationsFailed in columns then 1 else 0))
  }

  /** One cell: bumping the row of a time's bucket is adding the time to the counted columns. */
  lemma CellStep(row: TrendRow, times: seq<int>, width: nat, start: int, t: int, columns: set<Column>, c: Column)
    requires width > 0 && Cell(row, c) == InBucket(times, width, start)
    ensures Cell(if start == BucketStart(t, width) then Bump(row, columns) else row, c) ==
            InBucket(if c in columns then times + [t] else times, width, start)
  {
    InBucketSnoc(times, t, width, start);
  }

  /** Bumping the bucket of a time is counting that time in those columns. */
  lemma {:induction false} TrendStep(buckets: map<int, TrendRow>, rows: seq<Row>, deliveries: seq<Delivery>, width: nat,
                  t: int, columns: set<Column>, moreRows: seq<Row>, moreDeliveries: seq<Delivery>)
    requires width > 0 && TrendMatches(buckets, rows, deliveries, width)
    requires forall c: Column :: Times(moreRows, moreDeliveries, c) ==
               if c in columns then Times(rows, deliveries, c) + [t] else Times(rows, deliveries, c)
    ensures var b := BucketStart(t, width);
            TrendMatches(buckets[b := Bump(GetOr(buckets, b, EMPTY_ROW), columns)], moreRows, moreDeliveries, width)
  {
    var b := BucketStart(t, width);
    var after := buckets[b := Bump(GetOr(buckets, b, EMPTY_ROW), columns)];
    forall s: int, c: Column
      ensures Cell(GetOr(after, s, EMPTY_ROW), c) == InBucket(Times(moreRows, moreDeliveries, c), width, s)
    {
      var row := GetOr(buckets, s, EMPTY_ROW);
      CellStep(row, Times(rows, deliveries, c), width, s, t, columns, c);
      assert GetOr(after, s, EMPTY_ROW) == if s == b then Bump(row, columns) else row;
    }
  }

  // ----- the snapshot -----

  /** The three families of queues. */
  datatype Waits = Waits(retry: Queues, failure: Queues, approval: Queues)

  ghost predicate WaitsMatch(w: Waits, rows: seq<Row>) {
    && QueuesMatch(w.retry, rows, Retry)
    && QueuesMatch(w.failure, rows, Failure)
    && QueuesMatch(w.approval, rows, Approval)
  }

  /** These are the columns the last row is counted in. */
  ghost predicate AreColumns(columns: set<Column>, rows: seq<Row>)
    requires rows != []
  {
    forall c: Column :: c in columns <==> Counted(rows, c)
  }

  method RouteRetrying(w: Waits, r: Row, ghost rows: seq<Row>) returns (v: Waits, columns: set<Column>)
    requires WaitsMatch(w, rows) && TaskOf(r) != "" && r.eventType.WorkflowRetrying?
    ensures WaitsMatch(v, rows + [r]) && AreColumns(columns, rows + [r])
  {
    var retry := Enqueue(w.retry, r, Retry, rows);
    QueuesIgnore(w.failure, rows, r, Failure);
    QueuesIgnore(w.approval, rows, r, Approval);
    v, columns := w.(retry := retry), {Column.Events, Column.Retried};
  }

  method RouteFailed(w: Waits, r: Row, ghost rows: seq<Row>) returns (v: Waits, columns: set<Column>)
    requires WaitsMatch(w, rows) && TaskOf(r) != "" && r.eventType.TaskFailed?
    ensures WaitsMatch(v, rows + [r]) && AreColumns(columns, rows + [r])
  {
    var failure := Enqueue(w.failure, r, Failure, rows);
    QueuesIgnore(w.retry, rows, r, Retry);
    QueuesIgnore(w.approval, rows, r, Approval);
    v, columns := w.(failure := failure), {Column.Events};
  }

  method RouteRequested(w: Waits, r: Row, ghost rows: seq<Row>) returns (v: Waits, columns: set<Column>)
    requires WaitsMatch(w, rows) && TaskOf(r) != "" && r.eventType.ApprovalRequested?
    ensures WaitsMatch(v, rows + [r]) && AreColumns(columns, rows + [r])
  {
    var approval := Enqueue(w.approval, r, Approval, rows);
    QueuesIgnore(w.retry, rows, r, Retry);
    QueuesIgnore(w.failure, rows, r, Failure);
    v, columns := w.(approval := approval), {Column.Events};
  }

  /** The columns of a claiming row. */
  function ClaimedColumns(retried: bool, recovered: bool): set<Column> {
    {Column.Events} + (if retried then {Column.RetryRecovered} else {})
    + (if recovered then {Column.FailureRecovered} else {})
  }

  lemma ClaimedColumnsAre(rows: seq<Row>)
    requires rows != [] && rows[|rows| - 1].eventType.TaskClaimed?
    ensures AreColumns(ClaimedColumns(Serves(rows, Retry), Serves(rows, Failure)), rows)
  {
  }

  method RouteClaimed(w: Waits, r: Row, ghost rows: seq<Row>) returns (v: Waits, columns: set<Column>)
    requires WaitsMatch(w, rows) && TaskOf(r) != "" && r.eventType.TaskClaimed?
    ensures WaitsMatch(v, rows + [r]) && AreColumns(columns, rows + [r])
  {
    var retry, retried := Serve(w.retry, r, Retry, rows);
    var failure, recovered := Serve(w.failure, r, Failure, rows);
    QueuesIgnore(w.approval, rows, r, Approval);
    ClaimedColumnsAre(rows + [r]);
    v, columns := Waits(retry, failure, w.approval), ClaimedColumns(retried, recovered);
  }

  method RouteResolved(w: Waits, r: Row, ghost rows: seq<Row>) returns (v: Waits, columns: set<Column>)
    requires WaitsMatch(w, rows) && TaskOf(r) != "" && r.eventType.ApprovalResolved?
    ensures WaitsMatch(v, rows + [r]) && AreColumns(columns, rows + [r])
  {
    var approval, served := Serve(w.approval, r, Approval, rows);
    QueuesIgnore(w.retry, rows, r, Retry);
    QueuesIgnore(w.failure, rows, r, Failure);
    v, columns := w.(approval := approval), {Column.Events, Column.Resolved};
  }

  /** Whether a row opens or ends a wait of some task. */
  predicate Waited(r: Row) {
    && TaskOf(r) != ""
    && (r.eventType.WorkflowRetrying? || r.eventType.TaskFailed? || r.eventType.ApprovalRequested?
        || r.eventType.TaskClaimed? || r.eventType.ApprovalResolved?)
  }

  lemma OtherRowsIgnored(w: Waits, r: Row, rows: seq<Row>)
    requires WaitsMatch(w, rows) && !Waited(r)
    ensures WaitsMatch(w, rows + [r]) && AreColumns({Column.Events}, rows + [r])
  {
    QueuesIgnore(w.retry, rows, r, Retry);
    QueuesIgnore(w.failure, rows, r, Failure);
    QueuesIgnore(w.approval, rows, r, Approval);
  }

  /** One event row: it opens a wait, or ends waits, or is only counted. */
  method RouteRow(w: Waits, r: Row, ghost rows: seq<Row>) returns (v: Waits, columns: set<Column>)
    requires WaitsMatch(w, rows)
    ensures WaitsMatch(v, rows + [r]) && AreColumns(columns, rows + [r])
  {
    var inTask := TaskOf(r) != "";
    if r.eventType.WorkflowRetrying? && inTask {
      v, columns := RouteRetrying(w, r, rows);
    } else if r.eventType.TaskFailed? && inTask {
      v, columns := RouteFailed(w, r, rows);
    } else if r.eventType.ApprovalRequested? && inTask {
      v, columns := RouteRequested(w, r, rows);
    } else if r.eventType.TaskClaimed? && inTask {
      v, columns := RouteClaimed(w, r, rows);
    } else if r.eventType.ApprovalResolved? && inTask {
      v, columns := RouteResolved(w, r, rows);
    } else {
      OtherRowsIgnored(w, r, rows);
      v, columns := w, {Column.Events};
    }
  }

  /** A bucket's row exists only because something was counted in it. */
  predicate Occupied(row: TrendRow) {
    row.events > 0 || row.notifications > 0
  }

  /** Buckets start at multiples of the width, and none is empty. */
  ghost predicate BucketsProper(buckets: map<int, TrendRow>, width: nat)
    requires width > 0
  {
    forall b :: b in buckets ==> b % width == 0 && Occupied(buckets[b])
  }

  lemma ProperStep(buckets: map<int, TrendRow>, width: nat, t: int, columns: set<Column>)
    requires width > 0 && BucketsProper(buckets, width)
    requires Column.Events in columns || Column.Notifications in columns
    ensures var b := BucketStart(t, width);
            BucketsProper(buckets[b := Bump(GetOr(buckets, b, EMPTY_ROW), columns)], width)
  {
    BucketContainsExactly(t, width);
  }

  lemma RowCounted(rows: seq<Row>, r: Row, columns: set<Column>)
    requires AreColumns(columns, rows + [r])
    ensures forall c: Column :: Times(rows + [r], [], c) ==
              if c in columns then Times(rows, [], c) + [r.at] else Times(rows, [], c)
  {
    assert (rows + [r])[..|rows|] == rows;
  }

  /** The event loop: queues and trend advance side by side. */
  method ScanRows(rows: seq<Row>, width: nat) returns (waits: Waits, buckets: map<int, TrendRow>)
    requires width > 0
    ensures WaitsMatch(waits, rows)
    ensures TrendMatches(buckets, rows, [], width) && BucketsProper(buckets, width)
  {
    waits, buckets := Waits(Queues(map[], []), Queues(map[], []), Queues(map[], [])), map[];
    for i := 0 to |rows|
      invariant WaitsMatch(waits, rows[..i])
      invariant TrendMatches(buckets, rows[..i], [], width) && BucketsProper(buckets, width)
    {
      var columns;
      assert rows[..i] + [rows[i]] == rows[..i + 1];
      waits, columns := RouteRow(waits, rows[i], rows[..i]);
      RowCounted(rows[..i], rows[i], columns);
      TrendStep(buckets, rows[..i], [], width, rows[i].at, columns, rows[..i + 1], []);
      assert Counted(rows[..i + 1], Column.Events);
      ProperStep(buckets, width, rows[i].at, columns);
      var b := BucketStart(rows[i].at, width);
      buckets := buckets[b := Bump(GetOr(buckets, b, EMPTY_ROW), columns)];
    }
    assert rows[..|rows|] == rows;
  }

  datatype Stats = Stats(count: nat, p50: Option<int>, p95: Option<int>)

  function StatsOf(values: seq<int>): Stats {
    Stats(|values|, Percentile(values, 50.0), Percentile(values, 95.0))
  }

  /** At least this share of the values is at or below v, and less lies below it. */
  predicate IsQuantile(values: seq<int>, v: int, percent: nat) {
    && v in multiset(values)
    && 100 * AtMost(values, v) >= percent * |values| && 100 * AtMost(values, v - 1) < percent * |values|
  }

  /** The number of values, their median and 95th percentile; none of the two exactly when there are no values. */
  ghost predicate StatsShow(s: Stats, values: seq<int>) {
    && s.count == |values| && (s.p50.None? <==> values == []) && (s.p95.None? <==> values == [])
    && (values != [] ==>
          IsQuantile(values, s.p50.value, 50) && IsQuantile(values, s.p95.value, 95) && s.p50.value <= s.p95.value)
  }

  lemma RankIsShare(p: real, percent: nat, n: nat)
    requires n > 0 && 0 < percent <= 100 && p == percent as real
    ensures 100 * Rank(p, n) >= percent * n && 100 * (Rank(p, n) - 1) < percent * n
  {
    RankInRange(p, n);
    var share := (p / 100.0) * n as real;
    ShareOf(p, percent, n);
    assert Ceil(share) as real >= share > Ceil(share) as real - 1.0;
  }

  lemma ShareOf(p: real, percent: nat, n: nat)
    requires p == percent as real
    ensures 100.0 * ((p / 100.0) * n as real) == (percent * n) as real
  {
    assert 100.0 * ((p / 100.0) * n as real) == p * n as real;
  }

  lemma RankedIsQuantile(values: seq<int>, v: int, rank: int, percent: nat)
    requires HasRank(values, v, rank)
    requires 100 * rank >= percent * |values| && 100 * (rank - 1) < percent * |values|
    ensures IsQuantile(values, v, percent)
  {
  }

  lemma PercentileIsQuantile(values: seq<int>, p: real, percent: nat)
    requires values != [] && 0 < percent <= 100 && p == percent as real
    ensures Percentile(values, p).Some? && IsQuantile(values, Percentile(values, p).value, percent)
  {
    var rank := Rank(p, |values|);
    PercentileIsNearestRank(values, p, rank);
    RankIsShare(p, percent, |values|);
    RankedIsQuantile(values, Percentile(values, p).value, rank, percent);
  }

  lemma StatsShowValues(values: seq<int>)
    ensures StatsShow(StatsOf(values), values)
  {
    if values != [] {
      PercentileIsQuantile(values, 50.0, 50);
      PercentileIsQuantile(values, 95.0, 95);
      PercentileMonotone(values, 50.0, 95.0);
    }
  }

  datatype Point = Point(start: int, row: TrendRow)

  datatype Snapshot = Snapshot(
    eventCount: nat, retry: Stats, approval: Stats, failure: Stats,
    total: nat, delivered: int, failed: nat, points: seq<Point>)

  /** The bucket width in seconds: between five minutes and a day. */
  function BucketWidth(minutes: int): (width: nat)
    ensures 300 <= width <= 86_400 && width % 60 == 0
    ensures 5 <= minutes <= 1440 ==> width == 60 * minutes
  {
    60 * (if minutes < 5 then 5 else if minutes > 1440 then 1440 else minutes)
  }

  predicate HasPoint(points: seq<Point>, b: int) {
    exists i :: 0 <= i < |points| && points[i].start == b
  }

  /** The reported trend: ascending buckets that start at multiples of the width and are not empty, their counts,
      and no count left out. */
  ghost predicate IsTrend(points: seq<Point>, rows: seq<Row>, deliveries: seq<Delivery>, width: nat)
    requires width > 0
  {
    && (forall i, j :: 0 <= i < j < |points| ==> points[i].start < points[j].start)
    && (forall i :: 0 <= i < |points| ==> points[i].start % width == 0 && Occupied(points[i].row))
    && (forall i, c: Column :: 0 <= i < |points| ==>
          Cell(points[i].row, c) == InBucket(Times(rows, deliveries, c), width, points[i].start))
    && (forall b, c: Column :: InBucket(Times(rows, deliveries, c), width, b) > 0 ==> HasPoint(points, b))
  }

  /** What the snapshot says about the rows and deliveries of its window. */
  ghost predicate Reports(s: Snapshot, rows: seq<Row>, deliveries: seq<Delivery>, width: nat)
    requires width > 0
  {
    && s.eventCount == |rows|
    && StatsShow(s.retry, Durations(ServedIn(rows, Retry)))
    && StatsShow(s.approval, Durations(ServedIn(rows, Approval)))
    && StatsShow(s.failure, Durations(ServedIn(rows, Failure)))
    && s.total == |deliveries| && s.failed == |DeliveryTimes(deliveries, NotificationsFailed)|
    && s.delivered + s.failed == s.total
    && IsTrend(s.points, rows, deliveries, width)
  }

  method SnapshotOf(rows: seq<Row>, deliveries: seq<Delivery>, width: nat) returns (s: Snapshot)
    requires width > 0
    ensures Reports(s, rows, deliveries, width)
  {
    var waits, before := ScanRows(rows, width);
    var buckets, failed := ScanDeliveries(before, rows, deliveries, width);
    var points := PointsOf(buckets);
    PointsAreTrend(points, buckets, rows, deliveries, width);
    StatsShowValues(waits.retry.durations);
    StatsShowValues(waits.approval.durations);
    StatsShowValues(waits.failure.durations);
    s := Snapshot(|rows|, StatsOf(waits.retry.durations), StatsOf(waits.approval.durations),
                  StatsOf(waits.failure.durations), |deliveries|, |deliveries| - failed, failed, points);
  }

  const HOUR := 3_600_000_000
  const LONGEST_WINDOW := 24 * 90 * HOUR

  /** The window reaches back between an hour and ninety days. */
  function Cutoff(now: int, hours: int): (cutoff: int)
    ensures now - 2160 * 3_600_000_000 <= cutoff <= now - 3_600_000_000
    ensures 1 <= hours <= 2160 ==> cutoff == now - hours * 3_600_000_000
  {
    now - HOUR * (if hours < 1 then 1 else if hours > 24 * 90 then 24 * 90 else hours)
  }

  function RowsSince(table: seq<Row>, cutoff: int): (rows: seq<Row>)
    ensures forall r :: r in rows <==> r in table && r.at >= cutoff
  {
    if table == [] then []
    else
      var earlier := RowsSince(table[..|table| - 1], cutoff);
      if table[|table| - 1].at >= cutoff then earlier + [table[|table| - 1]] else earlier
  }

  function DeliveriesSince(table: seq<Delivery>, cutoff: int): (deliveries: seq<Delivery>)
    ensures forall d :: d in deliveries <==> d in table && d.sentAt >= cutoff
  {
    if table == [] then []
    else
      var earlier := DeliveriesSince(table[..|table| - 1], cutoff);
      if table[|table| - 1].sentAt >= cutoff then earlier + [table[|table| - 1]] else earlier
  }

  /** The snapshot of the tables' rows in the window; the event rows come ordered by run and sequence. With a clock
      that is ninety days past the epoch, every point counts exactly the times that lie in its bucket. */
  method RuntimeSlaSnapshot(table: seq<Row>, sent: seq<Delivery>, hours: int, minutes: int, now: int)
    returns (s: Snapshot)
    ensures var rows, deliveries := RowsSince(table, Cutoff(now, hours)), DeliveriesSince(sent, Cutoff(now, hours));
            && Reports(s, rows, deliveries, BucketWidth(minutes))
            && (now >= LONGEST_WINDOW ==> PointsContain(s.points, rows, deliveries, BucketWidth(minutes)))
  {
    var rows, deliveries := RowsSince(table, Cutoff(now, hours)), DeliveriesSince(sent, Cutoff(now, hours));
    s := SnapshotOf(rows, deliveries, BucketWidth(minutes));
    if now >= LONGEST_WINDOW {
      PointsContainTheirTimes(s.points, rows, deliveries, BucketWidth(minutes));
    }
  }

  /** How many of the times lie in the bucket. */
  function Within(times: seq<int>, width: nat, start: int): nat {
    if times == [] then 0
    else Within(times[..|times| - 1], width, start) + if Contains(start, width, times[|times| - 1]) then 1 else 0
  }

  /** Each cell is the number of counted times in its bucket, and each counted time lies in the bucket of a point. */
  ghost predicate PointsContain(points: seq<Point>, rows: seq<Row>, deliveries: seq<Delivery>, width: nat) {
    && (forall i, c: Column :: 0 <= i < |points| ==>
          Cell(points[i].row, c) == Within(Times(rows, deliveries, c), width, points[i].start))
    && (forall c: Column, k :: 0 <= k < |Times(rows, deliveries, c)| ==>
          Contained(points, width, Times(rows, deliveries, c)[k]))
  }

  predicate Contained(points: seq<Point>, width: nat, t: int) {
    exists i :: 0 <= i < |points| && Contains(points[i].start, width, t)
  }

  lemma {:induction false} InBucketIsWithin(times: seq<int>, width: nat, start: int)
    requires width > 0 && start % width == 0 && forall k :: 0 <= k < |times| ==> times[k] >= 0
    ensures InBucket(times, width, start) == Within(times, width, start)
  {
    if times != [] {
      InBucketIsWithin(times[..|times| - 1], width, start);
      BucketIsWhereItBelongs(times[|times| - 1], width, start);
    }
  }

  lemma {:induction false} RowTimesFromRows(rows: seq<Row>, c: Column, least: int)
    requires forall r :: r in rows ==> r.at >= least
    ensures forall k :: 0 <= k < |RowTimes(rows, c)| ==> RowTimes(rows, c)[k] >= least
  {
    if rows != [] { RowTimesFromRows(rows[..|rows| - 1], c, least); }
  }

  lemma {:induction false} DeliveryTimesFromDeliveries(deliveries: seq<Delivery>, c: Column, least: int)
    requires forall d :: d in deliveries ==> d.sentAt >= least
    ensures forall k :: 0 <= k < |DeliveryTimes(deliveries, c)| ==> DeliveryTimes(deliveries, c)[k] >= least
  {
    if deliveries != [] { DeliveryTimesFromDeliveries(deliveries[..|deliveries| - 1], c, least); }
  }

  /** No row and no delivery is earlier than the epoch. */
  ghost predicate FromEpoch(rows: seq<Row>, deliveries: seq<Delivery>) {
    (forall r :: r in rows ==> r.at >= 0) && forall d :: d in deliveries ==> d.sentAt >= 0
  }

  lemma TimesFromEpoch(rows: seq<Row>, deliveries: seq<Delivery>, c: Column)
    requires FromEpoch(rows, deliveries)
    ensures forall k :: 0 <= k < |Times(rows, deliveries, c)| ==> Times(rows, deliveries, c)[k] >= 0
  {
    RowTimesFromRows(rows, c, 0);
    DeliveryTimesFromDeliveries(deliveries, c, 0);
  }

  lemma CountedIsContained(points: seq<Point>, times: seq<int>, width: nat, k: nat)
    requires width > 0 && k < |times| && times[k] >= 0
    requires InBucket(times, width, BucketStart(times[k], width)) > 0 ==> HasPoint(points, BucketStart(times[k], width))
    ensures Contained(points, width, times[k])
  {
    InOwnBucket(times, width, k);
    BucketContainsExactly(times[k], width);
    var i :| 0 <= i < |points| && points[i].start == BucketStart(times[k], width);
  }

  /** From the epoch on, the points of a trend contain the times they count, and every counted time. */
  lemma PointsContainTheirTimes(points: seq<Point>, rows: seq<Row>, deliveries: seq<Delivery>, width: nat)
    requires width > 0 && IsTrend(points, rows, deliveries, width) && FromEpoch(rows, deliveries)
    ensures PointsContain(points, rows, deliveries, width)
  {
    forall c: Column
      ensures forall i :: 0 <= i < |points| ==>
                Cell(points[i].row, c) == Within(Times(rows, deliveries, c), width, points[i].start)
      ensures forall k :: 0 <= k < |Times(rows, deliveries, c)| ==>
                Contained(points, width, Times(rows, deliveries, c)[k])
    {
      TimesFromEpoch(rows, deliveries, c);
      ColumnContains(points, Times(rows, deliveries, c), width, c);
    }
  }

  /** One column of a trend whose times are not before the epoch. */
  lemma ColumnContains(points: seq<Point>, times: seq<int>, width: nat, c: Column)
    requires width > 0 && forall k :: 0 <= k < |times| ==> times[k] >= 0
    requires forall i :: 0 <= i < |points| ==> points[i].start % width == 0
    requires forall i :: 0 <= i < |points| ==> Cell(points[i].row, c) == InBucket(times, width, points[i].start)
    requires forall b :: InBucket(times, width, b) > 0 ==> HasPoint(points, b)
    ensures forall i :: 0 <= i < |points| ==> Cell(points[i].row, c) == Within(times, width, points[i].start)
    ensures forall k :: 0 <= k < |times| ==> Contained(points, width, times[k])
  {
    forall i | 0 <= i < |points| ensures Cell(points[i].row, c) == Within(times, width, points[i].start) {
      InBucketIsWithin(times, width, points[i].start);
    }
    forall k | 0 <= k < |times| ensures Contained(points, width, times[k]) {
      CountedIsContained(points, times, width, k);
    }
  }

  method ScanDeliveries(before: map<int, TrendRow>, ghost rows: seq<Row>, deliveries: seq<Delivery>, width: nat)
    returns (buckets: map<int, TrendRow>, failed: nat)
    requires width > 0 && TrendMatches(before, rows, [], width) && BucketsProper(before, width)
    ensures TrendMatches(buckets, rows, deliveries, width) && BucketsProper(buckets, width)
    ensures failed == |DeliveryTimes(deliveries, NotificationsFailed)|
  {
    buckets, failed := before, 0;
    for i := 0 to |deliveries|
      invariant TrendMatches(buckets, rows, deliveries[..i], width) && BucketsProper(buckets, width)
      invariant failed == |DeliveryTimes(deliveries[..i], NotificationsFailed)|
    {
      var d := deliveries[i];
      var columns := {Notifications};
      if DeliveryFailed(d) {
        columns := columns + {NotificationsFailed};
        failed := failed + 1;
      }
      assert deliveries[..i] + [d] == deliveries[..i + 1];
      DeliveryCountedIn(rows, deliveries[..i], d, columns);
      TrendStep(buckets, rows, deliveries[..i], width, d.sentAt, columns, rows, deliveries[..i + 1]);
      ProperStep(buckets, width, d.sentAt, columns);
      var b := BucketStart(d.sentAt, width);
      buckets := buckets[b := Bump(GetOr(buckets, b, EMPTY_ROW), columns)];
    }
    assert deliveries[..|deliveries|] == deliveries;
  }

  lemma DeliveryCountedIn(rows: seq<Row>, deliveries: seq<Delivery>, d: Delivery, columns: set<Column>)
    requires forall c: Column :: c in columns <==> DeliveryCounted(d, c)
    ensures forall c: Column :: Times(rows, deliveries + [d], c) ==
              if c in columns then Times(rows, deliveries, c) + [d.sentAt] else Times(rows, deliveries, c)
    ensures |DeliveryTimes(deliveries + [d], NotificationsFailed)| ==
            |DeliveryTimes(deliveries, NotificationsFailed)| + if DeliveryFailed(d) then 1 else 0
  {
    assert (deliveries + [d])[..|deliveries|] == deliveries;
  }

  /** These points are the rows of all buckets but the ones to do, which come later, in ascending order. */
  ghost predicate PointsSoFar(points: seq<Point>, buckets: map<int, TrendRow>, todo: set<int>) {
    && (forall i, j :: 0 <= i < j < |points| ==> points[i].start < points[j].start)
    && (forall i :: 0 <= i < |points| ==> Lookup(buckets, points[i].start) == Some(points[i].row))
    && (forall i, b :: 0 <= i < |points| && b in todo ==> points[i].start < b)
    && (forall b :: b in buckets ==> b in todo || HasPoint(points, b))
  }

  lemma PointsOneMore(points: seq<Point>, buckets: map<int, TrendRow>, todo: set<int>, least: int)
    requires PointsSoFar(points, buckets, todo) && todo <= buckets.Keys
    requires least in todo && forall b :: b in todo ==> least <= b
    ensures PointsSoFar(points + [Point(least, buckets[least])], buckets, todo - {least})
  {
    var more := points + [Point(least, buckets[least])];
    assert more[|points|].start == least;
    forall b | b in buckets && b !in todo ensures HasPoint(more, b) {
      var i :| 0 <= i < |points| && points[i].start == b;
      assert more[i].start == b;
    }
  }

  /** The bucket rows in ascending order of their start. */
  method PointsOf(buckets: map<int, TrendRow>) returns (points: seq<Point>)
    ensures forall i, j :: 0 <= i < j < |points| ==> points[i].start < points[j].start
    ensures forall i :: 0 <= i < |points| ==> Lookup(buckets, points[i].start) == Some(points[i].row)
    ensures forall b :: b in buckets ==> HasPoint(points, b)
  {
    points := [];
    var todo := buckets.Keys;
    while todo != {}
      invariant todo <= buckets.Keys
      invariant PointsSoFar(points, buckets, todo)
      decreases todo
    {
      var least := LeastOf(todo);
      PointsOneMore(points, buckets, todo, least);
      points := points + [Point(least, buckets[least])];
      todo := todo - {least};
    }
  }

  lemma PointsAreTrend(points: seq<Point>, buckets: map<int, TrendRow>, rows: seq<Row>, deliveries: seq<Delivery>,
      width: nat)
    requires width > 0 && TrendMatches(buckets, rows, deliveries, width) && BucketsProper(buckets, width)
    requires forall i, j :: 0 <= i < j < |points| ==> points[i].start < points[j].start
    requires forall i :: 0 <= i < |points| ==> Lookup(buckets, points[i].start) == Some(points[i].row)
    requires forall b :: b in buckets ==> HasPoint(points, b)
    ensures IsTrend(points, rows, deliveries, width)
  {
    forall i, c: Column | 0 <= i < |points|
      ensures Cell(points[i].row, c) == InBucket(Times(rows, deliveries, c), width, points[i].start)
    {
      assert GetOr(buckets, points[i].start, EMPTY_ROW) == points[i].row;
    }
    forall b, c: Column | InBucket(Times(rows, deliveries, c), width, b) > 0
      ensures HasPoint(points, b)
    {
      assert Cell(GetOr(buckets, b, EMPTY_ROW), c) > 0;
      assert b in buckets;
    }
  }

  // ----- conservation over the trend -----

  function ColumnSum(points: seq<Point>, c: Column): nat {
    if points == [] then 0 else ColumnSum(points[..|points| - 1], c) + Cell(points[|points| - 1].row, c)
  }

  /** Counts of one list of times over some buckets. */
  function CountsOver(points: seq<Point>, times: seq<int>, width: nat): nat
    requires width > 0
  {
    if points == [] then 0
    else CountsOver(points[..|points| - 1], times, width) + InBucket(times, width, points[|points| - 1].start)
  }

  lemma {:induction false} CountsOverSnoc(points: seq<Point>, times: seq<int>, t: int, width: nat)
    requires width > 0 && forall i, j :: 0 <= i < j < |points| ==> points[i].start < points[j].start
    ensures CountsOver(points, times + [t], width) ==
            CountsOver(points, times, width) +
            if HasPoint(points, BucketStart(t, width)) then 1 else 0
  {
    if points != [] {
      var n := |points| - 1;
      CountsOverSnoc(points[..n], times, t, width);
      InBucketSnoc(times, t, width, points[n].start);
      if i :| 0 <= i < |points[..n]| && points[..n][i].start == BucketStart(t, width) {
        assert points[i].start == BucketStart(t, width) && points[n].start != BucketStart(t, width);
      } else if points[n].start != BucketStart(t, width) {
        forall i | 0 <= i < |points| ensures points[i].start != BucketStart(t, width) {
          if i < n { assert points[..n][i] == points[i]; }
        }
      }
    }
  }

  lemma {:induction false} CountsOverAll(points: seq<Point>, times: seq<int>, width: nat)
    requires width > 0 && forall i, j :: 0 <= i < j < |points| ==> points[i].start < points[j].start
    requires forall k :: 0 <= k < |times| ==> HasPoint(points, BucketStart(times[k], width))
    ensures CountsOver(points, times, width) == |times|
  {
    if times == [] {
      CountsOverNothing(points, width);
    } else {
      var n := |times| - 1;
      forall k | 0 <= k < n ensures times[..n][k] == times[k] {}
      CountsOverAll(points, times[..n], width);
      CountsOverSnoc(points, times[..n], times[n], width);
      assert times[..n] + [times[n]] == times;
    }
  }

  lemma {:induction false} CountsOverNothing(points: seq<Point>, width: nat)
    requires width > 0
    ensures CountsOver(points, [], width) == 0
  {
    if points != [] { CountsOverNothing(points[..|points| - 1], width); }
  }

  lemma {:induction false} InOwnBucket(times: seq<int>, width: nat, k: nat)
    requires width > 0 && k < |times|
    ensures InBucket(times, width, BucketStart(times[k], width)) > 0
  {
    if k < |times| - 1 { InOwnBucket(times[..|times| - 1], width, k); }
  }

  lemma {:induction false} ColumnSumIsCounts(points: seq<Point>, times: seq<int>, width: nat, c: Column)
    requires width > 0 && forall i :: 0 <= i < |points| ==>
            Cell(points[i].row, c) == InBucket(times, width, points[i].start)
    ensures ColumnSum(points, c) == CountsOver(points, times, width)
  {
    if points != [] { ColumnSumIsCounts(points[..|points| - 1], times, width, c); }
  }

  /** Summed over the trend, every column equals the number of times it counts. */
  lemma TrendConserves(points: seq<Point>, rows: seq<Row>, deliveries: seq<Delivery>, width: nat, c: Column)
    requires width > 0 && IsTrend(points, rows, deliveries, width)
    ensures ColumnSum(points, c) == |Times(rows, deliveries, c)|
  {
    var times := Times(rows, deliveries, c);
    forall k | 0 <= k < |times| ensures HasPoint(points, BucketStart(times[k], width)) {
      InOwnBucket(times, width, k);
    }
    CountsOverAll(points, times, width);
    ColumnSumIsCounts(points, times, width, c);
  }

  lemma {:induction false} TimesAreTotals(rows: seq<Row>, deliveries: seq<Delivery>)
    ensures |RowTimes(rows, Events)| == |rows|
    ensures |RowTimes(rows, RetryRecovered)| == |ServedIn(rows, Retry)|
    ensures |RowTimes(rows, FailureRecovered)| == |ServedIn(rows, Failure)|
    ensures RowTimes(rows, Notifications) == [] && RowTimes(rows, NotificationsFailed) == []
    ensures |DeliveryTimes(deliveries, Notifications)| == |deliveries|
    ensures DeliveryTimes(deliveries, Events) == DeliveryTimes(deliveries, RetryRecovered) ==
            DeliveryTimes(deliveries, FailureRecovered) == []
  {
    if rows != [] {
      TimesAreTotals(rows[..|rows| - 1], deliveries);
    } else if deliveries != [] {
      TimesAreTotals(rows, deliveries[..|deliveries| - 1]);
    }
  }

  /** The trend adds up: events, recovered retries and failures, notifications and failed notifications, summed
      over its points, are the totals the snapshot reports. */
  lemma TrendSumsAreTotals(s: Snapshot, rows: seq<Row>, deliveries: seq<Delivery>, width: nat)
    requires width > 0 && Reports(s, rows, deliveries, width)
    ensures ColumnSum(s.points, Events) == s.eventCount
    ensures ColumnSum(s.points, RetryRecovered) == s.retry.count
    ensures ColumnSum(s.points, FailureRecovered) == s.failure.count
    ensures ColumnSum(s.points, Notifications) == s.total
    ensures ColumnSum(s.points, NotificationsFailed) == s.failed
  {
    TimesAreTotals(rows, deliveries);
    TrendConserves(s.points, rows, deliveries, width, Events);
    TrendConserves(s.points, rows, deliveries, width, RetryRecovered);
    TrendConserves(s.points, rows, deliveries, width, FailureRecovered);
    TrendConserves(s.points, rows, deliveries, width, Notifications);
    TrendConserves(s.points, rows, deliveries, width, NotificationsFailed);
  }
}
