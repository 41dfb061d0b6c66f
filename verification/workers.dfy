/** Worker reports, read by order of delivery and by time. */
module WorkerReports {
  import opened Common
  import opened RuntimeContracts
  import opened Events
  import opened Sorting

  datatype WorkerHealth = WorkerHealth(workerId: string, report: WorkerReport, lastSeenAt: int)

  /** A worker report the projectors can read. */
  predicate IsReadable(e: Event) {
    e.eventType.WorkerHealthReported? && e.payload.workerId.Some? && e.payload.report.Some?
  }

  predicate Unreadable(e: Event) {
    e.eventType.WorkerHealthReported? && !IsReadable(e)
  }

  function HealthOf(e: Event): WorkerHealth
    requires IsReadable(e)
  {
    WorkerHealth(e.payload.workerId.value, e.payload.report.value, e.occurredAt)
  }

  predicate ReportsOn(e: Event, workerId: string) {
    IsReadable(e) && e.payload.workerId.value == workerId
  }

  // ----- as delivered -----

  /** The last readable report of a worker, whatever its time. */
  function LastReport(log: seq<Event>, workerId: string): Option<WorkerHealth> {
    if log == [] then None
    else
      var e := log[|log| - 1];
      if ReportsOn(e, workerId) then Some(HealthOf(e)) else LastReport(log[..|log| - 1], workerId)
  }

  /** Event p is the last report on the worker that can be read. */
  ghost predicate LastReportedAt(log: seq<Event>, workerId: string, p: int) {
    && 0 <= p < |log| && log[p].eventType.WorkerHealthReported?
    && log[p].payload.workerId == Some(workerId) && log[p].payload.report.Some?
    && forall j :: p < j < |log| && log[j].eventType.WorkerHealthReported? && log[j].payload.report.Some? ==>
         log[j].payload.workerId != Some(workerId)
  }

  /** What is shown of a worker is what its last readable report says, and when; nothing, when there is none. */
  lemma {:induction false} LastReportTells(log: seq<Event>, workerId: string)
    ensures forall p :: LastReportedAt(log, workerId, p) ==>
              LastReport(log, workerId) ==
              Some(WorkerHealth(workerId, log[p].payload.report.value, log[p].occurredAt))
    ensures LastReport(log, workerId).Some? ==> exists p :: LastReportedAt(log, workerId, p)
  {
    if log != [] {
      var n := |log| - 1;
      LastReportTells(log[..n], workerId);
      if ReportsOn(log[n], workerId) {
        assert LastReportedAt(log, workerId, n);
      } else {
        forall p ensures LastReportedAt(log, workerId, p) <==> LastReportedAt(log[..n], workerId, p) {
          assert forall j :: 0 <= j < n ==> log[..n][j] == log[j];
        }
      }
    }
  }

  /** The workers in the order in which they first report. */
  function FirstReported(log: seq<Event>): seq<string> {
    if log == [] then []
    else
      var e := log[|log| - 1];
      var earlier := FirstReported(log[..|log| - 1]);
      if IsReadable(e) && e.payload.workerId.value !in earlier then earlier + [e.payload.workerId.value] else earlier
  }

  lemma {:induction false} ReportedExactly(log: seq<Event>, workerId: string)
    ensures workerId in FirstReported(log) <==> LastReport(log, workerId).Some?
  {
    if log != [] { ReportedExactly(log[..|log| - 1], workerId); }
  }

  /** Each worker is listed once. */
  lemma {:induction false} ReportedOnce(log: seq<Event>)
    ensures forall i, j :: 0 <= i < j < |FirstReported(log)| ==> FirstReported(log)[i] != FirstReported(log)[j]
  {
    if log != [] { ReportedOnce(log[..|log| - 1]); }
  }

  // ----- by time -----

  /** The first report of a worker among rows. */
  function FirstReport(rows: seq<Event>, workerId: string): Option<WorkerHealth> {
    if rows == [] then None
    else if ReportsOn(rows[0], workerId) then Some(HealthOf(rows[0]))
    else FirstReport(rows[1..], workerId)
  }

  /** Row i stops the projection: it has no worker id, or it is the first of its worker and unreadable. */
  predicate Stops(rows: seq<Event>, i: nat)
    requires i < |rows|
  {
    || rows[i].payload.workerId.None?
    || (rows[i].payload.report.None? && !SeenBefore(rows, i, rows[i].payload.workerId.value))
  }

  predicate SeenBefore(rows: seq<Event>, n: nat, workerId: string)
    requires n <= |rows|
  {
    exists j :: 0 <= j < n && rows[j].payload.workerId == Some(workerId)
  }

  lemma {:induction false} FirstReportSnoc(rows: seq<Event>, e: Event, workerId: string)
    ensures FirstReport(rows + [e], workerId) ==
            if FirstReport(rows, workerId).Some? then FirstReport(rows, workerId)
            else if ReportsOn(e, workerId) then Some(HealthOf(e)) else None
  {
    if rows == [] {
      assert [] + [e] == [e] && [e][1..] == [];
    } else {
      FirstReportSnoc(rows[1..], e, workerId);
      assert (rows + [e])[1..] == rows[1..] + [e];
    }
  }

  /** The workers and what is shown of each, in the order of the list. */
  ghost predicate Shows(list: seq<WorkerHealth>, ids: seq<string>, rows: seq<Event>) {
    |list| == |ids| && forall i :: 0 <= i < |ids| ==> FirstReport(rows, ids[i]) == Some(list[i])
  }

  ghost predicate NeverStops(rows: seq<Event>) {
    forall i :: 0 <= i < |rows| ==> !Stops(rows, i)
  }

  /** As long as no row stops the projection, a worker has been seen when it has been reported on. */
  lemma {:induction false} SeenIsReported(rows: seq<Event>, n: nat, workerId: string)
    requires n <= |rows| && forall i :: 0 <= i < n ==> !Stops(rows, i) && rows[i].eventType.WorkerHealthReported?
    ensures SeenBefore(rows, n, workerId) <==> workerId in FirstReported(rows[..n])
  {
    if n > 0 {
      SeenIsReported(rows, n - 1, workerId);
      assert rows[..n][..n - 1] == rows[..n - 1];
      assert SeenBefore(rows, n, workerId) <==>
             SeenBefore(rows, n - 1, workerId) || rows[n - 1].payload.workerId == Some(workerId);
    }
  }

  lemma ShowsOneMore(list: seq<WorkerHealth>, rows: seq<Event>, e: Event)
    requires Shows(list, FirstReported(rows), rows)
    ensures if IsReadable(e) && e.payload.workerId.value !in FirstReported(rows)
            then Shows(list + [HealthOf(e)], FirstReported(rows + [e]), rows + [e])
            else Shows(list, FirstReported(rows + [e]), rows + [e])
  {
    var ids := FirstReported(rows);
    assert (rows + [e])[..|rows|] == rows;
    forall i | 0 <= i < |ids| ensures FirstReport(rows + [e], ids[i]) == Some(list[i]) {
      FirstReportSnoc(rows, e, ids[i]);
    }
    if IsReadable(e) && e.payload.workerId.value !in ids {
      FirstReportSnoc(rows, e, e.payload.workerId.value);
      ReportedFirst(rows, e.payload.workerId.value);
    }
  }

  lemma {:induction false} ReportedFirst(rows: seq<Event>, workerId: string)
    ensures workerId in FirstReported(rows) <==> FirstReport(rows, workerId).Some?
  {
    if rows != [] {
      var n := |rows| - 1;
      ReportedFirst(rows[..n], workerId);
      FirstReportSnoc(rows[..n], rows[n], workerId);
      assert rows[..n] + [rows[n]] == rows;
    }
  }

  /** The loop over the rows of the query: each worker's first row counts, workers are listed as they come, and a row
      that cannot be read raises, unless its worker has been seen. */
  method ProjectWorkers(rows: seq<Event>) returns (listed: Option<seq<WorkerHealth>>)
    requires forall i :: 0 <= i < |rows| ==> rows[i].eventType.WorkerHealthReported?
    ensures listed.Some? <==> NeverStops(rows)
    ensures listed.Some? ==> Shows(listed.value, FirstReported(rows), rows)
  {
    var list: seq<WorkerHealth> := [];
    var found: set<string> := {};
    for i := 0 to |rows|
      invariant forall j :: 0 <= j < i ==> !Stops(rows, j)
      invariant forall w: string :: w in found <==> SeenBefore(rows, i, w)
      invariant Shows(list, FirstReported(rows[..i]), rows[..i])
    {
      var row := rows[i];
      forall w: string ensures SeenBefore(rows, i + 1, w) <==>
          SeenBefore(rows, i, w) || row.payload.workerId == Some(w) {}
      assert rows[..i + 1] == rows[..i] + [row];
      ShowsOneMore(list, rows[..i], row);
      if row.payload.workerId.None? {
        assert Stops(rows, i);
        return None;
      }
      var workerId := row.payload.workerId.value;
      SeenIsReported(rows, i, workerId);
      if workerId in found { continue; }
      if row.payload.report.None? {
        assert Stops(rows, i);
        return None;
      }
      found := found + {workerId};
      list := list + [WorkerHealth(workerId, row.payload.report.value, row.occurredAt)];
    }
    assert rows[..|rows|] == rows;
    listed := Some(list);
  }

  // ----- when the projection returns at all -----

  /** The worker reports of a log. */
  function ReportsIn(log: seq<Event>): seq<Event> {
    if log == [] then []
    else
      var earlier := ReportsIn(log[..|log| - 1]);
      if log[|log| - 1].eventType.WorkerHealthReported? then earlier + [log[|log| - 1]] else earlier
  }

  lemma {:induction false} ReportsAreReports(log: seq<Event>)
    ensures forall x :: x in ReportsIn(log) ==> x.eventType.WorkerHealthReported?
  {
    if log != [] { ReportsAreReports(log[..|log| - 1]); }
  }

  function Age(e: Event): int {
    -e.occurredAt
  }

  /** An order the query may return the reports in: newest first, equal times in any order. */
  ghost predicate QueryOrder(rows: seq<Event>, reports: seq<Event>) {
    Ordered(rows, Age) && multiset(rows) == multiset(reports)
  }

  lemma OrderKeepsReports(rows: seq<Event>, reports: seq<Event>)
    requires QueryOrder(rows, reports)
    ensures forall x :: x in rows <==> x in reports
  {
    forall x ensures x in rows <==> x in reports {
      assert x in multiset(rows) <==> x in multiset(reports);
    }
  }

  lemma WithoutOne(reports: seq<Event>, x: Event) returns (others: seq<Event>)
    requires x in reports
    ensures multiset(reports) == multiset(others) + multiset{x}
  {
    var i :| 0 <= i < |reports| && reports[i] == x;
    others := reports[..i] + reports[i + 1..];
    assert reports == reports[..i] + [x] + reports[i + 1..];
  }

  /** Any report can come in front of those of its time. */
  lemma OrderWithFirst(reports: seq<Event>, x: Event) returns (rows: seq<Event>, p: nat)
    requires x in reports
    ensures QueryOrder(rows, reports) && p < |rows| && rows[p] == x
    ensures forall j :: 0 <= j < p ==> rows[j].occurredAt > x.occurredAt
  {
    var others := WithoutOne(reports, x);
    var sorted := Sort(others, Age);
    SortOrders(others, Age);
    p := InsertPlace(x, sorted, Age);
    InsertOrders(x, sorted, Age);
    InsertKeeps(x, sorted, Age);
    rows := Insert(x, sorted, Age);
    forall j | 0 <= j < p ensures rows[j].occurredAt > x.occurredAt {
      assert Age(sorted[j]) < Age(x);
    }
  }

  ghost predicate AllNamed(reports: seq<Event>) {
    forall x :: x in reports ==> x.payload.workerId.Some?
  }

  /** A report of the same worker is newer than x. */
  ghost predicate HasNewer(reports: seq<Event>, x: Event) {
    exists y :: y in reports && y.payload.workerId == x.payload.workerId && y.occurredAt > x.occurredAt
  }

  ghost predicate UnreadableOutdated(reports: seq<Event>) {
    forall x :: x in reports && x.payload.report.None? ==> HasNewer(reports, x)
  }

  lemma OutdatedIsSeen(rows: seq<Event>, i: nat)
    requires Ordered(rows, Age) && i < |rows| && rows[i].payload.workerId.Some? && HasNewer(rows, rows[i])
    ensures SeenBefore(rows, i, rows[i].payload.workerId.value)
  {
    var y :| y in rows && y.payload.workerId == rows[i].payload.workerId && y.occurredAt > rows[i].occurredAt;
    var j :| 0 <= j < |rows| && rows[j] == y;
    assert j >= i ==> Age(rows[i]) <= Age(rows[j]);
  }

  lemma UnreadableCanStop(reports: seq<Event>, x: Event) returns (rows: seq<Event>, p: nat)
    requires x in reports && x.payload.report.None? && !HasNewer(reports, x)
    ensures QueryOrder(rows, reports) && p < |rows| && Stops(rows, p)
  {
    rows, p := OrderWithFirst(reports, x);
    OrderKeepsReports(rows, reports);
    forall j | 0 <= j < p ensures rows[j].payload.workerId != x.payload.workerId {
      assert rows[j] in reports;
    }
  }

  /** Whatever order equal times are returned in, no row stops the projection: if and only if every report names a
      worker, and every unreadable one has a newer report of the same worker. */
  lemma NeverStopsExactly(reports: seq<Event>)
    ensures (forall rows :: QueryOrder(rows, reports) ==> NeverStops(rows))
       <==> AllNamed(reports) && UnreadableOutdated(reports)
  {
    if forall rows :: QueryOrder(rows, reports) ==> NeverStops(rows) {
      forall x | x in reports ensures x.payload.workerId.Some? && (x.payload.report.None? ==> HasNewer(reports, x)) {
        if x.payload.report.None? && !HasNewer(reports, x) {
          var stopped, q := UnreadableCanStop(reports, x);
          assert false;
        }
        var rows, p := OrderWithFirst(reports, x);
        assert !Stops(rows, p);
      }
    }
    if AllNamed(reports) && UnreadableOutdated(reports) {
      forall rows: seq<Event> | QueryOrder(rows, reports) ensures NeverStops(rows) {
        OrderKeepsReports(rows, reports);
        forall i | 0 <= i < |rows| ensures !Stops(rows, i) {
          assert rows[i] in reports;
          if rows[i].payload.report.None? {
            assert HasNewer(rows, rows[i]);
            OutdatedIsSeen(rows, i);
          }
        }
      }
    }
  }

  // ----- when the two agree -----

  /** No readable report of the worker is newer than this one. */
  ghost predicate IsNewest(reports: seq<Event>, workerId: string, x: Event) {
    && x in reports && ReportsOn(x, workerId)
    && forall y :: y in reports && ReportsOn(y, workerId) ==> y.occurredAt <= x.occurredAt
  }

  /** Every newest report of the worker says the same as the last delivered one. */
  ghost predicate NewestAreLast(log: seq<Event>, workerId: string) {
    forall x :: IsNewest(ReportsIn(log), workerId, x) ==> LastReport(log, workerId) == Some(HealthOf(x))
  }

  lemma {:induction false} FirstIsNewest(rows: seq<Event>, workerId: string) returns (x: Event)
    requires Ordered(rows, Age) && FirstReport(rows, workerId).Some?
    ensures IsNewest(rows, workerId, x) && FirstReport(rows, workerId) == Some(HealthOf(x))
  {
    if ReportsOn(rows[0], workerId) {
      x := rows[0];
      forall y | y in rows ensures y.occurredAt <= x.occurredAt {
        var j :| 0 <= j < |rows| && rows[j] == y;
        assert Age(rows[0]) <= Age(rows[j]);
      }
    } else {
      assert forall i :: 0 <= i < |rows| - 1 ==> rows[1..][i] == rows[i + 1];
      x := FirstIsNewest(rows[1..], workerId);
      assert rows == [rows[0]] + rows[1..];
    }
  }

  lemma {:induction false} FirstReportAt(rows: seq<Event>, workerId: string, p: nat)
    requires p < |rows| && ReportsOn(rows[p], workerId) && forall j :: 0 <= j < p ==> !ReportsOn(rows[j], workerId)
    ensures FirstReport(rows, workerId) == Some(HealthOf(rows[p]))
  {
    if p > 0 { FirstReportAt(rows[1..], workerId, p - 1); }
  }

  /** Whichever newest report one names, some order of the query puts it first. */
  lemma AnyNewestCanBeFirst(reports: seq<Event>, workerId: string, x: Event) returns (rows: seq<Event>)
    requires IsNewest(reports, workerId, x)
    ensures QueryOrder(rows, reports) && FirstReport(rows, workerId) == Some(HealthOf(x))
  {
    var p;
    rows, p := OrderWithFirst(reports, x);
    OrderKeepsReports(rows, reports);
    forall j | 0 <= j < p ensures !ReportsOn(rows[j], workerId) { assert rows[j] in reports; }
    FirstReportAt(rows, workerId, p);
  }

  lemma {:induction false} FirstReportExists(rows: seq<Event>, workerId: string)
    ensures FirstReport(rows, workerId).Some? <==> exists x :: x in rows && ReportsOn(x, workerId)
  {
    if rows != [] {
      FirstReportExists(rows[1..], workerId);
      assert rows == [rows[0]] + rows[1..];
    }
  }

  lemma {:induction false} LastReportExists(log: seq<Event>, workerId: string)
    ensures LastReport(log, workerId).Some? <==> exists x :: x in ReportsIn(log) && ReportsOn(x, workerId)
  {
    if log != [] { LastReportExists(log[..|log| - 1], workerId); }
  }

  /** The projection by time shows of the worker the last report delivered. */
  predicate ShowsLast(rows: seq<Event>, log: seq<Event>, workerId: string) {
    FirstReport(rows, workerId) == LastReport(log, workerId)
  }

  lemma NewestIsFirst(log: seq<Event>, workerId: string, rows: seq<Event>)
    requires QueryOrder(rows, ReportsIn(log)) && NewestAreLast(log, workerId)
    ensures ShowsLast(rows, log, workerId)
  {
    OrderKeepsReports(rows, ReportsIn(log));
    FirstReportExists(rows, workerId);
    LastReportExists(log, workerId);
    if FirstReport(rows, workerId).Some? {
      var x := FirstIsNewest(rows, workerId);
      assert IsNewest(ReportsIn(log), workerId, x);
    }
  }

  lemma LastIsNewest(log: seq<Event>, workerId: string, x: Event)
    requires forall rows :: QueryOrder(rows, ReportsIn(log)) ==> ShowsLast(rows, log, workerId)
    requires IsNewest(ReportsIn(log), workerId, x)
    ensures LastReport(log, workerId) == Some(HealthOf(x))
  {
    var rows := AnyNewestCanBeFirst(ReportsIn(log), workerId, x);
    assert ShowsLast(rows, log, workerId);
  }

  /** For every log and worker: whatever order equal times are returned in, the projection by time returns, and shows
      of the worker the last report delivered, if and only if every report names a worker, every unreadable one has a
      newer report of the same worker, and every newest report of the worker says the same as the last delivered. */
  lemma ReportsAgreeExactly(log: seq<Event>, workerId: string)
    ensures (forall rows :: QueryOrder(rows, ReportsIn(log)) ==> NeverStops(rows) && ShowsLast(rows, log, workerId))
       <==> AllNamed(ReportsIn(log)) && UnreadableOutdated(ReportsIn(log)) && NewestAreLast(log, workerId)
  {
    NeverStopsExactly(ReportsIn(log));
    if forall rows :: QueryOrder(rows, ReportsIn(log)) ==> ShowsLast(rows, log, workerId) {
      forall x | IsNewest(ReportsIn(log), workerId, x) { LastIsNewest(log, workerId, x); }
    }
    if NewestAreLast(log, workerId) {
      forall rows | QueryOrder(rows, ReportsIn(log)) { NewestIsFirst(log, workerId, rows); }
    }
  }

  // ----- when the whole lists agree -----

  /** What the in-memory projector lists. */
  ghost predicate ListsLast(list: seq<WorkerHealth>, log: seq<Event>) {
    && |list| == |FirstReported(log)|
    && forall i :: 0 <= i < |list| ==> LastReport(log, FirstReported(log)[i]) == Some(list[i])
  }

  /** The projection by time returns this list. */
  ghost predicate ListsFirst(list: seq<WorkerHealth>, rows: seq<Event>) {
    NeverStops(rows) && Shows(list, FirstReported(rows), rows)
  }

  /** Along the list, the reports go strictly back in time. */
  ghost predicate SeenLatestFirst(list: seq<WorkerHealth>) {
    forall i, j :: 0 <= i < j < |list| ==> list[i].lastSeenAt > list[j].lastSeenAt
  }

  lemma {:induction false} FirstReportedPrefix(rows: seq<Event>, p: nat)
    requires p <= |rows|
    ensures FirstReported(rows[..p]) <= FirstReported(rows)
    decreases |rows| - p
  {
    if p < |rows| {
      FirstReportedPrefix(rows, p + 1);
      assert rows[..p + 1][..p] == rows[..p];
    } else {
      assert rows[..p] == rows;
    }
  }

  /** A worker whose reports are all no newer than a report of another can be listed after it. */
  lemma CanBeListedFirst(reports: seq<Event>, x: Event, other: string) returns (rows: seq<Event>)
    requires x in reports && IsReadable(x) && x.payload.workerId.value != other
    requires forall y :: y in reports && ReportsOn(y, other) ==> y.occurredAt <= x.occurredAt
    ensures QueryOrder(rows, reports)
    ensures forall i, j :: 0 <= i < j < |FirstReported(rows)| ==>
            !(FirstReported(rows)[i] == other && FirstReported(rows)[j] == x.payload.workerId.value)
  {
    var p;
    rows, p := OrderWithFirst(reports, x);
    OrderKeepsReports(rows, reports);
    var seen := FirstReported(rows[..p + 1]);
    FirstReportedPrefix(rows, p + 1);
    assert rows[..p + 1][..p] == rows[..p];
    forall j | 0 <= j <= p ensures !ReportsOn(rows[j], other) { assert rows[j] in reports; }
    NotReported(rows[..p + 1], other);
    ReportedOnce(rows);
    var k :| 0 <= k < |seen| && seen[k] == x.payload.workerId.value;
    assert FirstReported(rows)[k] == x.payload.workerId.value;
    assert forall i :: 0 <= i < |seen| ==> FirstReported(rows)[i] == seen[i] != other;
  }

  lemma {:induction false} NotReported(rows: seq<Event>, workerId: string)
    requires forall j :: 0 <= j < |rows| ==> !ReportsOn(rows[j], workerId)
    ensures workerId !in FirstReported(rows)
  {
    if rows != [] { NotReported(rows[..|rows| - 1], workerId); }
  }

  lemma SeenNoEarlier(rows: seq<Event>, e: Event, workerId: string)
    requires Ordered(rows + [e], Age) && FirstReport(rows, workerId).Some?
    ensures FirstReport(rows, workerId).value.lastSeenAt >= e.occurredAt
  {
    var all := rows + [e];
    assert forall i :: 0 <= i < |rows| ==> all[i] == rows[i];
    var x := FirstIsNewest(rows, workerId);
    var k :| 0 <= k < |rows| && rows[k] == x;
    assert Age(all[k]) <= Age(all[|rows|]);
  }

  /** The projection by time lists workers by when they were last seen, latest first. */
  lemma {:induction false} ListedByTime(rows: seq<Event>, i: nat, j: nat)
    requires Ordered(rows, Age) && i < j < |FirstReported(rows)|
    ensures var a, b := FirstReport(rows, FirstReported(rows)[i]), FirstReport(rows, FirstReported(rows)[j]);
            a.Some? && b.Some? && a.value.lastSeenAt >= b.value.lastSeenAt
  {
    var n := |rows| - 1;
    var init, e, ids := rows[..n], rows[n], FirstReported(rows[..n]);
    assert rows == init + [e];
    ReportedFirst(init, ids[i]);
    FirstReportSnoc(init, e, ids[i]);
    if j < |ids| {
      ListedByTime(init, i, j);
      FirstReportSnoc(init, e, ids[j]);
    } else {
      ReportedFirst(init, e.payload.workerId.value);
      FirstReportSnoc(init, e, e.payload.workerId.value);
      SeenNoEarlier(init, e, ids[i]);
    }
  }

  function LastSeenAge(log: seq<Event>, workerId: string): int {
    var last := LastReport(log, workerId);
    if last.Some? then -last.value.lastSeenAt else 0
  }

  /** The same workers are listed, in the one order of their last reports. */
  lemma SameWorkersListed(log: seq<Event>, list: seq<WorkerHealth>, rows: seq<Event>)
    requires ListsLast(list, log) && SeenLatestFirst(list)
    requires QueryOrder(rows, ReportsIn(log)) && forall w: string :: ShowsLast(rows, log, w)
    ensures FirstReported(rows) == FirstReported(log)
  {
    var ids, mem, key := FirstReported(rows), FirstReported(log), (w: string) => LastSeenAge(log, w);
    ReportedOnce(rows);
    forall w: string ensures w in mem <==> w in ids {
      assert ShowsLast(rows, log, w);
      ReportedFirst(rows, w);
      ReportedExactly(log, w);
    }
    forall i, j | 0 <= i < j < |ids| ensures key(ids[i]) <= key(ids[j]) {
      ListedByTime(rows, i, j);
      assert ShowsLast(rows, log, ids[i]) && ShowsLast(rows, log, ids[j]);
    }
    forall i, j | 0 <= i < j < |mem| ensures key(mem[i]) < key(mem[j]) {
      assert list[i].lastSeenAt > list[j].lastSeenAt;
    }
    StrictOrderIsOnly(mem, ids, key);
  }

  lemma ShownIsTheirs(rows: seq<Event>, workerId: string)
    ensures var shown := FirstReport(rows, workerId); shown.Some? ==> shown.value.workerId == workerId
  {
  }

  lemma {:induction false} LastIsTheirs(log: seq<Event>, workerId: string)
    ensures var last := LastReport(log, workerId); last.Some? ==> last.value.workerId == workerId
  {
    if log != [] { LastIsTheirs(log[..|log| - 1], workerId); }
  }

  /** Both list the same: then the same workers in the same order, and the same of each. */
  lemma SameList(log: seq<Event>, list: seq<WorkerHealth>, rows: seq<Event>)
    requires ListsLast(list, log) && ListsFirst(list, rows)
    ensures FirstReported(rows) == FirstReported(log) && forall w: string :: ShowsLast(rows, log, w)
  {
    var ids, mem := FirstReported(rows), FirstReported(log);
    forall i | 0 <= i < |ids| ensures ids[i] == mem[i] {
      ShownIsTheirs(rows, ids[i]);
      LastIsTheirs(log, mem[i]);
    }
    forall w: string ensures ShowsLast(rows, log, w) {
      ReportedFirst(rows, w);
      ReportedExactly(log, w);
      if i :| 0 <= i < |ids| && ids[i] == w { assert FirstReport(rows, w) == Some(list[i]); }
    }
  }

  lemma NewestReport(log: seq<Event>, list: seq<WorkerHealth>, rows: seq<Event>, i: nat) returns (x: Event)
    requires i < |list| && ListsLast(list, log) && QueryOrder(rows, ReportsIn(log)) && ListsFirst(list, rows)
    ensures IsNewest(ReportsIn(log), FirstReported(log)[i], x) && x.occurredAt == list[i].lastSeenAt
  {
    SameList(log, list, rows);
    assert ShowsLast(rows, log, FirstReported(log)[i]);
    x := FirstIsNewest(rows, FirstReported(log)[i]);
    OrderKeepsReports(rows, ReportsIn(log));
  }

  lemma ListedFirstIsNewer(log: seq<Event>, list: seq<WorkerHealth>, i: nat, j: nat)
    requires ListsLast(list, log) && forall rows :: QueryOrder(rows, ReportsIn(log)) ==> ListsFirst(list, rows)
    requires i < j < |list|
    ensures list[i].lastSeenAt > list[j].lastSeenAt
  {
    SortOrders(ReportsIn(log), Age);
    var rows := Sort(ReportsIn(log), Age);
    assert QueryOrder(rows, ReportsIn(log));
    var x := NewestReport(log, list, rows, i);
    var y := NewestReport(log, list, rows, j);
    ReportedOnce(log);
    if x.occurredAt <= y.occurredAt {
      var other := CanBeListedFirst(ReportsIn(log), y, FirstReported(log)[i]);
      SameList(log, list, other);
      assert false;
    }
  }

  /** For every log: whatever order equal times are returned in, the projection by time returns the list the in-memory
      projector keeps, if and only if it agrees on every worker, and the last reports go strictly back in time along
      the order in which workers first reported. */
  lemma ListsAgreeExactly(log: seq<Event>, list: seq<WorkerHealth>)
    requires ListsLast(list, log)
    ensures (forall rows :: QueryOrder(rows, ReportsIn(log)) ==> ListsFirst(list, rows))
       <==> && AllNamed(ReportsIn(log)) && UnreadableOutdated(ReportsIn(log))
            && (forall w: string :: NewestAreLast(log, w)) && SeenLatestFirst(list)
  {
    NeverStopsExactly(ReportsIn(log));
    forall w: string { ReportsAgreeExactly(log, w); }
    if forall rows :: QueryOrder(rows, ReportsIn(log)) ==> ListsFirst(list, rows) {
      forall w: string, rows | QueryOrder(rows, ReportsIn(log)) ensures NeverStops(rows) && ShowsLast(rows, log, w) {
        SameList(log, list, rows);
      }
      forall i, j | 0 <= i < j < |list| { ListedFirstIsNewer(log, list, i, j); }
    }
    if (forall w: string :: NewestAreLast(log, w)) && SeenLatestFirst(list)
       && AllNamed(ReportsIn(log)) && UnreadableOutdated(ReportsIn(log)) {
      forall rows | QueryOrder(rows, ReportsIn(log)) ensures ListsFirst(list, rows) {
        forall w: string ensures ShowsLast(rows, log, w) { NewestIsFirst(log, w, rows); }
        SameWorkersListed(log, list, rows);
        assert forall i :: 0 <= i < |list| ==> ShowsLast(rows, log, FirstReported(log)[i]);
      }
    }
  }

  /** A case in which the two part: the report delivered last is the older one. */
  lemma ReportsCanDiffer(newer: Event, older: Event)
    requires ReportsOn(newer, "w") && ReportsOn(older, "w") && older.occurredAt < newer.occurredAt
    ensures LastReport([newer, older], "w") == Some(HealthOf(older))
    ensures QueryOrder([newer, older], ReportsIn([newer, older]))
    ensures FirstReport([newer, older], "w") == Some(HealthOf(newer))
  {
    TwoReports(newer, older);
    assert [newer, older][..1] == [newer];
  }

  lemma TwoReports(x: Event, y: Event)
    requires x.eventType.WorkerHealthReported? && y.eventType.WorkerHealthReported?
    ensures ReportsIn([x, y]) == [x, y]
  {
    assert [x, y][..1] == [x] && [x][..0] == [];
    assert ReportsIn([x]) == [x] && ReportsIn([x, y]) == [x] + [y];
  }

  /** Another: one unreadable report, newer than all others of its worker, and the projection by time returns nothing
      for any worker, while the in-memory projector goes on showing the report before it. */
  lemma ProjectionCanStop(good: Event, bad: Event, rows: seq<Event>)
    requires ReportsOn(good, "w") && Unreadable(bad) && bad.payload.workerId == Some("w")
    requires good.occurredAt < bad.occurredAt
    requires QueryOrder(rows, ReportsIn([good, bad]))
    ensures LastReport([good, bad], "w") == Some(HealthOf(good))
    ensures !NeverStops(rows)
  {
    TwoReports(good, bad);
    assert [good, bad][..1] == [good];
    OrderKeepsReports(rows, [good, bad]);
    var x := rows[0];
    assert |rows| == |multiset(rows)| == 2;
    var j :| 0 <= j < |rows| && rows[j] == bad;
    assert j > 0 ==> Age(rows[0]) <= Age(rows[j]);
    assert Stops(rows, 0);
  }
}
