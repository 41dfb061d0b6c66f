/** Recovery of stale claims: scan once, then force each scanned claim back, one session per claim. */
module Recovery {
  import opened Common
  import opened Leases
  import opened RuntimePersistence

  /** The decision is always to requeue. */
  datatype RecoveryResult = RecoveryResult(claimId: string, taskId: string, runId: string)

  function ResultFor(c: Claim): RecoveryResult {
    RecoveryResult(c.claimId, c.taskId, c.runId)
  }

  /** The claims a scan at this time finds. */
  function StaleIds(claims: map<string, Claim>, now: int): set<string> {
    SweptIds(claims, Sweep(None, {}, now))
  }

  /** The session for one scanned claim: it sweeps the claim's whole run. */
  function ForcedSweep(c: Claim, now: int): Sweep {
    Sweep(Some(c.runId), {c.claimId}, now)
  }

  /** The tables after the first n scanned claims; the clock is read anew for each, and `clock(0)` is the scan. */
  function RecoverTo(db: Db, stale: seq<Claim>, clock: nat -> int, n: nat): Db
    requires n <= |stale|
  {
    if n == 0 then db else SweptDb(RecoverTo(db, stale, clock, n - 1), ForcedSweep(stale[n - 1], clock(n)))
  }

  /** The results reported for them: one for each session that took something back. */
  function ResultsTo(db: Db, stale: seq<Claim>, clock: nat -> int, n: nat): seq<RecoveryResult>
    requires n <= |stale|
  {
    if n == 0 then []
    else
      var earlier := ResultsTo(db, stale, clock, n - 1);
      if SweptIds(RecoverTo(db, stale, clock, n - 1).claims, ForcedSweep(stale[n - 1], clock(n))) == {} then earlier
      else earlier + [ResultFor(stale[n - 1])]
  }

  method RecoverStaleClaims(service: RuntimePersistenceService, clock: nat -> int)
    returns (results: seq<RecoveryResult>, ghost stale: seq<Claim>)
    requires Keyed(service.claims)
    modifies service
    ensures Lists(stale, old(service.claims), StaleIds(old(service.claims), clock(0)))
    ensures service.Contents() == RecoverTo(old(service.Contents()), stale, clock, |stale|)
    ensures results == ResultsTo(old(service.Contents()), stale, clock, |stale|)
  {
    ghost var before := service.Contents();
    var found := service.ScanAllStaleClaims(clock(0));
    stale, results := found, [];
    for i := 0 to |found|
      invariant Keyed(service.claims)
      invariant service.Contents() == RecoverTo(before, found, clock, i)
      invariant results == ResultsTo(before, found, clock, i)
    {
      var c := found[i];
      ghost var swept := SweptIds(service.claims, ForcedSweep(c, clock(i + 1)));
      SweepKeepsKeyed(service.Contents(), ForcedSweep(c, clock(i + 1)));
      var reclaimed := service.ReclaimStaleClaims(c.runId, {c.claimId}, clock(i + 1));
      ListsSome(reclaimed, service.claims, swept);
      if reclaimed == [] { continue; }
      results := results + [RecoveryResult(c.claimId, c.taskId, c.runId)];
    }
  }

  lemma SweepKeepsKeyed(db: Db, sweep: Sweep)
    requires Keyed(db.claims)
    ensures Keyed(SweptDb(db, sweep).claims)
  {
  }

  lemma ListsSome(list: seq<Claim>, claims: map<string, Claim>, ids: set<string>)
    requires Lists(list, claims, ids)
    ensures list == [] <==> ids == {}
  {
    if list != [] { assert list[0].claimId in ids; }
  }

  // ----- with a moving clock -----

  ghost predicate Advances(clock: nat -> int) {
    forall i: nat, j: nat :: i <= j ==> clock(i) <= clock(j)
  }

  /** The list holds claims of the table that had run out of lease by then. */
  ghost predicate AllStale(stale: seq<Claim>, claims: map<string, Claim>, now: int) {
    forall i :: 0 <= i < |stale| ==>
      Lookup(claims, stale[i].claimId) == Some(stale[i]) && stale[i].status.Active? && LeaseOver(stale[i], now)
  }

  /** The runs of the first n scanned claims. */
  function RunsOf(stale: seq<Claim>, n: nat): set<string>
    requires n <= |stale|
  {
    if n == 0 then {} else RunsOf(stale, n - 1) + {stale[n - 1].runId}
  }

  // ----- which sessions report, with a moving clock -----

  /** The session for scanned claim i sweeps the claim's run when this claim has run out of lease. */
  predicate Covers(stale: seq<Claim>, clock: nat -> int, c: Claim, i: nat)
    requires i < |stale|
  {
    stale[i].runId == c.runId && LeaseOver(c, clock(i + 1))
  }

  /** One of the first n sessions covers the claim. */
  predicate Gone(stale: seq<Claim>, clock: nat -> int, c: Claim, n: nat)
    requires n <= |stale|
  {
    exists i: nat :: i < n && Covers(stale, clock, c, i)
  }

  /** A claim row before recovery and after n sessions: taken back if it was active and a session covered it, and as
      it was otherwise. */
  ghost predicate TakenBackIfGone(stale: seq<Claim>, clock: nat -> int, before: Claim, after: Claim, n: nat)
    requires n <= |stale|
  {
    if before.status.Active? && Gone(stale, clock, before, n)
    then after.status.Reclaimed? && SameLease(before, after)
    else after == before
  }

  lemma GoneOneMore(stale: seq<Claim>, clock: nat -> int, c: Claim, n: nat)
    requires n < |stale|
    ensures Gone(stale, clock, c, n + 1) <==> Gone(stale, clock, c, n) || Covers(stale, clock, c, n)
  {
  }

  /** One session on one row: forcing a claim adds nothing, since a scanned claim stays out of lease. */
  lemma SweepRowExactly(claims: map<string, Claim>, id: string, after: Claim, stale: seq<Claim>, clock: nat -> int,
      n: nat)
    requires id in claims && claims[id].claimId == id && n < |stale|
    requires Lookup(claims, stale[n].claimId) == Some(stale[n]) && LeaseOver(stale[n], clock(n + 1))
    requires TakenBackIfGone(stale, clock, claims[id], after, n)
    ensures var sweep := ForcedSweep(stale[n], clock(n + 1));
            && (Sweeps(after, sweep) <==> after.status.Active? && Covers(stale, clock, claims[id], n))
            && TakenBackIfGone(stale, clock, claims[id],
                 if Sweeps(after, sweep) then TakenBack(after, sweep.now) else after, n + 1)
  {
    GoneOneMore(stale, clock, claims[id], n);
  }

  lemma StillOver(stale: seq<Claim>, claims: map<string, Claim>, clock: nat -> int, n: nat)
    requires AllStale(stale, claims, clock(0)) && Advances(clock) && n < |stale|
    ensures LeaseOver(stale[n], clock(n + 1)) && Lookup(claims, stale[n].claimId) == Some(stale[n])
  {
    assert clock(0) <= clock(n + 1);
  }

  /** After n sessions, the claims taken back are those that were active and that a session covered. */
  lemma {:induction false} RowAfterSessions(db: Db, stale: seq<Claim>, clock: nat -> int, n: nat, id: string)
    requires id in db.claims && db.claims[id].claimId == id
    requires AllStale(stale, db.claims, clock(0)) && Advances(clock) && n <= |stale|
    ensures id in RecoverTo(db, stale, clock, n).claims
    ensures TakenBackIfGone(stale, clock, db.claims[id], RecoverTo(db, stale, clock, n).claims[id], n)
  {
    if n > 0 {
      RowAfterSessions(db, stale, clock, n - 1, id);
      StillOver(stale, db.claims, clock, n - 1);
      SweepRowExactly(db.claims, id, RecoverTo(db, stale, clock, n - 1).claims[id], stale, clock, n - 1);
    }
  }

  lemma {:induction false} SameRows(db: Db, stale: seq<Claim>, clock: nat -> int, n: nat)
    requires n <= |stale|
    ensures RecoverTo(db, stale, clock, n).claims.Keys == db.claims.Keys
  {
    if n > 0 { SameRows(db, stale, clock, n - 1); }
  }

  lemma ListedAreStale(stale: seq<Claim>, claims: map<string, Claim>, now: int)
    requires Lists(stale, claims, StaleIds(claims, now))
    ensures AllStale(stale, claims, now)
    ensures forall id :: id in StaleIds(claims, now) ==> exists i: nat :: i < |stale| && stale[i] == claims[id]
  {
    forall id | id in StaleIds(claims, now) ensures exists i: nat :: i < |stale| && stale[i] == claims[id] {
      var i: nat :| i < |stale| && stale[i].claimId == id;
    }
  }

  /** However the clock advances between sessions, every claim the scan finds ends up reclaimed, and a claim that is
      not active or still in lease at the last reading is not touched. */
  lemma {:induction false} ScannedClaimsReclaimed(db: Db, stale: seq<Claim>, clock: nat -> int, id: string)
    requires Keyed(db.claims) && Lists(stale, db.claims, StaleIds(db.claims, clock(0))) && Advances(clock)
    requires id in db.claims
    ensures RecoverTo(db, stale, clock, |stale|).claims.Keys == db.claims.Keys
    ensures var before, after := db.claims[id], RecoverTo(db, stale, clock, |stale|).claims[id];
            && (id in StaleIds(db.claims, clock(0)) ==> after.status.Reclaimed? && SameLease(before, after))
            && (!before.status.Active? || !LeaseOver(before, clock(|stale|)) ==> after == before)
  {
    ListedAreStale(stale, db.claims, clock(0));
    SameRows(db, stale, clock, |stale|);
    RowAfterSessions(db, stale, clock, |stale|, id);
    ScannedIsGone(db.claims[id], stale, db.claims, clock);
  }

  /** By the end a claim the scan found is covered, and a claim still in lease is not. */
  lemma ScannedIsGone(c: Claim, stale: seq<Claim>, claims: map<string, Claim>, clock: nat -> int)
    requires AllStale(stale, claims, clock(0)) && Advances(clock)
    ensures (exists i: nat :: i < |stale| && stale[i] == c) ==> Gone(stale, clock, c, |stale|)
    ensures !LeaseOver(c, clock(|stale|)) ==> !Gone(stale, clock, c, |stale|)
  {
    if i: nat :| i < |stale| && stale[i] == c {
      StillOver(stale, claims, clock, i);
      assert Covers(stale, clock, c, i);
    }
    if i: nat :| i < |stale| && Covers(stale, clock, c, i) {
      assert clock(i + 1) <= clock(|stale|);
    }
  }

  /** One session on one claim: an active one it forces is taken back, and none that is taken back changes. */
  lemma ForcedIsTaken(claims: map<string, Claim>, c: Claim, now: int, id: string)
    requires id in claims && claims[id].claimId == id && (claims[id].status.Active? || claims[id].status.Reclaimed?)
    requires id == c.claimId ==> claims[id].runId == c.runId
    ensures var after := TakenBackRows(claims, SweptIds(claims, ForcedSweep(c, now)), now);
            && id in after && after[id].claimId == id && after[id].runId == claims[id].runId
            && (after[id].status.Active? || after[id].status.Reclaimed?)
            && (id == c.claimId || claims[id].status.Reclaimed? ==> after[id].status.Reclaimed?)
  {
  }

  /** Whatever the clock does, also backwards: after the session for a scanned claim, the claim is reclaimed. */
  lemma {:induction false} ReclaimedByAnyClock(db: Db, stale: seq<Claim>, clock: nat -> int, n: nat, i: nat)
    requires Keyed(db.claims) && AllStale(stale, db.claims, clock(0)) && i < |stale| && n <= |stale|
    ensures var claims, id := RecoverTo(db, stale, clock, n).claims, stale[i].claimId;
            && id in claims && claims[id].claimId == id && claims[id].runId == stale[i].runId
            && (claims[id].status.Active? || claims[id].status.Reclaimed?)
            && (i < n ==> claims[id].status.Reclaimed?)
  {
    if n > 0 {
      ReclaimedByAnyClock(db, stale, clock, n - 1, i);
      var before := RecoverTo(db, stale, clock, n - 1);
      assert stale[i].claimId == stale[n - 1].claimId ==> stale[i] == stale[n - 1];
      ForcedIsTaken(before.claims, stale[n - 1], clock(n), stale[i].claimId);
    }
  }

  /** Every result names a scanned claim, with its task and its run. */
  lemma {:induction false} ResultsNameClaims(db: Db, stale: seq<Claim>, clock: nat -> int, n: nat)
    requires n <= |stale|
    ensures |ResultsTo(db, stale, clock, n)| <= n
    ensures forall k :: 0 <= k < |ResultsTo(db, stale, clock, n)| ==>
              IsNamed(ResultsTo(db, stale, clock, n)[k], stale, n)
  {
    if n > 0 {
      ResultsNameClaims(db, stale, clock, n - 1);
      var last := ResultFor(stale[n - 1]);
      assert IsNamed(last, stale, n);
      forall r | IsNamed(r, stale, n - 1) ensures IsNamed(r, stale, n) {
        var i :| 0 <= i < n - 1 && r.claimId == stale[i].claimId && r.taskId == stale[i].taskId
            && r.runId == stale[i].runId;
      }
    }
  }

  ghost predicate IsNamed(r: RecoveryResult, stale: seq<Claim>, n: nat)
    requires n <= |stale|
  {
    exists i :: 0 <= i < n && r.claimId == stale[i].claimId && r.taskId == stale[i].taskId && r.runId == stale[i].runId
  }

  /** What session n takes back. */
  function TakenIn(db: Db, stale: seq<Claim>, clock: nat -> int, n: nat): set<string>
    requires n < |stale|
  {
    SweptIds(RecoverTo(db, stale, clock, n).claims, ForcedSweep(stale[n], clock(n + 1)))
  }

  lemma TakenInExactly(db: Db, stale: seq<Claim>, clock: nat -> int, n: nat, id: string)
    requires Keyed(db.claims) && AllStale(stale, db.claims, clock(0)) && Advances(clock) && n < |stale|
    ensures id in TakenIn(db, stale, clock, n) <==>
            id in db.claims && db.claims[id].status.Active? && Covers(stale, clock, db.claims[id], n)
            && !Gone(stale, clock, db.claims[id], n)
  {
    SameRows(db, stale, clock, n);
    StillOver(stale, db.claims, clock, n);
    if id in db.claims {
      RowAfterSessions(db, stale, clock, n, id);
      SweepRowExactly(db.claims, id, RecoverTo(db, stale, clock, n).claims[id], stale, clock, n);
    }
  }

  predicate FirstOfRun(stale: seq<Claim>, n: nat)
    requires n < |stale|
  {
    stale[n].runId !in RunsOf(stale, n)
  }

  lemma {:induction false} RunsOfIs(stale: seq<Claim>, n: nat, r: string)
    requires n <= |stale|
    ensures r in RunsOf(stale, n) <==> exists i: nat :: i < n && stale[i].runId == r
  {
    if n > 0 { RunsOfIs(stale, n - 1, r); }
  }

  /** A session takes back the claim it was started for if and only if it is the first session of its run. */
  lemma OwnClaimTakenExactly(db: Db, stale: seq<Claim>, clock: nat -> int, n: nat)
    requires Keyed(db.claims) && AllStale(stale, db.claims, clock(0)) && Advances(clock) && n < |stale|
    ensures stale[n].claimId in TakenIn(db, stale, clock, n) <==> FirstOfRun(stale, n)
  {
    TakenInExactly(db, stale, clock, n, stale[n].claimId);
    StillOver(stale, db.claims, clock, n);
    RunsOfIs(stale, n, stale[n].runId);
    if i: nat :| i < n && stale[i].runId == stale[n].runId {
      assert clock(0) <= clock(i + 1);
      assert Covers(stale, clock, stale[n], i);
    }
  }

  /** Only first sessions of a run report, among the first n. */
  predicate NoRepeat(db: Db, stale: seq<Claim>, clock: nat -> int, n: nat)
    requires n <= |stale|
  {
    n == 0 || (NoRepeat(db, stale, clock, n - 1)
        && (TakenIn(db, stale, clock, n - 1) != {} ==> FirstOfRun(stale, n - 1)))
  }

  /** The results name exactly these runs, some perhaps more than once. */
  ghost predicate Names(results: seq<RecoveryResult>, runs: set<string>) {
    && (forall i :: 0 <= i < |results| ==> results[i].runId in runs)
    && (forall r :: r in runs ==> exists i :: 0 <= i < |results| && results[i].runId == r)
  }

  ghost predicate NoRunTwice(results: seq<RecoveryResult>) {
    forall i, j :: 0 <= i < j < |results| ==> results[i].runId != results[j].runId
  }

  /** The results name exactly these runs, each once. */
  ghost predicate OnePerRun(results: seq<RecoveryResult>, runs: set<string>) {
    Names(results, runs) && NoRunTwice(results)
  }

  lemma NamesOneMore(results: seq<RecoveryResult>, runs: set<string>, c: Claim)
    requires Names(results, runs)
    ensures Names(results + [ResultFor(c)], runs + {c.runId})
    ensures NoRunTwice(results + [ResultFor(c)]) <==> NoRunTwice(results) && c.runId !in runs
  {
    var more := results + [ResultFor(c)];
    assert more[|results|].runId == c.runId;
    forall r | r in runs ensures exists i :: 0 <= i < |more| && more[i].runId == r {
      var i :| 0 <= i < |results| && results[i].runId == r;
      assert more[i].runId == r;
    }
    if c.runId in runs {
      var i :| 0 <= i < |results| && results[i].runId == c.runId;
      assert more[i].runId == more[|results|].runId;
    }
    if NoRunTwice(more) {
      forall i, j | 0 <= i < j < |results| ensures results[i].runId != results[j].runId {
        assert more[i].runId != more[j].runId;
      }
    }
  }

  /** One session entered into the results, or not when it took nothing back. */
  lemma NamesStep(results: seq<RecoveryResult>, runs: set<string>, c: Claim, took: bool)
    requires Names(results, runs) && (took || c.runId in runs)
    ensures var more := if took then results + [ResultFor(c)] else results;
            Names(more, runs + {c.runId}) && (NoRunTwice(more) <==> NoRunTwice(results) && (took ==> c.runId !in runs))
  {
    NamesOneMore(results, runs, c);
    if c.runId in runs { assert runs + {c.runId} == runs; }
  }

  /** Session n takes something back unless its run was swept before. */
  predicate FirstReports(db: Db, stale: seq<Claim>, clock: nat -> int, n: nat)
    requires n < |stale|
  {
    TakenIn(db, stale, clock, n) != {} || stale[n].runId in RunsOf(stale, n)
  }

  lemma ResultsOneMore(db: Db, stale: seq<Claim>, clock: nat -> int, n: nat)
    requires n < |stale|
    ensures ResultsTo(db, stale, clock, n + 1) ==
            if TakenIn(db, stale, clock, n) != {} then ResultsTo(db, stale, clock, n) + [ResultFor(stale[n])]
            else ResultsTo(db, stale, clock, n)
    ensures RunsOf(stale, n + 1) == RunsOf(stale, n) + {stale[n].runId}
    ensures NoRepeat(db, stale, clock, n + 1) <==>
            NoRepeat(db, stale, clock, n)
                && (TakenIn(db, stale, clock, n) != {} ==> stale[n].runId !in RunsOf(stale, n))
  {
  }

  /** What the results so far say. */
  ghost predicate ResultsTell(db: Db, stale: seq<Claim>, clock: nat -> int, n: nat)
    requires n <= |stale|
  {
    && Names(ResultsTo(db, stale, clock, n), RunsOf(stale, n))
    && (NoRunTwice(ResultsTo(db, stale, clock, n)) <==> NoRepeat(db, stale, clock, n))
  }

  lemma ResultsTellOneMore(db: Db, stale: seq<Claim>, clock: nat -> int, n: nat)
    requires n < |stale| && ResultsTell(db, stale, clock, n) && FirstReports(db, stale, clock, n)
    ensures ResultsTell(db, stale, clock, n + 1)
  {
    ResultsOneMore(db, stale, clock, n);
    NamesStep(ResultsTo(db, stale, clock, n), RunsOf(stale, n), stale[n], TakenIn(db, stale, clock, n) != {});
  }

  predicate FirstsReport(db: Db, stale: seq<Claim>, clock: nat -> int, n: nat)
    requires n <= |stale|
  {
    n == 0 || (FirstsReport(db, stale, clock, n - 1) && FirstReports(db, stale, clock, n - 1))
  }

  lemma {:induction false} FirstSessionsReport(db: Db, stale: seq<Claim>, clock: nat -> int, n: nat)
    requires Keyed(db.claims) && AllStale(stale, db.claims, clock(0)) && Advances(clock) && n <= |stale|
    ensures FirstsReport(db, stale, clock, n)
  {
    if n > 0 {
      FirstSessionsReport(db, stale, clock, n - 1);
      OwnClaimTakenExactly(db, stale, clock, n - 1);
    }
  }

  /** The results name every run seen so far, and none twice exactly as long as only first sessions report. */
  lemma {:induction false} ResultsSoFar(db: Db, stale: seq<Claim>, clock: nat -> int, n: nat)
    requires n <= |stale| && FirstsReport(db, stale, clock, n)
    ensures ResultsTell(db, stale, clock, n)
  {
    if n == 0 {
      NothingToTell(db, stale, clock);
    } else {
      ResultsSoFar(db, stale, clock, n - 1);
      ResultsTellOneMore(db, stale, clock, n - 1);
    }
  }

  lemma NothingToTell(db: Db, stale: seq<Claim>, clock: nat -> int)
    ensures ResultsTell(db, stale, clock, 0)
  {
  }

  /** A claim of the run of sessions i and j is in lease at the first and out of lease at the second. */
  predicate ExpiresBetween(db: Db, stale: seq<Claim>, clock: nat -> int, i: nat, j: nat, id: string)
    requires i < |stale| && j < |stale|
  {
    && i < j && stale[i].runId == stale[j].runId
    && id in db.claims && db.claims[id].status.Active? && db.claims[id].runId == stale[i].runId
    && !LeaseOver(db.claims[id], clock(i + 1)) && LeaseOver(db.claims[id], clock(j + 1))
  }

  ghost predicate LateExpiry(db: Db, stale: seq<Claim>, clock: nat -> int) {
    exists i: nat, j: nat, id: string :: i < |stale| && j < |stale| && ExpiresBetween(db, stale, clock, i, j, id)
  }

  /** The first session after i, up to j, that covers the claim. */
  lemma {:induction false} FirstCover(stale: seq<Claim>, clock: nat -> int, c: Claim, i: nat, j: nat) returns (k: nat)
    requires i < j < |stale| && Covers(stale, clock, c, j)
    ensures i < k <= j && Covers(stale, clock, c, k)
    ensures forall m: nat :: i < m < k ==> !Covers(stale, clock, c, m)
  {
    k := i + 1;
    while !Covers(stale, clock, c, k)
      decreases j - k
      invariant i < k <= j
      invariant forall m: nat :: i < m < k ==> !Covers(stale, clock, c, m)
    {
      k := k + 1;
    }
  }

  /** A late expiry makes a later session of the run report again. */
  lemma LateExpiryRepeats(db: Db, stale: seq<Claim>, clock: nat -> int, i: nat, j: nat, id: string) returns (k: nat)
    requires Keyed(db.claims) && AllStale(stale, db.claims, clock(0)) && Advances(clock)
    requires i < |stale| && j < |stale| && ExpiresBetween(db, stale, clock, i, j, id)
    ensures k < |stale| && id in TakenIn(db, stale, clock, k) && !FirstOfRun(stale, k)
  {
    var c := db.claims[id];
    k := FirstCover(stale, clock, c, i, j);
    forall m: nat | m < k ensures !Covers(stale, clock, c, m) {
      if m <= i { assert clock(m + 1) <= clock(i + 1); }
    }
    TakenInExactly(db, stale, clock, k, id);
    RunsOfIs(stale, k, stale[k].runId);
  }

  lemma LateExpiryMeansRepeat(db: Db, stale: seq<Claim>, clock: nat -> int)
    requires Keyed(db.claims) && AllStale(stale, db.claims, clock(0)) && Advances(clock)
    requires LateExpiry(db, stale, clock)
    ensures exists k: nat :: k < |stale| && TakenIn(db, stale, clock, k) != {} && !FirstOfRun(stale, k)
  {
    var i: nat, j: nat, id: string :| i < |stale| && j < |stale| && ExpiresBetween(db, stale, clock, i, j, id);
    var k := LateExpiryRepeats(db, stale, clock, i, j, id);
  }

  /** A repeated report comes from a late expiry. */
  lemma RepeatIsLateExpiry(db: Db, stale: seq<Claim>, clock: nat -> int, k: nat, id: string)
    requires Keyed(db.claims) && AllStale(stale, db.claims, clock(0)) && Advances(clock)
    requires k < |stale| && id in TakenIn(db, stale, clock, k) && !FirstOfRun(stale, k)
    ensures LateExpiry(db, stale, clock)
  {
    TakenInExactly(db, stale, clock, k, id);
    RunsOfIs(stale, k, stale[k].runId);
    var i: nat :| i < k && stale[i].runId == stale[k].runId;
    assert !Covers(stale, clock, db.claims[id], i);
    assert ExpiresBetween(db, stale, clock, i, k, id);
  }

  lemma {:induction false} NoRepeatIs(db: Db, stale: seq<Claim>, clock: nat -> int, n: nat)
    requires n <= |stale|
    ensures NoRepeat(db, stale, clock, n) <==>
            forall k: nat :: k < n && TakenIn(db, stale, clock, k) != {} ==> FirstOfRun(stale, k)
  {
    if n > 0 { NoRepeatIs(db, stale, clock, n - 1); }
  }

  /** The results so far, whatever makes a session report. */
  lemma {:induction false} ResultsAre(db: Db, stale: seq<Claim>, clock: nat -> int)
    requires Keyed(db.claims) && AllStale(stale, db.claims, clock(0)) && Advances(clock)
    ensures Names(ResultsTo(db, stale, clock, |stale|), RunsOf(stale, |stale|))
    ensures NoRunTwice(ResultsTo(db, stale, clock, |stale|)) <==> NoRepeat(db, stale, clock, |stale|)
  {
    FirstSessionsReport(db, stale, clock, |stale|);
    ResultsSoFar(db, stale, clock, |stale|);
  }

  lemma {:induction false} NoRepeatExactly(db: Db, stale: seq<Claim>, clock: nat -> int)
    requires Keyed(db.claims) && AllStale(stale, db.claims, clock(0)) && Advances(clock)
    ensures NoRepeat(db, stale, clock, |stale|) <==> !LateExpiry(db, stale, clock)
  {
    NoRepeatIs(db, stale, clock, |stale|);
    if LateExpiry(db, stale, clock) {
      LateExpiryMeansRepeat(db, stale, clock);
    }
    if k: nat :| k < |stale| && TakenIn(db, stale, clock, k) != {} && !FirstOfRun(stale, k) {
      var id :| id in TakenIn(db, stale, clock, k);
      RepeatIsLateExpiry(db, stale, clock, k, id);
    }
  }

  /** However the clock advances, the results name each run that had a scanned claim, and exactly once if and only if
      no claim of such a run runs out of lease between two of the run's sessions. */
  lemma {:induction false} OnePerRunExactly(db: Db, stale: seq<Claim>, clock: nat -> int)
    requires Keyed(db.claims) && Lists(stale, db.claims, StaleIds(db.claims, clock(0))) && Advances(clock)
    ensures Names(ResultsTo(db, stale, clock, |stale|), RunsOf(stale, |stale|))
    ensures OnePerRun(ResultsTo(db, stale, clock, |stale|), RunsOf(stale, |stale|)) <==> !LateExpiry(db, stale, clock)
  {
    ListedAreStale(stale, db.claims, clock(0));
    ResultsAre(db, stale, clock);
    NoRepeatExactly(db, stale, clock);
  }

  /** An active claim of run "r", last heard of at time 0. */
  function Held(id: string, leaseSeconds: int): Claim {
    NewClaim(id, Request(id, "r", id, "w", leaseSeconds), 0)
  }

  function ThreeHeld(): map<string, Claim> {
    map["a" := Held("a", 0), "b" := Held("b", 0), "c" := Held("c", 2)]
  }

  /** At time 0 the scan finds two of the three. */
  lemma ScanOfThree()
    ensures Keyed(ThreeHeld())
    ensures Lists([Held("a", 0), Held("b", 0)], ThreeHeld(), StaleIds(ThreeHeld(), 0))
  {
    var list := [Held("a", 0), Held("b", 0)];
    assert StaleIds(ThreeHeld(), 0) == {"a", "b"};
    assert list[0].claimId == "a" && list[1].claimId == "b";
  }

  /** A case in point: two claims of a run are stale, and a third runs out of lease between their sessions, a second
      apart. The run is reported twice. */
  lemma {:induction false} RunCanBeReportedTwice(db: Db, stale: seq<Claim>, clock: nat -> int)
    requires db == Db(map[], map[], map[], ThreeHeld(), []) && stale == [Held("a", 0), Held("b", 0)]
    requires forall n: nat :: clock(n) == n * MICROSECONDS
    ensures Keyed(db.claims) && Lists(stale, db.claims, StaleIds(db.claims, clock(0))) && Advances(clock)
    ensures !OnePerRun(ResultsTo(db, stale, clock, |stale|), RunsOf(stale, |stale|))
  {
    ScanOfThree();
    assert clock(0) == 0 && clock(1) == MICROSECONDS && clock(2) == 2 * MICROSECONDS;
    assert ExpiresBetween(db, stale, clock, 0, 1, "c");
    OnePerRunExactly(db, stale, clock);
  }

  // ----- with a fixed clock -----

  /** The stale claims of some runs. */
  function StaleOf(db: Db, runs: set<string>, now: int): set<string> {
    set id | id in StaleIds(db.claims, now) && db.claims[id].runId in runs
  }

  /** Taking back two disjoint sets of claims in turn is taking back their union. */
  lemma TakeBackTwice(db: Db, a: set<string>, b: set<string>, now: int)
    requires a !! b
    ensures TakeBack(TakeBack(db, a, now), b, now) == TakeBack(db, a + b, now)
  {
    var mid := TakeBack(db, a, now);
    assert TasksOf(mid.claims, b) == TasksOf(db.claims, b);
    assert AttemptsOf(mid.claims, b) == AttemptsOf(db.claims, b);
    assert TasksOf(db.claims, a + b) == TasksOf(db.claims, a) + TasksOf(db.claims, b);
    assert AttemptsOf(db.claims, a + b) == AttemptsOf(db.claims, a) + AttemptsOf(db.claims, b);
    assert TakeBack(mid, b, now).claims == TakeBack(db, a + b, now).claims;
    assert TakeBack(mid, b, now).tasks == TakeBack(db, a + b, now).tasks;
    assert TakeBack(mid, b, now).attempts == TakeBack(db, a + b, now).attempts;
  }

  /** What a forced session sweeps once the stale claims of some runs are back: those of its own run, if any are
      left. */
  lemma SweptAfterRuns(db: Db, runs: set<string>, c: Claim, now: int)
    requires Keyed(db.claims) && c.claimId in StaleIds(db.claims, now) && db.claims[c.claimId] == c
    ensures SweptIds(TakeBack(db, StaleOf(db, runs, now), now).claims, ForcedSweep(c, now)) ==
            if c.runId in runs then {} else StaleOf(db, {c.runId}, now)
  {
  }

  /** With a fixed clock, the first n sessions take back exactly the stale claims of the runs seen so far. */
  lemma {:induction false} RunsRecovered(db: Db, stale: seq<Claim>, clock: nat -> int, n: nat)
    requires Keyed(db.claims) && AllStale(stale, db.claims, clock(0))
    requires forall i: nat :: clock(i) == clock(0)
    requires n <= |stale|
    ensures RecoverTo(db, stale, clock, n) == TakeBack(db, StaleOf(db, RunsOf(stale, n), clock(0)), clock(0))
  {
    var now := clock(0);
    if n == 0 {
      assert StaleOf(db, {}, now) == {};
      TakeBackNothing(db, now);
    } else {
      RunsRecovered(db, stale, clock, n - 1);
      assert clock(n) == now;
      SweepOneRun(db, RunsOf(stale, n - 1), stale[n - 1], now);
    }
  }

  /** One forced session: it takes back the stale claims of its run, if they are not back already. */
  lemma SweepOneRun(db: Db, runs: set<string>, c: Claim, now: int)
    requires Keyed(db.claims) && c.claimId in StaleIds(db.claims, now) && db.claims[c.claimId] == c
    ensures var before := TakeBack(db, StaleOf(db, runs, now), now);
            && SweptDb(before, ForcedSweep(c, now)) == TakeBack(db, StaleOf(db, runs + {c.runId}, now), now)
            && (SweptIds(before.claims, ForcedSweep(c, now)) == {} <==> c.runId in runs)
  {
    SweptAfterRuns(db, runs, c, now);
    StaleOfOneMore(db, runs, c, now);
    TakeBackTwice(db, StaleOf(db, runs, now), if c.runId in runs then {} else StaleOf(db, {c.runId}, now), now);
  }

  lemma StaleOfOneMore(db: Db, runs: set<string>, c: Claim, now: int)
    requires c.claimId in StaleIds(db.claims, now) && db.claims[c.claimId] == c
    ensures var more := if c.runId in runs then {} else StaleOf(db, {c.runId}, now);
            && StaleOf(db, runs + {c.runId}, now) == StaleOf(db, runs, now) + more
            && StaleOf(db, runs, now) !! more
            && (more == {} <==> c.runId in runs)
  {
    if c.runId in runs {
      assert runs + {c.runId} == runs;
    } else {
      assert c.claimId in StaleOf(db, {c.runId}, now);
    }
  }

  /** Recovery is complete and exact: the session-by-session loop leaves the tables one global sweep would leave,
      no stale claim remains, and each run that had a stale claim is reported once. */
  lemma {:induction false} RecoveryIsOneSweep(db: Db, stale: seq<Claim>, clock: nat -> int)
    requires Keyed(db.claims) && Lists(stale, db.claims, StaleIds(db.claims, clock(0)))
    requires forall i: nat :: clock(i) == clock(0)
    ensures RecoverTo(db, stale, clock, |stale|) == SweptDb(db, Sweep(None, {}, clock(0)))
    ensures StaleIds(RecoverTo(db, stale, clock, |stale|).claims, clock(0)) == {}
    ensures OnePerRun(ResultsTo(db, stale, clock, |stale|), StaleRuns(db, clock(0)))
  {
    ListedAreStale(stale, db.claims, clock(0));
    RunsRecovered(db, stale, clock, |stale|);
    OnePerRunExactly(db, stale, clock);
    AllStaleRuns(db, stale, clock(0));
    NoneStaleAfterSweep(db, clock(0));
  }

  /** The runs that have a stale claim. */
  function StaleRuns(db: Db, now: int): set<string> {
    set id | id in StaleIds(db.claims, now) :: db.claims[id].runId
  }

  lemma {:induction false} ListedRuns(db: Db, stale: seq<Claim>, now: int)
    requires Lists(stale, db.claims, StaleIds(db.claims, now))
    ensures forall id :: id in StaleIds(db.claims, now) ==> db.claims[id].runId in RunsOf(stale, |stale|)
    ensures forall r :: r in RunsOf(stale, |stale|) ==> r in StaleRuns(db, now)
  {
    forall r { RunsOfIs(stale, |stale|, r); }
    forall id | id in StaleIds(db.claims, now) ensures db.claims[id].runId in RunsOf(stale, |stale|) {
      var i :| 0 <= i < |stale| && stale[i].claimId == id;
    }
    forall r | r in RunsOf(stale, |stale|) ensures r in StaleRuns(db, now) {
      var i: nat :| i < |stale| && stale[i].runId == r;
      assert stale[i].claimId in StaleIds(db.claims, now);
    }
  }

  lemma {:induction false} AllStaleRuns(db: Db, stale: seq<Claim>, now: int)
    requires Lists(stale, db.claims, StaleIds(db.claims, now))
    ensures RunsOf(stale, |stale|) == StaleRuns(db, now)
    ensures StaleOf(db, RunsOf(stale, |stale|), now) == StaleIds(db.claims, now)
  {
    ListedRuns(db, stale, now);
  }

  lemma NoneStaleAfterSweep(db: Db, now: int)
    ensures StaleIds(SweptDb(db, Sweep(None, {}, now)).claims, now) == {}
  {
  }
}
