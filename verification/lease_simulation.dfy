/** The two forms of the claim protocol, the in-memory manager and the claim table, run side by side. The main result
    says exactly which calls make them part. */
module LeaseSimulation {
  import opened Common
  import opened RuntimeContracts
  import opened Leases
  import opened RuntimePersistence

  /** Both stores, and which manager claim each attempt holds. The manager names claims by drawn identifiers, the
      table by their attempt. */
  datatype Pair = Pair(manager: State, db: Db, names: map<string, string>)

  /** A call made on both stores. `id` is the manager's name of the claim, `attemptId` the table's. */
  datatype Call =
    | Claiming(request: Request, id: string, now: int)
    | Renewing(id: string, attemptId: string, now: int)
    | Releasing(id: string, attemptId: string, now: int)
    | Sweeping(runId: string, ids: set<string>, rowIds: set<string>, now: int)

  function ManagerOp(c: Call): Op {
    match c
    case Claiming(r, id, now) => ClaimTask(r, id, now)
    case Renewing(id, _, now) => Heartbeat(id, now)
    case Releasing(id, _, now) => Release(id, now)
    case Sweeping(runId, ids, _, now) => Reclaim(Sweep(Some(runId), ids, now))
  }

  /** The table's step; a sweep lists what it returns in no particular order, so its outcome is left out here. */
  function TableStep(db: Db, c: Call): (Db, Outcome) {
    match c
    case Claiming(r, _, now) => GrantClaim(db, r, now)
    case Renewing(_, a, now) =>
      var (claims, o) := HeartbeatRow(db.claims, ClaimId(a), now);
      (db.(claims := claims), o)
    case Releasing(_, a, now) =>
      var (claims, o) := ReleaseRow(db.claims, ClaimId(a), now);
      (db.(claims := claims), o)
    case Sweeping(runId, _, rowIds, now) => (SweptDb(db, Sweep(Some(runId), rowIds, now)), Swept([]))
  }

  function PairStep(p: Pair, c: Call): Pair
    requires WellFormed(p.manager)
  {
    Pair(Step(p.manager, ManagerOp(c)).0, TableStep(p.db, c).0,
         if c.Claiming? && Step(p.manager, ManagerOp(c)).1.Granted?
         then p.names[c.request.attemptId := c.id] else p.names)
  }

  /** The two names mean the same claim, or no claim at all. */
  ghost predicate SameClaim(p: Pair, id: string, attemptId: string) {
    if attemptId in p.names then id == p.names[attemptId] else id !in p.manager.claims
  }

  /** The call is the same call on both stores: it draws a fresh identifier, or means the same claims. */
  ghost predicate SameCall(p: Pair, c: Call) {
    match c
    case Claiming(_, id, _) => id !in p.manager.claims
    case Renewing(id, a, _) => SameClaim(p, id, a)
    case Releasing(id, a, _) => SameClaim(p, id, a)
    case Sweeping(_, ids, rowIds, _) => forall a :: a in p.names ==> (p.names[a] in ids <==> ClaimId(a) in rowIds)
  }

  // ----- the calls that make the stores part -----

  predicate Taken(s: State, taskId: string)
    requires WellFormed(s)
  {
    taskId in s.active && s.claims[s.active[taskId]].status.Active?
  }

  /** The task is held by a claim of another run: the manager refuses, the table looks at one run only. */
  predicate HeldElsewhere(s: State, r: Request)
    requires WellFormed(s)
  {
    Taken(s, r.taskId) && s.claims[s.active[r.taskId]].runId != r.runId
  }

  /** The task is free and the attempt has a row already: the manager makes a claim, the table hands the row back. */
  predicate HandsBack(p: Pair, r: Request)
    requires WellFormed(p.manager)
  {
    !Taken(p.manager, r.taskId) && ClaimId(r.attemptId) in p.db.claims
  }

  ghost predicate Parts(p: Pair, c: Call)
    requires WellFormed(p.manager)
  {
    match c
    case Claiming(r, _, _) => HeldElsewhere(p.manager, r) || HandsBack(p, r)
    case Releasing(_, _, _) => MisplacedRelease(p.manager, ManagerOp(c))
    case Renewing(_, _, _) => false
    case Sweeping(_, _, _, _) => false
  }

  // ----- what the side-by-side run keeps -----

  /** The same claim but for its name. */
  predicate Matches(c: Claim, row: Claim) {
    c.(claimId := row.claimId) == row
  }

  /** Every manager claim has its row and every row its claim, equal but for the name. */
  ghost predicate Aligned(claims: map<string, Claim>, rows: map<string, Claim>, names: map<string, string>) {
    && (forall id :: id in claims ==> Lookup(names, claims[id].attemptId) == Some(id))
    && (forall k :: k in rows ==> rows[k].attemptId in names && k == ClaimId(rows[k].attemptId))
    && (forall a :: a in names ==> Paired(claims, rows, names[a], a))
  }

  ghost predicate Paired(claims: map<string, Claim>, rows: map<string, Claim>, id: string, a: string) {
    && id in claims && ClaimId(a) in rows
    && claims[id].attemptId == a
    && rows[ClaimId(a)].claimId == ClaimId(a)
    && Matches(claims[id], rows[ClaimId(a)])
  }

  ghost predicate Related(p: Pair) {
    WellFormed(p.manager) && IndexExact(p.manager) && Aligned(p.manager.claims, p.db.claims, p.names)
  }

  lemma ClaimIdInjective(a: string, b: string)
    ensures ClaimId(a) == ClaimId(b) <==> a == b
  {
    assert ClaimId(a)[6..] == a && ClaimId(b)[6..] == b;
  }

  /** The two stores give the same answer: the same refusal, or claims equal but for the name; a sweep takes back
      the claims of the same attempts. */
  ghost predicate SameAnswer(p: Pair, c: Call)
    requires WellFormed(p.manager)
  {
    if c.Sweeping? then
      SameSweep(p.manager.claims, p.db.claims, p.names, Sweep(Some(c.runId), c.ids, c.now),
          Sweep(Some(c.runId), c.rowIds, c.now))
    else
      match (Step(p.manager, ManagerOp(c)).1, TableStep(p.db, c).1)
      case (Refused(x), Refused(y)) => x == y
      case (Granted(x), Granted(y)) => Matches(x, y)
      case _ => false
  }

  ghost predicate SameSweep(claims: map<string, Claim>, rows: map<string, Claim>, names: map<string, string>,
                            ours: Sweep, theirs: Sweep)
  {
    forall a :: a in names && names[a] in claims ==>
        (Sweeps(claims[names[a]], ours) <==> ClaimId(a) in SweptIds(rows, theirs))
  }

  // ----- one call -----

  /** An active row of a task is the row of the claim the manager has indexed for it. */
  lemma ActiveRowIsIndexed(p: Pair, k: string)
    requires Related(p) && k in p.db.claims && p.db.claims[k].status.Active?
    ensures var row := p.db.claims[k];
            row.taskId in p.manager.active && Matches(p.manager.claims[p.manager.active[row.taskId]], row)
  {
    var a := p.db.claims[k].attemptId;
    assert Paired(p.manager.claims, p.db.claims, p.names[a], a);
    assert Holds(p.manager, p.db.claims[k].taskId, p.names[a]);
    assert Indexed(p.manager, p.db.claims[k].taskId, p.names[a]);
  }

  lemma IndexedClaimHasRow(p: Pair, taskId: string)
    requires Related(p) && Taken(p.manager, taskId)
    ensures var c := p.manager.claims[p.manager.active[taskId]];
            c.taskId == taskId && ClaimId(c.attemptId) in p.db.claims && Matches(c, p.db.claims[ClaimId(c.attemptId)])
  {
    var id := p.manager.active[taskId];
    assert Lookup(p.names, p.manager.claims[id].attemptId) == Some(id);
    assert Paired(p.manager.claims, p.db.claims, id, p.manager.claims[id].attemptId);
  }

  /** The table finds the task taken exactly when the manager does, under the same run. */
  lemma SameConflict(p: Pair, r: Request)
    requires Related(p)
    ensures HasActiveClaim(p.db.claims, r.taskId, r.runId) <==>
            Taken(p.manager, r.taskId) && !HeldElsewhere(p.manager, r)
  {
    if Taken(p.manager, r.taskId) { IndexedClaimHasRow(p, r.taskId); }
    forall k | k in p.db.claims && p.db.claims[k].status.Active?
      ensures p.db.claims[k].taskId in p.manager.active
      ensures Matches(p.manager.claims[p.manager.active[p.db.claims[k].taskId]], p.db.claims[k])
    {
      ActiveRowIsIndexed(p, k);
    }
  }

  lemma AlignedAdd(claims: map<string, Claim>, rows: map<string, Claim>, names: map<string, string>,
                   id: string, c: Claim, row: Claim)
    requires Aligned(claims, rows, names)
    requires id !in claims && ClaimId(c.attemptId) !in rows
    requires row.claimId == ClaimId(c.attemptId) && Matches(c, row)
    ensures Aligned(claims[id := c], rows[row.claimId := row], names[c.attemptId := id])
  {
    var a := c.attemptId;
    assert a in names ==> Paired(claims, rows, names[a], a);
    forall b | b in names ensures Paired(claims[id := c], rows[row.claimId := row], names[b], b) {
      assert Paired(claims, rows, names[b], b);
    }
  }

  /** Changing one claim and its row alike keeps the stores aligned. */
  lemma AlignedUpdate(claims: map<string, Claim>, rows: map<string, Claim>, names: map<string, string>,
                      a: string, c: Claim, row: Claim)
    requires Aligned(claims, rows, names) && a in names && names[a] in claims && ClaimId(a) in rows
    requires Matches(c, row) && SameLease(claims[names[a]], c) && SameLease(rows[ClaimId(a)], row)
    ensures Aligned(claims[names[a] := c], rows[ClaimId(a) := row], names)
  {
    assert Paired(claims, rows, names[a], a);
    forall b | b in names ensures Paired(claims[names[a] := c], rows[ClaimId(a) := row], names[b], b) {
      assert Paired(claims, rows, names[b], b);
      if ClaimId(b) == ClaimId(a) { ClaimIdInjective(a, b); }
    }
  }

  /** The row an attempt gets back is not the claim the manager would make: its task would not be free. */
  lemma HandedBackDiffers(p: Pair, r: Request, id: string, now: int)
    requires Related(p) && HandsBack(p, r)
    ensures !Matches(NewClaim(id, r, now), p.db.claims[ClaimId(r.attemptId)])
  {
    if p.db.claims[ClaimId(r.attemptId)].status.Active? { ActiveRowIsIndexed(p, ClaimId(r.attemptId)); }
  }

  /** A claim call gets the same answer if and only if the task is not held under another run and the table has no
      old row to hand back. */
  lemma {:induction false} ClaimingExactly(p: Pair, c: Call)
    requires Related(p) && SameCall(p, c) && c.Claiming?
    ensures SameAnswer(p, c) <==> !Parts(p, c)
    ensures SameAnswer(p, c) ==> Aligned(PairStep(p, c).manager.claims, PairStep(p, c).db.claims, PairStep(p, c).names)
  {
    var r := c.request;
    SameConflict(p, r);
    if HandsBack(p, r) {
      HandedBackDiffers(p, r, c.id, c.now);
    } else if !Taken(p.manager, r.taskId) {
      AlignedAdd(p.manager.claims, p.db.claims, p.names, c.id,
                 NewClaim(c.id, r, c.now), NewClaim(ClaimId(r.attemptId), r, c.now));
    }
  }

  /** A name both stores understand alike is known to both or to neither. */
  lemma SameKnowledge(p: Pair, id: string, a: string)
    requires Related(p) && SameClaim(p, id, a)
    ensures id in p.manager.claims <==> a in p.names
    ensures ClaimId(a) in p.db.claims <==> a in p.names
    ensures a in p.names ==> Matches(p.manager.claims[id], p.db.claims[ClaimId(a)])
  {
    if a in p.names {
      assert Paired(p.manager.claims, p.db.claims, p.names[a], a);
    } else if ClaimId(a) in p.db.claims {
      ClaimIdInjective(a, p.db.claims[ClaimId(a)].attemptId);
    }
  }

  lemma OneClaimStep(p: Pair, c: Call)
    requires Related(p) && SameCall(p, c) && (c.Renewing? || c.Releasing?)
    ensures SameAnswer(p, c) && Aligned(PairStep(p, c).manager.claims, PairStep(p, c).db.claims, PairStep(p, c).names)
  {
    var id, k := c.id, ClaimId(c.attemptId);
    SameKnowledge(p, id, c.attemptId);
    if c.attemptId in p.names {
      var m, t := p.manager.claims[id], p.db.claims[k];
      if c.Renewing? {
        AlignedUpdate(p.manager.claims, p.db.claims, p.names, c.attemptId, m.(heartbeatAt := c.now),
            t.(heartbeatAt := c.now));
      } else {
        AlignedUpdate(p.manager.claims, p.db.claims, p.names, c.attemptId,
                      m.(status := ClaimStatus.Released, releasedAt := Some(c.now)),
                      t.(status := ClaimStatus.Released, releasedAt := Some(c.now)));
      }
    }
  }

  /** Sweeps that ask about the same claims. */
  ghost predicate SameQuestion(names: map<string, string>, ours: Sweep, theirs: Sweep) {
    && ours.runId == theirs.runId && ours.now == theirs.now
    && forall a :: a in names ==> (names[a] in ours.forced <==> ClaimId(a) in theirs.forced)
  }

  /** One claim and its row under such sweeps: both are taken back, or neither. */
  lemma PairedSweep(claims: map<string, Claim>, rows: map<string, Claim>, names: map<string, string>,
                    ours: Sweep, theirs: Sweep, a: string)
    requires a in names && Paired(claims, rows, names[a], a) && claims[names[a]].claimId == names[a]
    requires SameQuestion(names, ours, theirs)
    ensures Sweeps(claims[names[a]], ours) <==> ClaimId(a) in SweptIds(rows, theirs)
    ensures Paired(ClaimsAfter(claims, claims.Keys, ours), TakenBackRows(rows, SweptIds(rows, theirs), theirs.now),
            names[a], a)
  {
    assert Sweeps(claims[names[a]], ours) <==> Sweeps(rows[ClaimId(a)], theirs);
  }

  /** A sweep that asks both stores about the same claims takes back the same ones. */
  lemma {:induction false} AlignedSweep(claims: map<string, Claim>, rows: map<string, Claim>,
                                        names: map<string, string>, ours: Sweep, theirs: Sweep)
    requires Aligned(claims, rows, names) && forall id :: id in claims ==> claims[id].claimId == id
    requires SameQuestion(names, ours, theirs)
    ensures Aligned(ClaimsAfter(claims, claims.Keys, ours), TakenBackRows(rows, SweptIds(rows, theirs), theirs.now),
            names)
    ensures SameSweep(claims, rows, names, ours, theirs)
  {
    forall a | a in names
      ensures Paired(ClaimsAfter(claims, claims.Keys, ours), TakenBackRows(rows, SweptIds(rows, theirs), theirs.now),
              names[a], a)
      ensures Sweeps(claims[names[a]], ours) <==> ClaimId(a) in SweptIds(rows, theirs)
    {
      assert Paired(claims, rows, names[a], a);
      PairedSweep(claims, rows, names, ours, theirs, a);
    }
  }

  lemma SweepingStep(p: Pair, c: Call)
    requires Related(p) && SameCall(p, c) && c.Sweeping?
    ensures SameAnswer(p, c) && Aligned(PairStep(p, c).manager.claims, PairStep(p, c).db.claims, PairStep(p, c).names)
  {
    AlignedSweep(p.manager.claims, p.db.claims, p.names, Sweep(Some(c.runId), c.ids, c.now),
        Sweep(Some(c.runId), c.rowIds, c.now));
  }

  /** One call: the same answer with the stores still related, if and only if the call is not one that parts them. */
  lemma {:induction false} SimulationStep(p: Pair, c: Call)
    requires Related(p) && SameCall(p, c)
    ensures WellFormed(PairStep(p, c).manager)
    ensures SameAnswer(p, c) && Related(PairStep(p, c)) <==> !Parts(p, c)
    ensures !c.Claiming? ==> SameAnswer(p, c)
  {
    IndexKeptExactly(p.manager, ManagerOp(c));
    StepKeepsWellFormed(p.manager, ManagerOp(c));
    match c
    case Claiming(_, _, _) => ClaimingExactly(p, c);
    case Renewing(_, _, _) => OneClaimStep(p, c);
    case Releasing(_, _, _) => OneClaimStep(p, c);
    case Sweeping(_, _, _, _) => SweepingStep(p, c);
  }

  /** A misplaced release takes the task out of the manager's index and leaves the active row as it was. */
  lemma MisplacedReleaseLeavesRow(p: Pair, release: Call)
    requires Related(p) && SameCall(p, release) && release.Releasing? && Parts(p, release)
    ensures var taskId := p.manager.claims[release.id].taskId;
            && taskId in p.manager.active && taskId !in PairStep(p, release).manager.active
            && HasActiveClaim(PairStep(p, release).db.claims, taskId, p.manager.claims[p.manager.active[taskId]].runId)
  {
    var taskId := p.manager.claims[release.id].taskId;
    var held := p.manager.active[taskId];
    assert Indexed(p.manager, taskId, held) && Holds(p.manager, taskId, held);
    IndexedClaimHasRow(p, taskId);
    SameKnowledge(p, release.id, release.attemptId);
    ClaimIdInjective(p.manager.claims[held].attemptId, release.attemptId);
    var k := ClaimId(p.manager.claims[held].attemptId);
    assert PairStep(p, release).db.claims[k] == p.db.claims[k];
  }

  /** After a misplaced release the next claim of the task, for the run that still holds it, is granted by the
      manager and refused by the table. */
  lemma {:induction false} MisplacedReleaseParts(p: Pair, release: Call, claim: Call)
    requires Related(p) && SameCall(p, release) && release.Releasing? && Parts(p, release)
    requires claim.Claiming? && claim.request.taskId == p.manager.claims[release.id].taskId
    requires claim.request.runId == p.manager.claims[p.manager.active[claim.request.taskId]].runId
    ensures var after := PairStep(p, release);
            && WellFormed(after.manager)
            && Step(after.manager, ManagerOp(claim)).1.Granted?
                && TableStep(after.db, claim).1 == Refused(AlreadyActive)
  {
    StepKeepsWellFormed(p.manager, ManagerOp(release));
    MisplacedReleaseLeavesRow(p, release);
  }

  // ----- whole runs -----

  /** Side by side from empty claims, whatever the other tables hold: the pairs between the calls. */
  ghost predicate Execution(pairs: seq<Pair>, calls: seq<Call>) {
    && |pairs| == |calls| + 1
    && pairs[0].manager == EMPTY && pairs[0].db.claims == map[] && pairs[0].names == map[]
    && forall i :: 0 <= i < |calls| ==> Called(pairs[i], calls[i], pairs[i + 1])
  }

  ghost predicate Called(p: Pair, c: Call, after: Pair) {
    SameCall(p, c) && (WellFormed(p.manager) ==> after == PairStep(p, c))
  }

  lemma {:induction false} AlwaysWellFormed(pairs: seq<Pair>, calls: seq<Call>, n: nat)
    requires Execution(pairs, calls) && n < |pairs|
    ensures WellFormed(pairs[n].manager)
  {
    if n > 0 {
      AlwaysWellFormed(pairs, calls, n - 1);
      assert Called(pairs[n - 1], calls[n - 1], pairs[n]);
      StepKeepsWellFormed(pairs[n - 1].manager, ManagerOp(calls[n - 1]));
    }
  }

  ghost predicate PartsAt(pairs: seq<Pair>, calls: seq<Call>, i: nat)
    requires i < |pairs| && i < |calls|
  {
    WellFormed(pairs[i].manager) && Parts(pairs[i], calls[i])
  }

  ghost predicate AgreeAt(pairs: seq<Pair>, calls: seq<Call>, i: nat)
    requires i < |pairs| && i < |calls|
  {
    WellFormed(pairs[i].manager) && SameAnswer(pairs[i], calls[i])
  }

  lemma {:induction false} RelatedSoFar(pairs: seq<Pair>, calls: seq<Call>, n: nat)
    requires Execution(pairs, calls) && n < |pairs|
    requires forall i :: 0 <= i < n ==> !PartsAt(pairs, calls, i)
    ensures Related(pairs[n])
  {
    if n > 0 {
      RelatedSoFar(pairs, calls, n - 1);
      assert Called(pairs[n - 1], calls[n - 1], pairs[n]);
      assert !PartsAt(pairs, calls, n - 1);
      SimulationStep(pairs[n - 1], calls[n - 1]);
    }
  }

  /** As long as no call parts them, both stores accept and refuse alike and agree on who holds what. */
  lemma StoresAgree(pairs: seq<Pair>, calls: seq<Call>, n: nat)
    requires Execution(pairs, calls) && n < |calls|
    requires forall i :: 0 <= i < n ==> !PartsAt(pairs, calls, i)
    ensures Holdings(pairs[n].manager.claims) == Holdings(pairs[n].db.claims)
    ensures AgreeAt(pairs, calls, n) <==> !(calls[n].Claiming? && PartsAt(pairs, calls, n))
  {
    RelatedSoFar(pairs, calls, n);
    SameHoldings(pairs[n]);
    assert Called(pairs[n], calls[n], pairs[n + 1]);
    SimulationStep(pairs[n], calls[n]);
    if calls[n].Claiming? { ClaimingExactly(pairs[n], calls[n]); }
  }

  /** Over every run, the stores give the same answers and stay related throughout if and only if no call parts them. */
  lemma {:induction false} StoresAgreeExactly(pairs: seq<Pair>, calls: seq<Call>)
    requires Execution(pairs, calls)
    ensures (forall i :: 0 <= i < |pairs| ==> Related(pairs[i]))
            && (forall i :: 0 <= i < |calls| ==> AgreeAt(pairs, calls, i))
       <==> forall i :: 0 <= i < |calls| ==> !PartsAt(pairs, calls, i)
  {
    if forall i :: 0 <= i < |calls| ==> !PartsAt(pairs, calls, i) {
      forall n | 0 <= n < |pairs| { RelatedSoFar(pairs, calls, n); }
      forall n | 0 <= n < |calls| { StoresAgree(pairs, calls, n); }
    }
    if (forall i :: 0 <= i < |pairs| ==> Related(pairs[i]))
        && (forall i :: 0 <= i < |calls| ==> AgreeAt(pairs, calls, i)) {
      forall i | 0 <= i < |calls| ensures !PartsAt(pairs, calls, i) {
        assert Called(pairs[i], calls[i], pairs[i + 1]);
        assert Related(pairs[i]) && Related(pairs[i + 1]) && AgreeAt(pairs, calls, i);
        SimulationStep(pairs[i], calls[i]);
      }
    }
  }

  // ----- the partings are reachable -----

  ghost predicate Reached(calls: seq<Call>, p: Pair) {
    exists pairs :: Execution(pairs, calls) && pairs[|calls|] == p
  }

  lemma ReachedStart(db: Db)
    requires db.claims == map[]
    ensures Reached([], Pair(EMPTY, db, map[])) && Related(Pair(EMPTY, db, map[]))
  {
    assert Execution([Pair(EMPTY, db, map[])], []);
  }

  lemma ReachedOneMore(calls: seq<Call>, p: Pair, c: Call)
    requires Reached(calls, p) && SameCall(p, c)
    ensures WellFormed(p.manager) && Reached(calls + [c], PairStep(p, c))
  {
    var pairs :| Execution(pairs, calls) && pairs[|calls|] == p;
    AlwaysWellFormed(pairs, calls, |calls|);
    var more := pairs + [PairStep(p, c)];
    forall i | 0 <= i < |calls + [c]| ensures Called(more[i], (calls + [c])[i], more[i + 1]) {
      if i < |calls| { assert Called(pairs[i], calls[i], pairs[i + 1]); }
    }
    assert Execution(more, calls + [c]);
  }

  lemma FirstClaim(db: Db, r: Request, now: int)
    requires db.claims == map[]
    ensures var p := PairStep(Pair(EMPTY, db, map[]), Call.Claiming(r, "c1", now));
            && p.manager == State(map["c1" := NewClaim("c1", r, now)], ["c1"], map[r.taskId := "c1"])
            && p.db.claims == map[ClaimId(r.attemptId) := NewClaim(ClaimId(r.attemptId), r, now)]
            && p.names == map[r.attemptId := "c1"]
    ensures !Parts(Pair(EMPTY, db, map[]), Call.Claiming(r, "c1", now))
  {
  }

  /** One claim made on both stores. */
  lemma OneClaimReachable(db: Db, r: Request, now: int) returns (calls: seq<Call>, p: Pair)
    requires db.claims == map[]
    ensures calls == [Call.Claiming(r, "c1", now)] && Reached(calls, p) && Related(p)
    ensures p.manager == State(map["c1" := NewClaim("c1", r, now)], ["c1"], map[r.taskId := "c1"])
    ensures p.db.claims == map[ClaimId(r.attemptId) := NewClaim(ClaimId(r.attemptId), r, now)]
    ensures p.names == map[r.attemptId := "c1"]
  {
    ReachedStart(db);
    FirstClaim(db, r, now);
    var start := Pair(EMPTY, db, map[]);
    ReachedOneMore([], start, Call.Claiming(r, "c1", now));
    SimulationStep(start, Call.Claiming(r, "c1", now));
    p := PairStep(start, Call.Claiming(r, "c1", now));
    calls := [] + [Call.Claiming(r, "c1", now)];
  }

  /** A task claimed under one run, then under another: the manager refuses, the table grants. */
  lemma OtherRunReachable(db: Db, r: Request, other: Request, now: int) returns (calls: seq<Call>, p: Pair)
    requires db.claims == map[]
    requires other.taskId == r.taskId && other.runId != r.runId && other.attemptId != r.attemptId
    ensures calls == [Call.Claiming(r, "c1", now)] && Reached(calls, p) && WellFormed(p.manager)
    ensures SameCall(p, Call.Claiming(other, "c2", now)) && HeldElsewhere(p.manager, other)
    ensures Step(p.manager, ClaimTask(other, "c2", now)).1 == Refused(AlreadyActive)
    ensures TableStep(p.db, Call.Claiming(other, "c2", now)).1.Granted?
  {
    calls, p := OneClaimReachable(db, r, now);
    SameConflict(p, other);
    ClaimIdInjective(other.attemptId, r.attemptId);
  }

  /** A claim made, then released. */
  lemma ReleasedClaimReachable(db: Db, r: Request, now: int) returns (calls: seq<Call>, p: Pair)
    requires db.claims == map[]
    ensures calls == [Call.Claiming(r, "c1", now), Call.Releasing("c1", r.attemptId, now)] && Reached(calls, p)
            && Related(p)
    ensures p.manager.claims.Keys == {"c1"} && p.manager.active == map[] && p.names == map[r.attemptId := "c1"]
    ensures p.manager.claims["c1"].taskId == r.taskId && p.manager.claims["c1"].status.Released?
    ensures p.db.claims.Keys == {ClaimId(r.attemptId)} && p.db.claims[ClaimId(r.attemptId)].status.Released?
  {
    var one, p1 := OneClaimReachable(db, r, now);
    var release := Call.Releasing("c1", r.attemptId, now);
    ReachedOneMore(one, p1, release);
    SimulationStep(p1, release);
    p := PairStep(p1, release);
    calls := one + [release];
  }

  /** An attempt that claims again after its release: the manager makes an active claim, the table hands the released
      row back. */
  lemma HandedBackReachable(db: Db, r: Request, now: int) returns (calls: seq<Call>, p: Pair)
    requires db.claims == map[]
    ensures calls == [Call.Claiming(r, "c1", now), Call.Releasing("c1", r.attemptId, now)]
    ensures Reached(calls, p) && WellFormed(p.manager)
    ensures SameCall(p, Call.Claiming(r, "c2", now)) && HandsBack(p, r)
    ensures Step(p.manager, ClaimTask(r, "c2", now)).1 == Granted(NewClaim("c2", r, now))
    ensures TableStep(p.db, Call.Claiming(r, "c2", now)).1.Granted?
    ensures TableStep(p.db, Call.Claiming(r, "c2", now)).1.claim.status.Released?
  {
    calls, p := ReleasedClaimReachable(db, r, now);
    SameConflict(p, r);
  }

  /** A second attempt claims the task after the first has released it. */
  lemma SecondAttemptReachable(db: Db, r: Request, second: Request, now: int) returns (calls: seq<Call>, p: Pair)
    requires db.claims == map[] && r.attemptId != second.attemptId && r.taskId == second.taskId
    ensures calls == [Call.Claiming(r, "c1", now), Call.Releasing("c1", r.attemptId, now),
            Call.Claiming(second, "c2", now)]
    ensures Reached(calls, p) && Related(p)
    ensures p.manager.claims.Keys == {"c1", "c2"} && p.manager.claims["c1"].taskId == r.taskId
    ensures p.manager.claims["c1"].status.Released? && p.manager.claims["c2"] == NewClaim("c2", second, now)
    ensures p.manager.active == map[r.taskId := "c2"] && Lookup(p.names, r.attemptId) == Some("c1")
  {
    var two, p2 := ReleasedClaimReachable(db, r, now);
    var again := Call.Claiming(second, "c2", now);
    ClaimIdInjective(r.attemptId, second.attemptId);
    ReachedOneMore(two, p2, again);
    SimulationStep(p2, again);
    p := PairStep(p2, again);
    calls := two + [again];
  }

  /** Three attempts at one task: the first claim released, the second made, the first released again. The third
      claim is granted by the manager and refused by the table. */
  lemma MisplacedReleaseReachable(db: Db, r: Request, second: Request, third: Request, now: int)
    returns (calls: seq<Call>, p: Pair)
    requires db.claims == map[] && r.attemptId != second.attemptId
    requires r.taskId == second.taskId == third.taskId && second.runId == third.runId
    ensures calls == [Call.Claiming(r, "c1", now), Call.Releasing("c1", r.attemptId, now),
            Call.Claiming(second, "c2", now),
                      Call.Releasing("c1", r.attemptId, now)]
    ensures Reached(calls, p) && WellFormed(p.manager)
    ensures Step(p.manager, ClaimTask(third, "c3", now)).1.Granted?
    ensures TableStep(p.db, Call.Claiming(third, "c3", now)).1 == Refused(AlreadyActive)
  {
    var three, p3 := SecondAttemptReachable(db, r, second, now);
    var release := Call.Releasing("c1", r.attemptId, now);
    ReachedOneMore(three, p3, release);
    MisplacedReleaseParts(p3, release, Call.Claiming(third, "c3", now));
    p := PairStep(p3, release);
    calls := three + [release];
  }

  // ----- who holds what -----

  /** Who holds which task, and since when it was last heard of. */
  datatype Holding = Holding(taskId: string, workerId: string, heartbeatAt: int)

  function Holdings(claims: map<string, Claim>): set<Holding> {
    set id | id in claims && claims[id].status.Active? ::
      Holding(claims[id].taskId, claims[id].workerId, claims[id].heartbeatAt)
  }

  /** Related stores agree on who holds what. */
  lemma SameHoldings(p: Pair)
    requires Related(p)
    ensures Holdings(p.manager.claims) == Holdings(p.db.claims)
  {
    forall id | id in p.manager.claims && p.manager.claims[id].status.Active?
      ensures Holding(p.manager.claims[id].taskId, p.manager.claims[id].workerId, p.manager.claims[id].heartbeatAt)
              in Holdings(p.db.claims)
    {
      var a := p.manager.claims[id].attemptId;
      assert Paired(p.manager.claims, p.db.claims, id, a);
      assert ClaimId(a) in p.db.claims;
    }
    forall k | k in p.db.claims && p.db.claims[k].status.Active?
      ensures Holding(p.db.claims[k].taskId, p.db.claims[k].workerId, p.db.claims[k].heartbeatAt)
              in Holdings(p.manager.claims)
    {
      var a := p.db.claims[k].attemptId;
      assert Paired(p.manager.claims, p.db.claims, p.names[a], a);
      assert p.names[a] in p.manager.claims;
    }
  }
}
