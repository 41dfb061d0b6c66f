/** The status histories of claim rows, over any sequence of sessions on the tables. */
module ClaimRows {
  import opened Common
  import opened RuntimeContracts
  import opened Leases
  import opened RuntimePersistence

  /** From one table to the next, claims stay, keep who they are for, and change status along the transition table. */
  ghost predicate RowsFollowTable(before: map<string, Claim>, after: map<string, Claim>) {
    forall id :: id in before ==>
      id in after && SameLease(before[id], after[id]) && ClaimTransitionAllowed(before[id].status, after[id].status)
  }

  /** The session releases a claim that was taken back before, by a sweep or by a finalisation. */
  predicate ReleasesTakenBack(db: Db, s: Session) {
    s.Releasing? && s.id in db.claims && (db.claims[s.id].status.Reclaimed? || db.claims[s.id].status.Expired?)
  }

  lemma CloseFollowsTable(claims: map<string, Claim>, closings: map<string, Closing>)
    ensures RowsFollowTable(claims, CloseClaims(claims, closings))
  {
  }

  lemma SweepFollowsTable(db: Db, sweep: Sweep)
    ensures RowsFollowTable(db.claims, SweptDb(db, sweep).claims)
  {
  }

  lemma ReleaseFollowsTableExactly(db: Db, s: Session)
    requires s.Releasing?
    ensures RowsFollowTable(db.claims, Commit(db, s).claims) <==> !ReleasesTakenBack(db, s)
  {
    if ReleasesTakenBack(db, s) {
      assert s.id in db.claims && !ClaimTransitionAllowed(db.claims[s.id].status, Commit(db, s).claims[s.id].status);
    }
  }

  lemma SameRowsFollowTable(claims: map<string, Claim>)
    ensures RowsFollowTable(claims, claims)
  {
  }

  lemma GrantFollowsTable(db: Db, r: Request, now: int)
    ensures RowsFollowTable(db.claims, GrantClaim(db, r, now).0.claims)
  {
  }

  lemma HeartbeatFollowsTable(claims: map<string, Claim>, id: string, now: int)
    ensures RowsFollowTable(claims, HeartbeatRow(claims, id, now).0)
  {
  }

  /** A session moves every claim row along the table if and only if it does not release one taken back before. */
  lemma SessionFollowsTableExactly(db: Db, s: Session)
    ensures RowsFollowTable(db.claims, Commit(db, s).claims) <==> !ReleasesTakenBack(db, s)
  {
    match s
    case Claiming(r, now) => GrantFollowsTable(db, r, now);
    case Heartbeating(id, now) => HeartbeatFollowsTable(db.claims, id, now);
    case Releasing(_, _) => ReleaseFollowsTableExactly(db, s);
    case Sweeping(sweep) => SweepFollowsTable(db, sweep);
    case Transitioning(runId, target, now) =>
      CloseFollowsTable(db.claims, map[runId := Closing(target, now)]);
      SameRowsFollowTable(db.claims);
    case Reconciling(ids, now) => CloseFollowsTable(db.claims, TerminalClosings(db.runs, ids, now));
    case Appending(e) =>
      CloseFollowsTable(db.claims, ClosingsOf(e));
      SameRowsFollowTable(db.claims);
    case Writing(_, _) => SameRowsFollowTable(db.claims);
    case EnsuringRun(_, _) => SameRowsFollowTable(db.claims);
    case EnsuringTask(_) => SameRowsFollowTable(db.claims);
    case EnsuringAttempt(_) => SameRowsFollowTable(db.claims);
  }

  ghost predicate FollowsAt(db: Db, sessions: seq<Session>, i: nat)
    requires i < |sessions|
  {
    RowsFollowTable(CommitAll(db, sessions[..i]).claims, CommitAll(db, sessions[..i + 1]).claims)
  }

  predicate ReleasesAt(db: Db, sessions: seq<Session>, i: nat)
    requires i < |sessions|
  {
    ReleasesTakenBack(CommitAll(db, sessions[..i]), sessions[i])
  }

  /** Over every sequence of sessions, every claim row's status history is a path in the transition table if and only if
      no claim is released after a sweep or a finalisation took it back. */
  lemma {:induction false} RowHistoriesFollowTable(db: Db, sessions: seq<Session>)
    ensures (forall i :: 0 <= i < |sessions| ==> FollowsAt(db, sessions, i))
       <==> (forall i :: 0 <= i < |sessions| ==> !ReleasesAt(db, sessions, i))
  {
    forall i | 0 <= i < |sessions| ensures FollowsAt(db, sessions, i) <==> !ReleasesAt(db, sessions, i) {
      assert sessions[..i + 1][..i] == sessions[..i];
      SessionFollowsTableExactly(CommitAll(db, sessions[..i]), sessions[i]);
    }
  }

  /** A claim that a failing workflow took back can still be released: three sessions from empty tables. */
  lemma FinalizedClaimCanBeReleased(r: Request, runId: string, now: int)
    requires r.runId == runId
    ensures var db, id := Db(map[], map[], map[], map[], []), ClaimId(r.attemptId);
            var sessions :=
              [EnsuringRun(runId, None), Claiming(r, now), Transitioning(runId, WorkflowRunStatus.Failed, now),
               Releasing(id, now)];
            ReleasesAt(db, sessions, 3) && !FollowsAt(db, sessions, 3)
  {
    var db, id := Db(map[], map[], map[], map[], []), ClaimId(r.attemptId);
    var sessions :=
      [EnsuringRun(runId, None), Claiming(r, now), Transitioning(runId, WorkflowRunStatus.Failed, now),
       Releasing(id, now)];
    forall i | 0 <= i < 3 ensures sessions[..i + 1][..i] == sessions[..i] && sessions[..i + 1][i] == sessions[i] {}
    assert sessions[..0] == [];
    assert CommitAll(db, sessions[..1]) == Commit(db, sessions[0]);
    assert CommitAll(db, sessions[..2]) == Commit(CommitAll(db, sessions[..1]), sessions[1]);
    assert CommitAll(db, sessions[..3]) == Commit(CommitAll(db, sessions[..2]), sessions[2]);
    assert sessions[..4][..3] == sessions[..3];
    SessionFollowsTableExactly(CommitAll(db, sessions[..3]), sessions[3]);
  }
}
