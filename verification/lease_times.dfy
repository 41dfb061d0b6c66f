/** How long a lease lasts, in both forms of the claim protocol: from its last heartbeat, for as long as asked. */
module LeaseTimes {
  import opened Common
  import opened RuntimeContracts
  import opened Leases
  import opened RuntimePersistence
  import opened Recovery

  // ----- a claim and its heartbeats -----

  /** The claim stands as it was granted, with its last heartbeat at h. */
  predicate Stands(claims: map<string, Claim>, id: string, r: Request, h: int) {
    && id in claims && claims[id].claimId == id && claims[id].heartbeatAt == h
    && claims[id].taskId == r.taskId && claims[id].runId == r.runId && claims[id].attemptId == r.attemptId
    && claims[id].workerId == r.workerId && claims[id].leaseSeconds == r.leaseSeconds
  }

  /** One step keeps the claim standing: with the time of the beat, if the step is one. */
  ghost predicate StandsOn(before: map<string, Claim>, after: map<string, Claim>, beat: Option<int>, id: string,
      r: Request)
  {
    forall h: int :: Stands(before, id, r, h) ==> Stands(after, id, r, if beat.Some? then beat.value else h)
  }

  /** The last beat among the first n steps. */
  predicate LastBeat(beats: seq<Option<int>>, b: nat, n: nat)
    requires n <= |beats|
  {
    b < n && beats[b].Some? && forall i :: b < i < n ==> beats[i].None?
  }

  /** From the grant on, the claim stands with the time of its last beat. */
  lemma {:induction false} StandsSince(claims: seq<map<string, Claim>>, beats: seq<Option<int>>, id: string, r: Request,
      c: nat, n: nat) returns (b: nat)
    requires |claims| == |beats| + 1 && c < n <= |beats|
    requires beats[c].Some? && Stands(claims[c + 1], id, r, beats[c].value)
    requires forall i :: c < i < |beats| ==> StandsOn(claims[i], claims[i + 1], beats[i], id, r)
    ensures c <= b && LastBeat(beats, b, n) && Stands(claims[n], id, r, beats[b].value)
  {
    if n == c + 1 {
      b := c;
    } else {
      b := StandsSince(claims, beats, id, r, c, n - 1);
      assert StandsOn(claims[n - 1], claims[n], beats[n - 1], id, r);
      if beats[n - 1].Some? { b := n - 1; }
    }
  }

  /** The sweep is about the claim's run, and does not force the claim. */
  predicate Unforced(sweep: Sweep, id: string, runId: string) {
    id !in sweep.forced && (sweep.runId.Some? ==> sweep.runId.value == runId)
  }

  /** What a sweep leaves of an active claim whose lease ends at `end`: before that nothing changes; from then on it is
      taken back, with the time of the sweep. */
  ghost predicate EndsAt(before: Claim, after: Claim, now: int, end: int) {
    if now < end then after == before
    else after == before.(status := ClaimStatus.Reclaimed, expiredAt := Some(now), reclaimedAt := Some(now))
  }

  // ----- the manager -----

  /** The call grants this claim, or a heartbeat of it: its time. */
  function BeatOf(s: State, op: Op, id: string): Option<int>
    requires WellFormed(s)
  {
    if (op.ClaimTask? || op.Heartbeat?) && op.id == id && Step(s, op).1.Granted? then Some(op.now) else None
  }

  function Beats(states: seq<State>, ops: seq<Op>, id: string): (beats: seq<Option<int>>)
    requires |states| == |ops| + 1 && forall i :: 0 <= i < |states| ==> WellFormed(states[i])
    ensures |beats| == |ops| && forall i :: 0 <= i < |ops| ==> beats[i] == BeatOf(states[i], ops[i], id)
  {
    seq(|ops|, i requires 0 <= i < |ops| => BeatOf(states[i], ops[i], id))
  }

  lemma StepStands(s: State, op: Op, id: string, r: Request)
    requires WellFormed(s) && FreshId(s, op)
    ensures StandsOn(s.claims, Step(s, op).0.claims, BeatOf(s, op, id), id, r)
  {
  }

  lemma GrantStands(s: State, op: Op, id: string)
    requires WellFormed(s) && FreshId(s, op) && op.ClaimTask? && BeatOf(s, op, id).Some?
    ensures Stands(Step(s, op).0.claims, id, op.request, op.now)
  {
  }

  /** In every run all states are well formed, which is what beats are defined on. */
  lemma AllWellFormed(states: seq<State>, ops: seq<Op>)
    requires Execution(states, ops)
    ensures forall i :: 0 <= i < |states| ==> WellFormed(states[i])
  {
    forall i | 0 <= i < |states| { ExecutionWellFormed(states, ops, i); }
  }

  lemma StepsStand(states: seq<State>, ops: seq<Op>, id: string, r: Request, i: nat)
    requires Execution(states, ops) && forall i :: 0 <= i < |states| ==> WellFormed(states[i])
    requires i < |ops|
    ensures StandsOn(states[i].claims, states[i + 1].claims, BeatOf(states[i], ops[i], id), id, r)
  {
    assert Stepped(states[i], ops[i], states[i + 1]);
    StepStands(states[i], ops[i], id, r);
  }

  lemma GrantedStands(states: seq<State>, ops: seq<Op>, id: string, c: nat)
    requires Execution(states, ops) && forall i :: 0 <= i < |states| ==> WellFormed(states[i])
    requires c < |ops| && ops[c].ClaimTask? && BeatOf(states[c], ops[c], id).Some?
    ensures Stands(states[c + 1].claims, id, ops[c].request, ops[c].now)
  {
    assert Stepped(states[c], ops[c], states[c + 1]);
    GrantStands(states[c], ops[c], id);
  }

  function ClaimsOf(states: seq<State>): (claims: seq<map<string, Claim>>)
    ensures |claims| == |states| && forall i :: 0 <= i < |states| ==> claims[i] == states[i].claims
  {
    seq(|states|, i requires 0 <= i < |states| => states[i].claims)
  }

  /** The claims between the calls, and the beats of one claim. */
  ghost predicate IsTrace(claims: seq<map<string, Claim>>, beats: seq<Option<int>>, id: string, r: Request, c: nat) {
    && |claims| == |beats| + 1 && c < |beats|
    && beats[c].Some? && Stands(claims[c + 1], id, r, beats[c].value)
    && forall i :: c < i < |beats| ==> StandsOn(claims[i], claims[i + 1], beats[i], id, r)
  }

  lemma ManagerTrace(states: seq<State>, ops: seq<Op>, id: string, c: nat)
    requires Execution(states, ops) && forall i :: 0 <= i < |states| ==> WellFormed(states[i])
    requires c < |ops| && ops[c].ClaimTask? && BeatOf(states[c], ops[c], id).Some?
    ensures IsTrace(ClaimsOf(states), Beats(states, ops, id), id, ops[c].request, c)
  {
    forall i | c < i < |ops|
      ensures StandsOn(states[i].claims, states[i + 1].claims, Beats(states, ops, id)[i], id, ops[c].request)
    {
      StepsStand(states, ops, id, ops[c].request, i);
    }
    GrantedStands(states, ops, id, c);
    BeatIsNow(states[c], ops[c], id);
  }

  lemma TraceStands(claims: seq<map<string, Claim>>, beats: seq<Option<int>>, id: string, r: Request, c: nat, b: nat)
    requires IsTrace(claims, beats, id, r, c) && c <= b && LastBeat(beats, b, |beats|)
    ensures Stands(claims[|beats|], id, r, beats[b].value)
  {
    var last := StandsSince(claims, beats, id, r, c, |beats|);
  }

  lemma BeatIsNow(s: State, op: Op, id: string)
    requires WellFormed(s) && BeatOf(s, op, id).Some?
    ensures !op.Release? && !op.Reclaim? && BeatOf(s, op, id).value == op.now
  {
  }

  /** Over every run of the manager: a claim that was granted by call c, last beaten by call b (or never since), and is
      active, survives an unforced sweep before the time of b plus its lease, and is taken back and returned by one from
      then on. */
  lemma ManagerKeepsLeases(states: seq<State>, ops: seq<Op>, id: string, c: nat, b: nat, sweep: Sweep)
    requires Execution(states, ops) && forall i :: 0 <= i < |states| ==> WellFormed(states[i])
    requires LastBeat(Beats(states, ops, id), b, |ops|)
    requires c <= b && ops[c].ClaimTask? && BeatOf(states[c], ops[c], id).Some?
    requires Unforced(sweep, id, ops[c].request.runId)
    requires id in states[|ops|].claims && states[|ops|].claims[id].status.Active?
    ensures !ops[b].Release? && !ops[b].Reclaim?
    ensures var (after, outcome) := Step(states[|ops|], Reclaim(sweep));
            var end := ops[b].now + ops[c].request.leaseSeconds * 1_000_000;
            && id in after.claims && EndsAt(states[|ops|].claims[id], after.claims[id], sweep.now, end)
            && outcome.Swept? && (after.claims[id] in outcome.claims <==> sweep.now >= end)
  {
    ManagerTrace(states, ops, id, c);
    TraceStands(ClaimsOf(states), Beats(states, ops, id), id, ops[c].request, c, b);
    BeatIsNow(states[b], ops[b], id);
    SweepEnds(states[|ops|], id, ops[c].request, ops[b].now, sweep);
  }

  lemma SweepEnds(s: State, id: string, r: Request, h: int, sweep: Sweep)
    requires WellFormed(s) && Stands(s.claims, id, r, h) && s.claims[id].status.Active? && Unforced(sweep, id, r.runId)
    ensures var (after, outcome) := Step(s, Reclaim(sweep));
            var end := h + r.leaseSeconds * 1_000_000;
            && id in after.claims && EndsAt(s.claims[id], after.claims[id], sweep.now, end)
            && outcome.Swept? && (after.claims[id] in outcome.claims <==> sweep.now >= end)
  {
    SweptAre(s, sweep, |s.order|, id);
    assert s.order[..|s.order|] == s.order;
  }

  /** A claim among the first n in order is returned by a sweep exactly when it is swept. */
  lemma {:induction false} SweptAre(s: State, sweep: Sweep, n: nat, id: string)
    requires WellFormed(s) && n <= |s.order| && id in s.claims
    requires forall i :: 0 <= i < |s.order| ==> s.order[i] in s.claims
    ensures forall k :: k in SweptClaims(s.claims, s.order[..n], sweep) ==> k.status.Reclaimed?
    ensures id in s.order[..n] && Sweeps(s.claims[id], sweep) ==>
            TakenBack(s.claims[id], sweep.now) in SweptClaims(s.claims, s.order[..n], sweep)
  {
    if n > 0 {
      assert s.order[..n][..n - 1] == s.order[..n - 1];
      SweptAre(s, sweep, n - 1, id);
      assert id in s.order[..n] ==> id in s.order[..n - 1] || id == s.order[n - 1];
    }
  }

  /** A forced sweep of the claim's run takes an active claim back at any time, and a sweep of another run never. */
  lemma ForcedAndForeignSweeps(s: State, id: string, sweep: Sweep)
    requires WellFormed(s) && id in s.claims && s.claims[id].status.Active?
    ensures var after := Step(s, Reclaim(sweep)).0.claims;
            && id in after
            && (id in sweep.forced && (sweep.runId.Some? ==> sweep.runId.value == s.claims[id].runId) ==>
                  after[id].status.Reclaimed?)
            && (sweep.runId.Some? && sweep.runId.value != s.claims[id].runId ==> after[id] == s.claims[id])
  {
  }

  /** The calls on one claim: a grant files it active under the drawn id, with the times of the call; a release marks it
      released, whatever its status; either leaves the other claims alone. */
  lemma CallsWrite(s: State, r: Request, id: string, now: int)
    requires WellFormed(s) && id !in s.claims
    ensures var (after, outcome) := Step(s, ClaimTask(r, id, now));
            outcome.Granted? ==>
              && after.claims.Keys == s.claims.Keys + {id} && outcome.claim == after.claims[id]
              && Stands(after.claims, id, r, now) && after.claims[id].claimedAt == now
              && after.claims[id].status.Active? && after.claims[id].releasedAt.None?
              && after.claims[id].expiredAt.None? && after.claims[id].reclaimedAt.None?
              && forall j :: j in s.claims ==> after.claims[j] == s.claims[j]
    ensures forall j :: j in s.claims ==>
              Step(s, Release(j, now)).0.claims ==
              s.claims[j := s.claims[j].(status := ClaimStatus.Released, releasedAt := Some(now))]
  {
  }

  // ----- the claim table -----

  /** The session grants a new claim row with this id, or a heartbeat of it: its time. */
  function RowBeatOf(db: Db, s: Session, id: string): Option<int> {
    match s
    case Claiming(r, now) =>
      if "claim-" + r.attemptId == id && id !in db.claims && GrantClaim(db, r, now).1.Granted? then Some(now) else None
    case Heartbeating(beaten, now) =>
      if beaten == id && id in db.claims && db.claims[id].status.Active? then Some(now) else None
    case _ => None
  }

  function TablesAt(db: Db, sessions: seq<Session>, i: nat): Db
    requires i <= |sessions|
  {
    CommitAll(db, sessions[..i])
  }

  function RowBeats(db: Db, sessions: seq<Session>, id: string): (beats: seq<Option<int>>)
    ensures |beats| == |sessions|
    ensures forall i :: 0 <= i < |sessions| ==> beats[i] == RowBeatOf(TablesAt(db, sessions, i), sessions[i], id)
  {
    seq(|sessions|, i requires 0 <= i < |sessions| => RowBeatOf(TablesAt(db, sessions, i), sessions[i], id))
  }

  lemma CommitStands(db: Db, s: Session, id: string, r: Request)
    ensures StandsOn(db.claims, Commit(db, s).claims, RowBeatOf(db, s, id), id, r)
  {
  }

  lemma GrantRowStands(db: Db, s: Session, id: string)
    requires s.Claiming? && RowBeatOf(db, s, id).Some?
    ensures Stands(Commit(db, s).claims, id, s.request, s.now)
  {
  }

  lemma CommittedAt(db: Db, sessions: seq<Session>, i: nat)
    requires i < |sessions|
    ensures TablesAt(db, sessions, i + 1) == Commit(TablesAt(db, sessions, i), sessions[i])
  {
    assert sessions[..i + 1][..i] == sessions[..i];
  }

  function RowsOf(db: Db, sessions: seq<Session>): (claims: seq<map<string, Claim>>)
    ensures |claims| == |sessions| + 1
    ensures forall i :: 0 <= i <= |sessions| ==> claims[i] == TablesAt(db, sessions, i).claims
  {
    seq(|sessions| + 1, i requires 0 <= i <= |sessions| => TablesAt(db, sessions, i).claims)
  }

  lemma TablesTrace(db: Db, sessions: seq<Session>, id: string, c: nat)
    requires c < |sessions| && sessions[c].Claiming? && RowBeatOf(TablesAt(db, sessions, c), sessions[c], id).Some?
    ensures IsTrace(RowsOf(db, sessions), RowBeats(db, sessions, id), id, sessions[c].request, c)
  {
    forall i | c < i < |sessions|
      ensures StandsOn(TablesAt(db, sessions, i).claims, TablesAt(db, sessions, i + 1).claims,
                       RowBeats(db, sessions, id)[i], id, sessions[c].request)
    {
      CommittedAt(db, sessions, i);
      CommitStands(TablesAt(db, sessions, i), sessions[i], id, sessions[c].request);
    }
    CommittedAt(db, sessions, c);
    GrantRowStands(TablesAt(db, sessions, c), sessions[c], id);
  }

  /** Over every sequence of sessions: a claim row that session c granted, that session b beat last (or c, if none has
      since), and that is active, survives an unforced sweep before the time of b plus its lease; from then on it is
      taken back, and its task and its attempt with it. The scan lists it from the same time on. */
  lemma TablesKeepLeases(db: Db, sessions: seq<Session>, id: string, c: nat, b: nat, sweep: Sweep)
    requires LastBeat(RowBeats(db, sessions, id), b, |sessions|)
    requires c <= b && sessions[c].Claiming? && RowBeatOf(TablesAt(db, sessions, c), sessions[c], id).Some?
    requires Unforced(sweep, id, sessions[c].request.runId)
    requires id in CommitAll(db, sessions).claims && CommitAll(db, sessions).claims[id].status.Active?
    ensures var before, r := CommitAll(db, sessions), sessions[c].request;
            var end := RowBeats(db, sessions, id)[b].value + r.leaseSeconds * 1_000_000;
            RowEndsAt(before, Commit(before, Sweeping(sweep)), id, r, sweep.now, end)
  {
    TablesTrace(db, sessions, id, c);
    TraceStands(RowsOf(db, sessions), RowBeats(db, sessions, id), id, sessions[c].request, c, b);
    assert sessions[..|sessions|] == sessions;
    RowEnds(CommitAll(db, sessions), id, sessions[c].request, RowBeats(db, sessions, id)[b].value, sweep);
  }

  /** What a sweep makes of an active claim row whose lease ends at `end`, and of its task and attempt. */
  ghost predicate RowEndsAt(before: Db, after: Db, id: string, r: Request, now: int, end: int)
    requires id in before.claims
  {
    && id in after.claims && EndsAt(before.claims[id], after.claims[id], now, end)
    && (id in StaleIds(before.claims, now) <==> now >= end)
    && (now >= end && r.taskId in before.tasks ==>
          Lookup(after.tasks, r.taskId) == Some(before.tasks[r.taskId].(status := TaskStatus.Reclaimed)))
    && (now >= end && r.attemptId in before.attempts ==>
          Lookup(after.attempts, r.attemptId) ==
          Some(before.attempts[r.attemptId].(status := TaskStatus.Reclaimed, endedAt := Some(now))))
  }

  lemma RowEnds(before: Db, id: string, r: Request, h: int, sweep: Sweep)
    requires Stands(before.claims, id, r, h) && before.claims[id].status.Active? && Unforced(sweep, id, r.runId)
    ensures RowEndsAt(before, Commit(before, Sweeping(sweep)), id, r, sweep.now, h + r.leaseSeconds * 1_000_000)
  {
    if sweep.now >= h + r.leaseSeconds * 1_000_000 {
      assert id in SweptIds(before.claims, sweep);
      assert r.taskId in TasksOf(before.claims, SweptIds(before.claims, sweep));
      assert r.attemptId in AttemptsOf(before.claims, SweptIds(before.claims, sweep));
    }
  }

  /** The task and the attempt of a claim that is swept for nothing else keep their rows. */
  lemma OtherRowsKept(before: Db, sweep: Sweep, id: string)
    ensures var after := Commit(before, Sweeping(sweep));
            && (id in before.tasks && id !in TasksOf(before.claims, SweptIds(before.claims, sweep)) ==>
                  Lookup(after.tasks, id) == Some(before.tasks[id]))
            && (id in before.attempts && id !in AttemptsOf(before.claims, SweptIds(before.claims, sweep)) ==>
                  Lookup(after.attempts, id) == Some(before.attempts[id]))
            && after.runs == before.runs && after.log == before.log
  {
  }

  /** A lease of a minute, claimed at 0 and beaten at 50 seconds, is good for a sweep at 70, and not for one at 110. */
  lemma HeartbeatExtends(r: Request, sweep: Sweep)
    requires r.leaseSeconds == 60 && r.attemptId == "a" && Unforced(sweep, "claim-a", r.runId)
    ensures var sessions := [Claiming(r, 0), Heartbeating("claim-a", 50_000_000)];
            var before := CommitAll(Db(map[], map[], map[], map[], []), sessions);
            var after := Commit(before, Sweeping(sweep));
            && "claim-a" in after.claims
            && (sweep.now == 70_000_000 ==> after.claims["claim-a"].status.Active?)
            && (sweep.now == 110_000_000 ==> after.claims["claim-a"].status.Reclaimed?)
  {
    var db := Db(map[], map[], map[], map[], []);
    var sessions := [Claiming(r, 0), Heartbeating("claim-a", 50_000_000)];
    assert sessions[..0] == [] && sessions[..2] == sessions;
    CommittedAt(db, sessions, 0);
    CommittedAt(db, sessions, 1);
    TablesKeepLeases(db, sessions, "claim-a", 0, 1, sweep);
  }
}
