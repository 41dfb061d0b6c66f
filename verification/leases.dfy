/** Task claims held in memory: a claim map, and an index from each task to its active claim. */
module Leases {
  import opened Common
  import opened RuntimeContracts

  datatype Claim = Claim(
    claimId: string, taskId: string, runId: string, attemptId: string, workerId: string,
    leaseSeconds: int, status: ClaimStatus, claimedAt: int, heartbeatAt: int,
    expiredAt: Option<int>, reclaimedAt: Option<int>, releasedAt: Option<int>)

  const MICROSECONDS := 1_000_000

  /** The lease has run out: no heartbeat for the whole lease. */
  predicate LeaseOver(c: Claim, now: int) {
    now >= c.heartbeatAt + c.leaseSeconds * MICROSECONDS
  }

  /** What a sweep is asked: one run or all, claims to take back whatever their lease, and the time. */
  datatype Sweep = Sweep(runId: Option<string>, forced: set<string>, now: int)

  /** A claim a sweep takes back: active, of the swept run (or of any), and forced or out of lease. */
  predicate Sweeps(c: Claim, sweep: Sweep) {
    && (sweep.runId.Some? ==> c.runId == sweep.runId.value)
    && c.status.Active?
    && (c.claimId in sweep.forced || LeaseOver(c, sweep.now))
  }

  function TakenBack(c: Claim, now: int): Claim {
    c.(status := ClaimStatus.Reclaimed, expiredAt := Some(now), reclaimedAt := Some(now))
  }

  function NewClaim(id: string, r: Request, now: int): Claim {
    Claim(id, r.taskId, r.runId, r.attemptId, r.workerId, r.leaseSeconds, ClaimStatus.Active, now, now, None, None,
        None)
  }

  datatype Request = Request(taskId: string, runId: string, attemptId: string, workerId: string, leaseSeconds: int)

  datatype LeaseError = AlreadyActive | UnknownClaim | NotActive
  datatype Outcome = Granted(claim: Claim) | Swept(claims: seq<Claim>) | Refused(error: LeaseError)

  /** The manager's state; `order` is the insertion order of the claim dictionary. */
  datatype State = State(claims: map<string, Claim>, order: seq<string>, active: map<string, string>)

  const EMPTY := State(map[], [], map[])

  /** The calls. `id` in ClaimTask is the fresh identifier the call draws. */
  datatype Op =
    | ClaimTask(request: Request, id: string, now: int)
    | Heartbeat(id: string, now: int)
    | Release(id: string, now: int)
    | Reclaim(sweep: Sweep)

  // ----- the specification of one call -----

  /** The claims a sweep returns: those it takes back, in insertion order. */
  function SweptClaims(claims: map<string, Claim>, order: seq<string>, sweep: Sweep): seq<Claim>
    requires forall i :: 0 <= i < |order| ==> order[i] in claims
  {
    if order == [] then []
    else
      var id := order[|order| - 1];
      var earlier := SweptClaims(claims, order[..|order| - 1], sweep);
      if Sweeps(claims[id], sweep) then earlier + [TakenBack(claims[id], sweep.now)] else earlier
  }

  /** Whether a sweep over some of the claims takes back one of the task. */
  predicate SweepsTask(claims: map<string, Claim>, ids: set<string>, taskId: string, sweep: Sweep) {
    exists id :: id in ids && id in claims && claims[id].taskId == taskId && Sweeps(claims[id], sweep)
  }

  /** The claims and the index after a sweep over some of the claims. */
  function ClaimsAfter(claims: map<string, Claim>, ids: set<string>, sweep: Sweep): map<string, Claim> {
    map id | id in claims ::
      if id in ids && Sweeps(claims[id], sweep) then TakenBack(claims[id], sweep.now) else claims[id]
  }

  function ActiveAfter(s: State, ids: set<string>, sweep: Sweep): map<string, string> {
    map t | t in s.active && !SweepsTask(s.claims, ids, t, sweep) :: s.active[t]
  }

  function Step(s: State, op: Op): (State, Outcome)
    requires WellFormed(s)
  {
    match op
    case ClaimTask(r, id, now) =>
      if r.taskId in s.active && s.claims[s.active[r.taskId]].status.Active? then (s, Refused(AlreadyActive))
      else
        var claim := NewClaim(id, r, now);
        (State(s.claims[id := claim], if id in s.claims then s.order else s.order + [id], s.active[r.taskId := id]),
         Granted(claim))
    case Heartbeat(id, now) =>
      if id !in s.claims then (s, Refused(UnknownClaim))
      else if !s.claims[id].status.Active? then (s, Refused(NotActive))
      else
        var claim := s.claims[id].(heartbeatAt := now);
        (s.(claims := s.claims[id := claim]), Granted(claim))
    case Release(id, now) =>
      if id !in s.claims then (s, Refused(UnknownClaim))
      else
        var claim := s.claims[id].(status := ClaimStatus.Released, releasedAt := Some(now));
        (s.(claims := s.claims[id := claim], active := s.active - {claim.taskId}), Granted(claim))
    case Reclaim(sweep) =>
      (State(ClaimsAfter(s.claims, s.claims.Keys, sweep), s.order, ActiveAfter(s, s.claims.Keys, sweep)),
       Swept(SweptClaims(s.claims, s.order, sweep)))
  }

  /** What no call can break: the order lists every claim once, the index points at claims of the task it
      indexes, and claims are filed under their own ids. */
  ghost predicate WellFormed(s: State) {
    && (forall id :: id in s.order <==> id in s.claims)
    && (forall i, j :: 0 <= i < j < |s.order| ==> s.order[i] != s.order[j])
    && (forall t :: t in s.active ==> s.active[t] in s.claims && s.claims[s.active[t]].taskId == t)
    && (forall id :: id in s.claims ==> s.claims[id].claimId == id)
  }

  // ----- the manager as it runs -----

  class ClaimLeaseManager {
    var claims: map<string, Claim>
    var order: seq<string>
    var active: map<string, string>

    ghost function Contents(): State
      reads this
    {
      State(claims, order, active)
    }

    constructor ()
      ensures Contents() == EMPTY
    {
      claims, order, active := map[], [], map[];
    }

    method Claim(request: Request, id: string, now: int) returns (outcome: Outcome)
      requires WellFormed(Contents()) && id !in claims
      modifies this
      ensures WellFormed(Contents())
      ensures (Contents(), outcome) == Step(old(Contents()), ClaimTask(request, id, now))
    {
      if request.taskId in active && claims[active[request.taskId]].status.Active? {
        return Refused(AlreadyActive);
      }
      var claim := NewClaim(id, request, now);
      claims, order := claims[id := claim], order + [id];
      active := active[request.taskId := id];
      outcome := Granted(claim);
    }

    method HeartbeatClaim(id: string, now: int) returns (outcome: Outcome)
      requires WellFormed(Contents())
      modifies this`claims
      ensures WellFormed(Contents())
      ensures (Contents(), outcome) == Step(old(Contents()), Heartbeat(id, now))
    {
      if id !in claims { return Refused(UnknownClaim); }
      if !claims[id].status.Active? { return Refused(NotActive); }
      var updated := claims[id].(heartbeatAt := now);
      claims := claims[id := updated];
      outcome := Granted(updated);
    }

    /** Releases whatever the claim's status, and drops the task's index entry whichever claim it names. */
    method ReleaseClaim(id: string, now: int) returns (outcome: Outcome)
      requires WellFormed(Contents())
      modifies this`claims, this`active
      ensures WellFormed(Contents())
      ensures (Contents(), outcome) == Step(old(Contents()), Release(id, now))
    {
      if id !in claims { return Refused(UnknownClaim); }
      var updated := claims[id].(status := ClaimStatus.Released, releasedAt := Some(now));
      claims := claims[id := updated];
      active := active - {updated.taskId};
      outcome := Granted(updated);
    }

    /** The body of the sweep: skip a claim of another run, one that is not active, one still in lease. */
    method Visit(id: string, sweep: Sweep) returns (taken: seq<Claim>)
      requires id in claims && claims[id].claimId == id
      modifies this`claims, this`active
      ensures Contents() == AfterVisit(old(Contents()), id, sweep)
      ensures taken == if Sweeps(old(claims[id]), sweep) then [TakenBack(old(claims[id]), sweep.now)] else []
    {
      var claim := claims[id];
      if sweep.runId.Some? && claim.runId != sweep.runId.value { return []; }
      if !claim.status.Active? { return []; }
      if claim.claimId !in sweep.forced && !LeaseOver(claim, sweep.now) { return []; }
      var updated := claim.(status := ClaimStatus.Reclaimed, expiredAt := Some(sweep.now),
          reclaimedAt := Some(sweep.now));
      claims := claims[id := updated];
      active := active - {claim.taskId};
      taken := [updated];
    }

    method ReclaimStaleClaims(sweep: Sweep) returns (outcome: Outcome)
      requires WellFormed(Contents())
      modifies this`claims, this`active
      ensures WellFormed(Contents())
      ensures (Contents(), outcome) == Step(old(Contents()), Reclaim(sweep))
    {
      AllVisited(Contents(), sweep);
      StepKeepsWellFormed(Contents(), Reclaim(sweep));
      forall i | 0 <= i < |order| { NotYetVisited(Contents(), sweep, i); }
      var reclaimed := VisitAll(sweep);
      outcome := Swept(reclaimed);
    }

    method VisitAll(sweep: Sweep) returns (reclaimed: seq<Claim>)
      requires forall i :: 0 <= i < |order| ==> order[i] in claims
      requires forall i :: 0 <= i < |order| ==> Unvisited(Contents(), sweep, i)
      modifies this`claims, this`active
      ensures Contents() == VisitedTo(old(Contents()), sweep, |order|)
      ensures reclaimed == SweptClaims(old(claims), order, sweep)
    {
      ghost var before := Contents();
      reclaimed := [];
      for i := 0 to |order|
        invariant Contents() == VisitedTo(before, sweep, i)
        invariant reclaimed == SweptClaims(before.claims, order[..i], sweep)
      {
        assert Unvisited(before, sweep, i);
        VisitOneMore(before, sweep, i);
        var taken := Visit(order[i], sweep);
        reclaimed := reclaimed + taken;
      }
      assert order[..|order|] == order;
    }
  }

  /** One claim looked at by a sweep. */
  function AfterVisit(s: State, id: string, sweep: Sweep): State
    requires id in s.claims
  {
    var c := s.claims[id];
    if Sweeps(c, sweep)
    then s.(claims := s.claims[id := TakenBack(c, sweep.now)], active := s.active - {c.taskId})
    else s
  }

  /** The first n claims of the order looked at. */
  ghost function VisitedTo(s: State, sweep: Sweep, n: nat): (t: State)
    requires n <= |s.order| && forall i :: 0 <= i < |s.order| ==> s.order[i] in s.claims
    ensures t.order == s.order && t.claims.Keys == s.claims.Keys
  {
    if n == 0 then s else AfterVisit(VisitedTo(s, sweep, n - 1), s.order[n - 1], sweep)
  }

  /** The first n claims of the order. */
  ghost function Seen(order: seq<string>, n: nat): set<string>
    requires n <= |order|
  {
    if n == 0 then {} else Seen(order, n - 1) + {order[n - 1]}
  }

  lemma {:induction false} SeenAll(order: seq<string>, n: nat)
    requires n <= |order|
    ensures forall id :: id in Seen(order, n) <==> id in order[..n]
  {
    if n > 0 { SeenAll(order, n - 1); }
  }

  lemma SeenOnce(order: seq<string>, n: nat)
    requires n < |order| && forall i, j :: 0 <= i < j < |order| ==> order[i] != order[j]
    ensures order[n] !in Seen(order, n)
  {
    SeenAll(order, n);
  }

  lemma SweepOfNothing(s: State, sweep: Sweep)
    ensures ClaimsAfter(s.claims, {}, sweep) == s.claims && ActiveAfter(s, {}, sweep) == s.active
  {
  }

  /** Looking at one more claim: take it back and drop its task from the index, or leave everything. */
  lemma SweepOne(s: State, seen: set<string>, id: string, sweep: Sweep)
    requires id in s.claims && id !in seen
    ensures var claims, active := ClaimsAfter(s.claims, seen, sweep), ActiveAfter(s, seen, sweep);
            var c := s.claims[id];
            && claims[id] == c
            && ClaimsAfter(s.claims, seen + {id}, sweep) ==
                (if Sweeps(c, sweep) then claims[id := TakenBack(c, sweep.now)] else claims)
            && ActiveAfter(s, seen + {id}, sweep) == (if Sweeps(c, sweep) then active - {c.taskId} else active)
  {
    forall t ensures SweepsTask(s.claims, seen + {id}, t, sweep) <==>
                     SweepsTask(s.claims, seen, t, sweep) || (s.claims[id].taskId == t && Sweeps(s.claims[id], sweep)) {
      if SweepsTask(s.claims, seen, t, sweep) {
        var j :| j in seen && j in s.claims && s.claims[j].taskId == t && Sweeps(s.claims[j], sweep);
        assert j in seen + {id};
      }
      if s.claims[id].taskId == t && Sweeps(s.claims[id], sweep) { assert id in seen + {id}; }
    }
  }

  function SweptState(s: State, seen: set<string>, sweep: Sweep): State {
    State(ClaimsAfter(s.claims, seen, sweep), s.order, ActiveAfter(s, seen, sweep))
  }

  lemma SweptOneMore(s: State, seen: set<string>, id: string, sweep: Sweep)
    requires id in s.claims && id !in seen
    ensures SweptState(s, seen + {id}, sweep) == AfterVisit(SweptState(s, seen, sweep), id, sweep)
  {
    SweepOne(s, seen, id, sweep);
  }

  /** A claim is as it was when its turn comes. */
  ghost predicate Unvisited(s: State, sweep: Sweep, n: nat)
    requires n < |s.order| && forall i :: 0 <= i < |s.order| ==> s.order[i] in s.claims
  {
    VisitedTo(s, sweep, n).claims[s.order[n]] == s.claims[s.order[n]] && s.claims[s.order[n]].claimId == s.order[n]
  }

  lemma VisitOneMore(s: State, sweep: Sweep, n: nat)
    requires n < |s.order| && forall i :: 0 <= i < |s.order| ==> s.order[i] in s.claims
    ensures VisitedTo(s, sweep, n + 1) == AfterVisit(VisitedTo(s, sweep, n), s.order[n], sweep)
    ensures var c := s.claims[s.order[n]];
            SweptClaims(s.claims, s.order[..n + 1], sweep) ==
            SweptClaims(s.claims, s.order[..n], sweep) + if Sweeps(c, sweep) then [TakenBack(c, sweep.now)] else []
  {
    assert s.order[..n + 1][..n] == s.order[..n];
  }

  /** Looking at claims one by one comes to sweeping those looked at. */
  lemma {:induction false} VisitedIsSwept(s: State, sweep: Sweep, n: nat)
    requires n <= |s.order| && forall i :: 0 <= i < |s.order| ==> s.order[i] in s.claims
    requires forall i, j :: 0 <= i < j < |s.order| ==> s.order[i] != s.order[j]
    ensures VisitedTo(s, sweep, n) == SweptState(s, Seen(s.order, n), sweep)
  {
    if n == 0 {
      SweepOfNothing(s, sweep);
    } else {
      VisitedIsSwept(s, sweep, n - 1);
      SeenOnce(s.order, n - 1);
      SweptOneMore(s, Seen(s.order, n - 1), s.order[n - 1], sweep);
    }
  }

  lemma NotYetVisited(s: State, sweep: Sweep, n: nat)
    requires WellFormed(s) && n < |s.order|
    ensures Unvisited(s, sweep, n)
  {
    VisitedIsSwept(s, sweep, n);
    SeenOnce(s.order, n);
  }

  lemma AllVisited(s: State, sweep: Sweep)
    requires WellFormed(s)
    ensures VisitedTo(s, sweep, |s.order|) == Step(s, Reclaim(sweep)).0
  {
    VisitedIsSwept(s, sweep, |s.order|);
    SeenIsAll(s);
  }

  lemma SeenIsAll(s: State)
    requires WellFormed(s)
    ensures Seen(s.order, |s.order|) == s.claims.Keys
  {
    SeenAll(s.order, |s.order|);
    assert s.order[..|s.order|] == s.order;
  }

  // ----- the index invariant -----

  predicate Indexed(s: State, taskId: string, id: string) {
    taskId in s.active && s.active[taskId] == id
  }

  predicate Holds(s: State, taskId: string, id: string) {
    id in s.claims && s.claims[id].status.Active? && s.claims[id].taskId == taskId
  }

  /** The index names, for each task, exactly its active claim; so a task has at most one. */
  ghost predicate IndexExact(s: State) {
    forall t, id :: Indexed(s, t, id) <==> Holds(s, t, id)
  }

  ghost predicate FreshId(s: State, op: Op) {
    op.ClaimTask? ==> op.id !in s.claims
  }

  /** The release of a claim that is no longer active while its task has another, active one. */
  ghost predicate MisplacedRelease(s: State, op: Op) {
    op.Release? && op.id in s.claims && !s.claims[op.id].status.Active? && s.claims[op.id].taskId in s.active
  }

  lemma StepKeepsWellFormed(s: State, op: Op)
    requires WellFormed(s) && FreshId(s, op)
    ensures WellFormed(Step(s, op).0)
  {
  }

  lemma OneActivePerTask(s: State, taskId: string, a: string, b: string)
    requires IndexExact(s) && Holds(s, taskId, a) && Holds(s, taskId, b)
    ensures a == b
  {
    assert Indexed(s, taskId, a) && Indexed(s, taskId, b);
  }

  lemma SweepKeepsIndex(s: State, op: Op)
    requires WellFormed(s) && IndexExact(s) && op.Reclaim?
    ensures IndexExact(Step(s, op).0)
  {
    var after := Step(s, op).0;
    forall t, id ensures Indexed(after, t, id) <==> Holds(after, t, id) {
      assert Indexed(s, t, id) <==> Holds(s, t, id);
      if SweepsTask(s.claims, s.claims.Keys, t, op.sweep) {
        var j :| j in s.claims && s.claims[j].taskId == t && Sweeps(s.claims[j], op.sweep);
        assert Holds(s, t, j);
        if Holds(s, t, id) { OneActivePerTask(s, t, j, id); }
      }
    }
  }

  lemma ReleaseAndIndex(s: State, op: Op)
    requires WellFormed(s) && IndexExact(s) && op.Release? && op.id in s.claims
    ensures IndexExact(Step(s, op).0) <==> !MisplacedRelease(s, op)
  {
    var after := Step(s, op).0;
    var task := s.claims[op.id].taskId;
    if MisplacedRelease(s, op) {
      assert Holds(s, task, s.active[task]);
      assert Holds(after, task, s.active[task]) && !Indexed(after, task, s.active[task]);
    } else {
      forall t, id ensures Indexed(after, t, id) <==> Holds(after, t, id) {
        assert Indexed(s, t, id) <==> Holds(s, t, id);
        if t == task && Holds(s, task, op.id) && Holds(s, t, id) { OneActivePerTask(s, t, op.id, id); }
      }
    }
  }

  lemma ClaimKeepsIndex(s: State, op: Op)
    requires WellFormed(s) && IndexExact(s) && op.ClaimTask? && FreshId(s, op)
    ensures IndexExact(Step(s, op).0)
  {
    var after := Step(s, op).0;
    forall t, id ensures Indexed(after, t, id) <==> Holds(after, t, id) {
      assert Indexed(s, t, id) <==> Holds(s, t, id);
    }
  }

  /** Every call keeps the index exact, except a misplaced release, which always breaks it. */
  lemma IndexKeptExactly(s: State, op: Op)
    requires WellFormed(s) && IndexExact(s) && FreshId(s, op)
    ensures IndexExact(Step(s, op).0) <==> !MisplacedRelease(s, op)
  {
    match op
    case ClaimTask(_, _, _) => ClaimKeepsIndex(s, op);
    case Heartbeat(_, _) =>
      forall t, id ensures Indexed(Step(s, op).0, t, id) <==> Holds(Step(s, op).0, t, id) {
        assert Indexed(s, t, id) <==> Holds(s, t, id);
      }
    case Release(_, _) => if op.id in s.claims { ReleaseAndIndex(s, op); }
    case Reclaim(_) => SweepKeepsIndex(s, op);
  }

  /** After a misplaced release the task can be claimed a second time: two active claims, from every such state. */
  lemma MisplacedReleaseDoublesClaims(s: State, release: Op, claim: Op)
    requires WellFormed(s) && IndexExact(s) && MisplacedRelease(s, release)
    requires claim.ClaimTask? && claim.request.taskId == s.claims[release.id].taskId && claim.id !in s.claims
    ensures WellFormed(Step(s, release).0)
    ensures var (after, outcome) := Step(Step(s, release).0, claim);
            var task, held := claim.request.taskId, s.active[claim.request.taskId];
            outcome.Granted? && held != claim.id && Holds(after, task, held) && Holds(after, task, claim.id)
  {
    assert Indexed(s, claim.request.taskId, s.active[claim.request.taskId]);
  }

  // ----- whole runs -----

  /** One call, on any state the manager can be in. */
  ghost predicate Stepped(s: State, op: Op, after: State) {
    FreshId(s, op) && (WellFormed(s) ==> after == Step(s, op).0)
  }

  /** A run of the manager from its empty state: the states between the calls. */
  ghost predicate Execution(states: seq<State>, ops: seq<Op>) {
    && |states| == |ops| + 1
    && states[0] == EMPTY
    && forall i :: 0 <= i < |ops| ==> Stepped(states[i], ops[i], states[i + 1])
  }

  lemma {:induction false} ExecutionWellFormed(states: seq<State>, ops: seq<Op>, n: nat)
    requires Execution(states, ops) && n < |states|
    ensures WellFormed(states[n])
  {
    if n > 0 {
      ExecutionWellFormed(states, ops, n - 1);
      assert Stepped(states[n - 1], ops[n - 1], states[n]);
      StepKeepsWellFormed(states[n - 1], ops[n - 1]);
    }
  }

  lemma {:induction false} IndexExactSoFar(states: seq<State>, ops: seq<Op>, n: nat)
    requires Execution(states, ops) && n < |states|
    requires forall i :: 0 <= i < n ==> !MisplacedRelease(states[i], ops[i])
    ensures IndexExact(states[n])
  {
    if n > 0 {
      IndexExactSoFar(states, ops, n - 1);
      ExecutionWellFormed(states, ops, n - 1);
      assert Stepped(states[n - 1], ops[n - 1], states[n]);
      IndexKeptExactly(states[n - 1], ops[n - 1]);
    }
  }

  /** Over every run, the index is exact throughout if and only if no release is misplaced. */
  lemma IndexExactThroughout(states: seq<State>, ops: seq<Op>)
    requires Execution(states, ops)
    ensures (forall i :: 0 <= i < |states| ==> IndexExact(states[i])) <==>
            (forall i :: 0 <= i < |ops| ==> !MisplacedRelease(states[i], ops[i]))
  {
    if forall i :: 0 <= i < |ops| ==> !MisplacedRelease(states[i], ops[i]) {
      forall n | 0 <= n < |states| { IndexExactSoFar(states, ops, n); }
    }
    if forall i :: 0 <= i < |states| ==> IndexExact(states[i]) {
      forall i | 0 <= i < |ops| ensures !MisplacedRelease(states[i], ops[i]) {
        ExecutionWellFormed(states, ops, i);
        assert Stepped(states[i], ops[i], states[i + 1]);
        IndexKeptExactly(states[i], ops[i]);
      }
    }
  }

  /** The state after some calls on the empty manager. */
  ghost predicate Reaches(ops: seq<Op>, s: State) {
    exists states :: Execution(states, ops) && states[|ops|] == s
  }

  lemma ReachesNothing()
    ensures Reaches([], EMPTY)
  {
    assert Execution([EMPTY], []);
  }

  lemma ReachesOneMore(ops: seq<Op>, s: State, op: Op)
    requires Reaches(ops, s) && FreshId(s, op)
    ensures WellFormed(s) && Reaches(ops + [op], Step(s, op).0)
  {
    var states :| Execution(states, ops) && states[|ops|] == s;
    ExecutionWellFormed(states, ops, |ops|);
    var more := states + [Step(s, op).0];
    forall i | 0 <= i < |ops + [op]| ensures Stepped(more[i], (ops + [op])[i], more[i + 1]) {
      if i < |ops| { assert Stepped(states[i], ops[i], states[i + 1]); }
    }
    assert Execution(more, ops + [op]);
  }

  lemma ReachesExactly(ops: seq<Op>, s: State, op: Op)
    requires Reaches(ops, s) && FreshId(s, op) && WellFormed(s) && IndexExact(s) && !MisplacedRelease(s, op)
    ensures Reaches(ops + [op], Step(s, op).0) && WellFormed(Step(s, op).0) && IndexExact(Step(s, op).0)
  {
    ReachesOneMore(ops, s, op);
    StepKeepsWellFormed(s, op);
    IndexKeptExactly(s, op);
  }

  lemma FirstReleaseReachable(r: Request, now: int) returns (ops: seq<Op>, s: State)
    ensures ops == [ClaimTask(r, "c1", now), Release("c1", now)]
    ensures Reaches(ops, s) && WellFormed(s) && IndexExact(s)
    ensures s.claims.Keys == {"c1"} && s.claims["c1"].taskId == r.taskId && s.claims["c1"].status.Released?
    ensures s.active == map[]
  {
    ReachesNothing();
    ReachesExactly([], EMPTY, ClaimTask(r, "c1", now));
    var s1 := Step(EMPTY, ClaimTask(r, "c1", now)).0;
    ops := [] + [ClaimTask(r, "c1", now)];
    ReachesExactly(ops, s1, Release("c1", now));
    s := Step(s1, Release("c1", now)).0;
    ops := ops + [Release("c1", now)];
  }

  /** Claim, release, claim again: the first claim is still there to be released a second time. */
  lemma SecondClaimReachable(r: Request, now: int) returns (ops: seq<Op>, s: State)
    ensures ops == [ClaimTask(r, "c1", now), Release("c1", now), ClaimTask(r, "c2", now)]
    ensures Reaches(ops, s) && WellFormed(s) && IndexExact(s)
    ensures s.claims.Keys == {"c1", "c2"} && s.claims["c1"].taskId == r.taskId && s.active == map[r.taskId := "c2"]
    ensures MisplacedRelease(s, Release("c1", now))
  {
    var two, s2 := FirstReleaseReachable(r, now);
    ReachesExactly(two, s2, ClaimTask(r, "c2", now));
    s := Step(s2, ClaimTask(r, "c2", now)).0;
    ops := two + [ClaimTask(r, "c2", now)];
  }

  /** A run of the manager on which one task ends up with two active claims: claim, release, claim again, release
      the first claim again, claim a third time. */
  lemma TwoActiveClaimsReachable(r: Request, now: int) returns (ops: seq<Op>, s: State)
    ensures ops == [ClaimTask(r, "c1", now), Release("c1", now), ClaimTask(r, "c2", now), Release("c1", now),
                    ClaimTask(r, "c3", now)]
    ensures Reaches(ops, s) && Holds(s, r.taskId, "c2") && Holds(s, r.taskId, "c3") && !IndexExact(s)
  {
    var release, claim := Release("c1", now), ClaimTask(r, "c3", now);
    var three, s3 := SecondClaimReachable(r, now);
    ReachesOneMore(three, s3, release);
    MisplacedReleaseDoublesClaims(s3, release, claim);
    var s4 := Step(s3, release).0;
    ReachesOneMore(three + [release], s4, claim);
    s := Step(s4, claim).0;
    ops := three + [release] + [claim];
    if IndexExact(s) { OneActivePerTask(s, r.taskId, "c2", "c3"); }
  }

  // ----- claim histories -----

  /** From one state to the next, claims stay, keep who they are for, and change status along the table. */
  ghost predicate FollowsTable(s: State, after: State) {
    forall id :: id in s.claims ==>
      id in after.claims && ClaimTransitionAllowed(s.claims[id].status, after.claims[id].status)
  }

  /** The release of a claim that was taken back before. */
  ghost predicate LateRelease(s: State, op: Op) {
    op.Release? && op.id in s.claims && (s.claims[op.id].status.Reclaimed? || s.claims[op.id].status.Expired?)
  }

  lemma StepFollowsTableExactly(s: State, op: Op)
    requires WellFormed(s) && FreshId(s, op)
    ensures FollowsTable(s, Step(s, op).0) <==> !LateRelease(s, op)
    ensures forall id :: id in Step(s, op).0.claims && id !in s.claims ==> Step(s, op).0.claims[id].status.Active?
    ensures forall id :: id in s.claims ==> SameLease(s.claims[id], Step(s, op).0.claims[id])
  {
    if LateRelease(s, op) {
      assert !ClaimTransitionAllowed(s.claims[op.id].status, Step(s, op).0.claims[op.id].status);
    }
  }

  /** Who holds what for how long never changes. */
  predicate SameLease(a: Claim, b: Claim) {
    && a.claimId == b.claimId && a.taskId == b.taskId && a.runId == b.runId && a.attemptId == b.attemptId
    && a.workerId == b.workerId && a.leaseSeconds == b.leaseSeconds && a.claimedAt == b.claimedAt
  }

  /** Over every run, every claim's status history is a path in the transition table if and only if no claim is
      released after it was taken back. */
  lemma HistoriesFollowTable(states: seq<State>, ops: seq<Op>)
    requires Execution(states, ops)
    ensures (forall i :: 0 <= i < |ops| ==> FollowsTable(states[i], states[i + 1])) <==>
            (forall i :: 0 <= i < |ops| ==> !LateRelease(states[i], ops[i]))
  {
    forall i | 0 <= i < |ops| ensures FollowsTable(states[i], states[i + 1]) <==> !LateRelease(states[i], ops[i]) {
      ExecutionWellFormed(states, ops, i);
      assert Stepped(states[i], ops[i], states[i + 1]);
      StepFollowsTableExactly(states[i], ops[i]);
    }
    if forall i :: 0 <= i < |ops| ==> FollowsTable(states[i], states[i + 1]) {
      forall i | 0 <= i < |ops| ensures !LateRelease(states[i], ops[i]) {
        assert FollowsTable(states[i], states[i + 1]);
      }
    }
  }

  /** A run on which a claim leaves the table: claimed, taken back by a sweep, then released. */
  lemma ReclaimedClaimCanBeReleased(r: Request, now: int) returns (ops: seq<Op>, before: State, after: State)
    ensures ops == [ClaimTask(r, "c1", now), Reclaim(Sweep(None, {"c1"}, now)), Release("c1", now)]
    ensures Reaches(ops[..2], before) && Reaches(ops, after)
    ensures "c1" in before.claims && "c1" in after.claims
    ensures !ClaimTransitionAllowed(before.claims["c1"].status, after.claims["c1"].status)
  {
    ops := [ClaimTask(r, "c1", now), Reclaim(Sweep(None, {"c1"}, now)), Release("c1", now)];
    ReachesNothing();
    ReachesOneMore([], EMPTY, ops[0]);
    var s1 := Step(EMPTY, ops[0]).0;
    assert Sweeps(s1.claims["c1"], ops[1].sweep);
    ReachesOneMore([ops[0]], s1, ops[1]);
    before := Step(s1, ops[1]).0;
    assert ops[..2] == [ops[0]] + [ops[1]];
    ReachesOneMore(ops[..2], before, ops[2]);
    after := Step(before, ops[2]).0;
    assert ops == ops[..2] + [ops[2]];
  }
}
