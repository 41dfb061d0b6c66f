/** The attempt list of a task, as the rows give it and as the in-memory projector keeps it. */
module AttemptLists {
  import opened Common
  import opened RuntimeContracts
  import opened Events
  import opened EventStore
  import opened AttemptHistories
  import opened Leases
  import opened RuntimePersistence
  import opened AttemptMarks
  import opened AttemptRows
  import opened Percentiles
  import opened Sorting

  // ----- the list of rows -----

  /** The attempts whose rows belong to the task. */
  function RowsOf(attempts: map<string, Attempt>, t: string): set<string> {
    set a | a in attempts && attempts[a].taskId == t
  }

  /** An order the query may return the rows of the task in: by time of creation, equal times in any order. */
  ghost predicate RowOrder(ids: seq<string>, attempts: map<string, Attempt>, t: string, createdAt: string -> int) {
    Enumerates(ids, RowsOf(attempts, t)) && Ordered(ids, createdAt)
  }

  /** What the row projector returns for the task. */
  function RowList(db: Db, ids: seq<string>): seq<AttemptRecord>
    requires forall i :: 0 <= i < |ids| ==> ids[i] in db.attempts
  {
    seq(|ids|, i requires 0 <= i < |ids| => Projected(db, ids[i]))
  }

  ghost predicate ListsAgree(db: Db, t: string, ids: seq<string>) {
    (forall i :: 0 <= i < |ids| ==> ids[i] in db.attempts) && RowList(db, ids) == History(db.log, t)
  }

  // ----- when the lists agree -----

  /** Some event names the attempt with the task. */
  ghost predicate IsNamed(log: seq<Event>, t: string, a: string) {
    exists p :: 0 <= p < |log| && Names(log[p], t, a)
  }

  /** Event p is the first to name a, event q the first to name b. */
  ghost predicate NamedBefore(log: seq<Event>, t: string, a: string, b: string) {
    exists p, q :: FirstNamedAt(log, t, a, p) && FirstNamedAt(log, t, b, q) && p < q
  }

  /** The rows of the task are those of the attempts that events name with it. */
  ghost predicate SameAttempts(db: Db, t: string) {
    forall a: string :: a in RowsOf(db.attempts, t) <==> IsNamed(db.log, t, a)
  }

  /** What is named first was created first, at an earlier time. */
  ghost predicate CreatedAsNamed(log: seq<Event>, t: string, createdAt: string -> int) {
    forall a, b :: NamedBefore(log, t, a, b) ==> createdAt(a) < createdAt(b)
  }

  /** The row and the record of an attempt agree, as its sessions tell. */
  ghost predicate RecordMeets(sessions: seq<Session>, t: string, a: string) {
    var log, ms := CommitAll(NO_ROWS, sessions).log, Marks(sessions, t, a);
    && StartsMeet(ms) && StatusesMeet(ms) && EndsMeet(ms)
    && AllName(log, t, a) && Ascending(Sequences(AttemptLog(log, t, a)))
  }

  lemma {:induction false} NamedIsSeen(log: seq<Event>, t: string, a: string)
    ensures a in FirstSeen(log, t) <==> IsNamed(log, t, a)
  {
    if a in FirstSeen(log, t) {
      var at := FirstSeenInOrder(log, t);
      var i :| 0 <= i < |at| && FirstSeen(log, t)[i] == a;
      assert FirstNamedAt(log, t, a, at[i]);
    } else {
      NeverNamed(log, t, a);
    }
  }

  lemma FirstNamedOnce(log: seq<Event>, t: string, a: string, p: int, q: int)
    requires FirstNamedAt(log, t, a, p) && FirstNamedAt(log, t, a, q)
    ensures p == q
  {
  }

  /** The history lists attempts in the order in which they are first named. */
  lemma SeenAsNamed(log: seq<Event>, t: string, createdAt: string -> int)
    ensures StrictlyOrdered(FirstSeen(log, t), createdAt) <==> CreatedAsNamed(log, t, createdAt)
  {
    var at := FirstSeenInOrder(log, t);
    var ids := FirstSeen(log, t);
    if CreatedAsNamed(log, t, createdAt) {
      forall i, j | 0 <= i < j < |ids| ensures createdAt(ids[i]) < createdAt(ids[j]) {
        assert FirstNamedAt(log, t, ids[i], at[i]) && FirstNamedAt(log, t, ids[j], at[j]);
        assert NamedBefore(log, t, ids[i], ids[j]);
      }
    }
    if StrictlyOrdered(ids, createdAt) {
      forall a, b | NamedBefore(log, t, a, b) ensures createdAt(a) < createdAt(b) {
        var p, q :| FirstNamedAt(log, t, a, p) && FirstNamedAt(log, t, b, q) && p < q;
        var i := PlaceOf(log, t, a, p, at);
        var j := PlaceOf(log, t, b, q, at);
        assert j <= i ==> at[j] <= at[i];
      }
    }
  }

  lemma PlaceOf(log: seq<Event>, t: string, a: string, p: int, at: seq<nat>) returns (i: nat)
    requires FirstNamedAt(log, t, a, p) && |at| == |FirstSeen(log, t)|
    requires forall k :: 0 <= k < |at| ==> FirstNamedAt(log, t, FirstSeen(log, t)[k], at[k])
    ensures i < |at| && FirstSeen(log, t)[i] == a && at[i] == p
  {
    NamedIsSeen(log, t, a);
    assert IsNamed(log, t, a);
    i :| 0 <= i < |at| && FirstSeen(log, t)[i] == a;
    FirstNamedOnce(log, t, a, p, at[i]);
  }

  /** Lists that agree list the same attempts, in the same order. */
  lemma AgreeingIds(db: Db, t: string, ids: seq<string>)
    requires ListsAgree(db, t, ids)
    ensures ids == FirstSeen(db.log, t)
  {
    var seen := FirstSeen(db.log, t);
    assert |RowList(db, ids)| == |History(db.log, t)|;
    forall i | 0 <= i < |ids| ensures ids[i] == seen[i] {
      assert RowList(db, ids)[i] == History(db.log, t)[i];
    }
  }

  /** The record of an attempt in the two lists. */
  predicate SameRecord(db: Db, t: string, a: string)
    requires a in db.attempts
  {
    Projected(db, a) == RecordOf(db.log, t, a)
  }

  lemma RowListAgrees(db: Db, t: string, ids: seq<string>)
    requires ids == FirstSeen(db.log, t) && forall i :: 0 <= i < |ids| ==> ids[i] in db.attempts
    ensures ListsAgree(db, t, ids) <==> forall i :: 0 <= i < |ids| ==> SameRecord(db, t, ids[i])
  {
    forall i | 0 <= i < |ids| ensures RowList(db, ids)[i] == History(db.log, t)[i] <==> SameRecord(db, t, ids[i]) {}
  }

  lemma SeenAreRows(db: Db, t: string)
    requires SameAttempts(db, t)
    ensures forall a: string :: a in FirstSeen(db.log, t) <==> a in RowsOf(db.attempts, t)
    ensures forall i :: 0 <= i < |FirstSeen(db.log, t)| ==> FirstSeen(db.log, t)[i] in RowsOf(db.attempts, t)
  {
    forall a: string ensures a in FirstSeen(db.log, t) <==> a in RowsOf(db.attempts, t) { NamedIsSeen(db.log, t, a); }
    forall i | 0 <= i < |FirstSeen(db.log, t)| ensures FirstSeen(db.log, t)[i] in RowsOf(db.attempts, t) {
      assert FirstSeen(db.log, t)[i] in FirstSeen(db.log, t);
    }
  }

  lemma MeetsExactly(sessions: seq<Session>, t: string, db: Db, a: string)
    requires db == CommitAll(NO_ROWS, sessions) && a in RowsOf(db.attempts, t)
    ensures SameRecord(db, t, a) <==> RecordMeets(sessions, t, a)
  {
    RecordsAgreeExactly(sessions, a);
  }

  /** With the attempts listed as first seen, the lists agree if and only if each row agrees with its record. */
  lemma SeenAgreeExactly(sessions: seq<Session>, t: string, db: Db)
    requires db == CommitAll(NO_ROWS, sessions) && SameAttempts(db, t)
    ensures ListsAgree(db, t, FirstSeen(db.log, t)) <==>
            forall a :: a in RowsOf(db.attempts, t) ==> RecordMeets(sessions, t, a)
  {
    var ids := FirstSeen(db.log, t);
    SeenAreRows(db, t);
    RowListAgrees(db, t, ids);
    forall a | a in RowsOf(db.attempts, t) ensures SameRecord(db, t, a) <==> RecordMeets(sessions, t, a) {
      MeetsExactly(sessions, t, db, a);
    }
    if forall i :: 0 <= i < |ids| ==> SameRecord(db, t, ids[i]) {
      forall a | a in RowsOf(db.attempts, t) ensures RecordMeets(sessions, t, a) {
        assert a in ids;
        var i :| 0 <= i < |ids| && ids[i] == a;
      }
    }
  }

  /** An agreement in every order fixes the times of creation: of two attempts, the one named first must be created
      at an earlier time, or some order puts it second. */
  lemma OrderedAsSeen(db: Db, t: string, createdAt: string -> int, i: nat, j: nat)
    requires forall ids :: RowOrder(ids, db.attempts, t, createdAt) ==> ListsAgree(db, t, ids)
    requires i < j < |FirstSeen(db.log, t)| && FirstSeen(db.log, t)[j] in RowsOf(db.attempts, t)
    ensures createdAt(FirstSeen(db.log, t)[i]) < createdAt(FirstSeen(db.log, t)[j])
  {
    var seen := FirstSeen(db.log, t);
    var ids, p := OrderWith(RowsOf(db.attempts, t), seen[j], createdAt);
    assert RowOrder(ids, db.attempts, t, createdAt);
    AgreeingIds(db, t, ids);
    FirstSeenOnce(db.log, t);
    assert p == j;
  }

  lemma AgreementIsExact(sessions: seq<Session>, t: string, createdAt: string -> int, db: Db)
    requires db == CommitAll(NO_ROWS, sessions)
    requires forall ids :: RowOrder(ids, db.attempts, t, createdAt) ==> ListsAgree(db, t, ids)
    ensures SameAttempts(db, t) && CreatedAsNamed(db.log, t, createdAt)
    ensures forall a :: a in RowsOf(db.attempts, t) ==> RecordMeets(sessions, t, a)
  {
    var ids := OrderExists(RowsOf(db.attempts, t), createdAt);
    assert RowOrder(ids, db.attempts, t, createdAt);
    AgreeingIds(db, t, ids);
    forall a: string ensures a in RowsOf(db.attempts, t) <==> IsNamed(db.log, t, a) { NamedIsSeen(db.log, t, a); }
    SeenAgreeExactly(sessions, t, db);
    forall i, j | 0 <= i < j < |ids| ensures createdAt(ids[i]) < createdAt(ids[j]) {
      OrderedAsSeen(db, t, createdAt, i, j);
    }
    SeenAsNamed(db.log, t, createdAt);
  }

  lemma ConditionsSuffice(sessions: seq<Session>, t: string, createdAt: string -> int, db: Db, ids: seq<string>)
    requires db == CommitAll(NO_ROWS, sessions) && RowOrder(ids, db.attempts, t, createdAt)
    requires SameAttempts(db, t) && CreatedAsNamed(db.log, t, createdAt)
    requires forall a :: a in RowsOf(db.attempts, t) ==> RecordMeets(sessions, t, a)
    ensures ListsAgree(db, t, ids)
  {
    SeenAgreeExactly(sessions, t, db);
    SeenAsNamed(db.log, t, createdAt);
    forall a: string ensures a in FirstSeen(db.log, t) <==> a in ids { NamedIsSeen(db.log, t, a); }
    StrictOrderIsOnly(FirstSeen(db.log, t), ids, createdAt);
  }

  /** For every sequence of sessions, every task and all times of creation: whatever order equal times are returned in,
      the row projector and the in-memory projector list the same attempts of the task with the same records, if and
      only if the rows of the task are those of the attempts named with it, they were created in the order in which
      they were first named, no two at the same time, and each row agrees with its record. */
  lemma ListsAgreeExactly(sessions: seq<Session>, t: string, createdAt: string -> int, db: Db)
    requires db == CommitAll(NO_ROWS, sessions)
    ensures (forall ids :: RowOrder(ids, db.attempts, t, createdAt) ==> ListsAgree(db, t, ids)) <==>
              && SameAttempts(db, t) && CreatedAsNamed(db.log, t, createdAt)
              && forall a :: a in RowsOf(db.attempts, t) ==> RecordMeets(sessions, t, a)
  {
    if forall ids :: RowOrder(ids, db.attempts, t, createdAt) ==> ListsAgree(db, t, ids) {
      AgreementIsExact(sessions, t, createdAt, db);
    }
    if SameAttempts(db, t) && CreatedAsNamed(db.log, t, createdAt)
       && forall a :: a in RowsOf(db.attempts, t) ==> RecordMeets(sessions, t, a) {
      forall ids | RowOrder(ids, db.attempts, t, createdAt) ensures ListsAgree(db, t, ids) {
        ConditionsSuffice(sessions, t, createdAt, db, ids);
      }
    }
  }

  lemma EnsureOnEmpty(n: AttemptEntry)
    ensures var db := CommitAll(NO_ROWS, [EnsuringAttempt(n)]);
            && db.log == [] && n.attemptId in db.attempts
            && db.attempts[n.attemptId] == Attempt(n.taskId, n.runId, n.status, None, None, None)
  {
    assert [EnsuringAttempt(n)][..0] == [];
  }

  lemma EnsureThenName(n: AttemptEntry, e: Event, db: Db)
    requires Names(e, "t", n.attemptId) && e.sequence == 1
    requires db == CommitAll(NO_ROWS, [EnsuringAttempt(n), Appending(e)])
    ensures db.log == [e] && n.attemptId in db.attempts && db.attempts[n.attemptId].taskId == n.taskId
  {
    var sessions := [EnsuringAttempt(n), Appending(e)];
    var before := CommitAll(NO_ROWS, [EnsuringAttempt(n)]);
    EnsureOnEmpty(n);
    assert sessions[..1] == [EnsuringAttempt(n)];
    assert Accepts(before.log, e);
    AppendedRow(before, e, n.attemptId);
  }

  /** An attempt is created under one task, and an event names it with another: the in-memory projector lists it there,
      and in no order do the rows. */
  lemma AttemptCanBeMissing(n: AttemptEntry, e: Event, db: Db, ids: seq<string>, createdAt: string -> int)
    requires n.attemptId == "a" && n.taskId == "u" && Names(e, "t", "a") && e.sequence == 1
    requires db == CommitAll(NO_ROWS, [EnsuringAttempt(n), Appending(e)])
    requires RowOrder(ids, db.attempts, "t", createdAt)
    ensures !ListsAgree(db, "t", ids)
  {
    EnsureThenName(n, e, db);
    assert Names(db.log[0], "t", "a");
    NamedIsSeen(db.log, "t", "a");
    assert "a" in FirstSeen(db.log, "t") && "a" !in ids;
    if ListsAgree(db, "t", ids) { AgreeingIds(db, "t", ids); }
  }
}
