/** Governed memory writes: the policy that decides, and the table of records it decides about. The evaluation and
    the write of one candidate are one atomic step. */
module MemoryWrites {
  import opened Common

  datatype MemoryType = LongTermKnowledge | ProjectFact | Lesson

  function TypeValue(t: MemoryType): string {
    match t
    case LongTermKnowledge => "long_term_knowledge"
    case ProjectFact => "project_fact"
    case Lesson => "lesson"
  }

  /** `details` stands for what is copied through unread: metadata, evidence, retention policy, origin. */
  datatype Candidate = Candidate(
    projectId: string, iterationId: Option<string>, namespace: Option<string>, memoryType: MemoryType,
    externalRef: string, summary: string, contentHash: string, quality: real, force: bool,
    supersedes: Option<string>, details: string)

  /** What the remote store answered: the reference to keep and the provider's name. */
  datatype Remote = Remote(externalRef: string, provider: string)

  datatype Row = Row(
    id: string, projectId: string, namespace: string, contentHash: string,
    iterationId: Option<string>, memoryType: MemoryType, externalRef: string, summary: string,
    score: real, quality: real, version: int, supersedes: Option<string>, provider: string, details: string,
    stale: bool, recallCount: int)

  // ----- governance -----

  datatype Threshold = Threshold(minQuality: real, allowSupersede: bool, allowMerge: bool)
  datatype Action = Accept | Decline | Supersede | Merge

  /** The thresholds in the order they are tried, each under the text that selects it. */
  type Policy = seq<(string, Threshold)>

  const GLOBAL_DEFAULT_THRESHOLD := Threshold(0.65, true, true)

  const DEFAULT_POLICY: Policy := [
    ("long_term_knowledge", Threshold(0.70, true, true)),
    ("project_fact", Threshold(0.60, true, true)),
    ("lesson", Threshold(0.65, true, false))]

  predicate Contains(text: string, part: string) {
    exists i :: 0 <= i <= |text| && part <= text[i..]
  }

  /** The first threshold whose text occurs in the namespace. */
  function ThresholdFor(policy: Policy, namespace: string): Threshold {
    if policy == [] then GLOBAL_DEFAULT_THRESHOLD
    else if Contains(namespace, policy[0].0) then policy[0].1
    else ThresholdFor(policy[1..], namespace)
  }

  /** The namespace the policy looks at: the one the candidate brought, not the one it is filed under. */
  function NamespaceBrought(c: Candidate): string {
    if c.namespace.Some? then c.namespace.value else ""
  }

  function Evaluate(policy: Policy, c: Candidate, hasExisting: bool): Action {
    var threshold := ThresholdFor(policy, NamespaceBrought(c));
    if !c.force && c.quality < threshold.minQuality then Decline
    else if !hasExisting then Accept
    else if Truthy(c.supersedes) && threshold.allowSupersede then Supersede
    else if threshold.allowMerge then Merge
    else Decline
  }

  /** The exact conditions of the four decisions: what passes the threshold is accepted where there is no row; where
      there is one, it supersedes it if it names what it supersedes and may, and is merged otherwise if it may. */
  lemma DecidesExactly(policy: Policy, c: Candidate, hasExisting: bool)
    ensures var t, action := ThresholdFor(policy, NamespaceBrought(c)), Evaluate(policy, c, hasExisting);
            var passes, names := c.force || c.quality >= t.minQuality, Truthy(c.supersedes) && t.allowSupersede;
            && (action.Accept? <==> passes && !hasExisting)
            && (action.Supersede? <==> passes && hasExisting && names)
            && (action.Merge? <==> passes && hasExisting && !names && t.allowMerge)
            && (action.Decline? <==> !passes || (hasExisting && !names && !t.allowMerge))
  {
  }

  /** The threshold is that of the first text the namespace contains, or the global one: quality 0.65, and both ways of
      changing a row allowed. */
  lemma {:induction false} ThresholdIsFirst(policy: Policy, namespace: string)
    ensures forall i :: 0 <= i < |policy| && Contains(namespace, policy[i].0)
              && (forall j :: 0 <= j < i ==> !Contains(namespace, policy[j].0))
              ==> ThresholdFor(policy, namespace) == policy[i].1
    ensures (forall i :: 0 <= i < |policy| ==> !Contains(namespace, policy[i].0)) ==>
              ThresholdFor(policy, namespace) == Threshold(0.65, true, true)
  {
    if policy != [] && !Contains(namespace, policy[0].0) {
      ThresholdIsFirst(policy[1..], namespace);
      assert forall i :: 0 < i < |policy| ==> policy[1..][i - 1] == policy[i];
    }
  }

  // ----- rows and keys -----

  datatype Key = Key(projectId: string, namespace: string, contentHash: string)

  function NamespaceFor(c: Candidate): string {
    if Truthy(c.namespace) then c.namespace.value
    else
      var scope := if Truthy(c.iterationId) then c.iterationId.value else "global";
      c.projectId + ":" + scope + ":" + TypeValue(c.memoryType)
  }

  lemma ContainsAtEnd(text: string, part: string)
    ensures Contains(text + part, part)
  {
    assert part <= (text + part)[|text|..];
  }

  /** Under the default policy no text is empty, so a candidate without a namespace gets the global threshold. */
  lemma DefaultThresholds(namespace: string)
    ensures ThresholdFor(DEFAULT_POLICY, "") == GLOBAL_DEFAULT_THRESHOLD
    ensures ThresholdFor(DEFAULT_POLICY, namespace) ==
            if Contains(namespace, "long_term_knowledge") then Threshold(0.70, true, true)
            else if Contains(namespace, "project_fact") then Threshold(0.60, true, true)
            else if Contains(namespace, "lesson") then Threshold(0.65, true, false)
            else GLOBAL_DEFAULT_THRESHOLD
  {
    var two, one := DEFAULT_POLICY[1..], DEFAULT_POLICY[2..];
    assert two[1..] == one && one[1..] == [];
    assert two[0] == DEFAULT_POLICY[1] && one[0] == DEFAULT_POLICY[2];
    forall part: string | part != "" ensures !Contains("", part) {}
    UnfoldDefault("");
    UnfoldDefault(namespace);
  }

  lemma UnfoldDefault(namespace: string)
    ensures ThresholdFor(DEFAULT_POLICY, namespace) ==
            if Contains(namespace, DEFAULT_POLICY[0].0) then DEFAULT_POLICY[0].1
            else if Contains(namespace, DEFAULT_POLICY[1].0) then DEFAULT_POLICY[1].1
            else if Contains(namespace, DEFAULT_POLICY[2].0) then DEFAULT_POLICY[2].1
            else GLOBAL_DEFAULT_THRESHOLD
  {
    var two, one := DEFAULT_POLICY[1..], DEFAULT_POLICY[2..];
    assert two[1..] == one && one[1..] == [];
    assert ThresholdFor(two, namespace) ==
           if Contains(namespace, two[0].0) then two[0].1 else ThresholdFor(one, namespace);
    assert ThresholdFor(one, namespace) ==
           if Contains(namespace, one[0].0) then one[0].1 else ThresholdFor([], namespace);
  }

  /** Under the default policy, a candidate is judged by another threshold than that of the namespace it is filed
      under if and only if it brings no namespace. */
  lemma ThresholdsDifferExactly(c: Candidate)
    ensures ThresholdFor(DEFAULT_POLICY, NamespaceBrought(c)) != ThresholdFor(DEFAULT_POLICY, NamespaceFor(c)) <==>
            !Truthy(c.namespace)
  {
    if !Truthy(c.namespace) {
      var scope := c.projectId + ":" + (if Truthy(c.iterationId) then c.iterationId.value else "global") + ":";
      assert NamespaceFor(c) == scope + TypeValue(c.memoryType);
      ContainsAtEnd(scope, TypeValue(c.memoryType));
      DefaultThresholds(NamespaceFor(c));
    }
  }

  /** Long-term knowledge of quality 0.67 is taken when it brings no namespace, and declined when it brings the very
      namespace it would be filed under. */
  lemma NamespaceDecides(c: Candidate)
    requires c.memoryType.LongTermKnowledge? && c.namespace.None? && c.quality == 0.67 && !c.force
    ensures Evaluate(DEFAULT_POLICY, c, false) == Accept
    ensures var named := c.(namespace := Some(NamespaceFor(c)));
            NamespaceFor(named) == NamespaceFor(c) && Evaluate(DEFAULT_POLICY, named, false) == Decline
  {
    var scope := c.projectId + ":" + (if Truthy(c.iterationId) then c.iterationId.value else "global") + ":";
    assert NamespaceFor(c) == scope + TypeValue(c.memoryType);
    ContainsAtEnd(scope, TypeValue(c.memoryType));
    DefaultThresholds(NamespaceFor(c));
  }

  function KeyFor(c: Candidate): Key {
    Key(c.projectId, NamespaceFor(c), c.contentHash)
  }

  function KeyOf(r: Row): Key {
    Key(r.projectId, r.namespace, r.contentHash)
  }

  function NewRow(id: string, c: Candidate, remote: Remote): Row {
    Row(id, c.projectId, NamespaceFor(c), c.contentHash, c.iterationId, c.memoryType, remote.externalRef, c.summary,
        c.quality, c.quality, 1, c.supersedes, remote.provider, c.details, false, 0)
  }

  /** What either arm of supersede overwrites, apart from version and superseded id. */
  function Overwritten(r: Row, c: Candidate, remote: Remote): Row {
    r.(iterationId := c.iterationId, memoryType := c.memoryType, externalRef := remote.externalRef,
        summary := c.summary,
       score := c.quality, quality := c.quality, provider := remote.provider, details := c.details, stale := false)
  }

  /** The upsert statement on an existing row: version + 1, coalesce of the superseded ids. */
  function Upserted(r: Row, c: Candidate, remote: Remote): Row {
    Overwritten(r, c, remote).(version := r.version + 1, supersedes := Latest(r.supersedes, c.supersedes))
  }

  /** The ORM fallback on an existing row: max(version, 1) + 1, truthy-or of the superseded ids. */
  function FallenBack(r: Row, c: Candidate, remote: Remote): Row {
    Overwritten(r, c, remote).(version := (if r.version > 1 then r.version else 1) + 1,
                               supersedes := if Truthy(c.supersedes) then c.supersedes else r.supersedes)
  }

  /** The two arms compute the same row exactly when the row was versioned and the candidate does not supersede
      the empty id over a different one. */
  lemma ArmsAgreeExactly(r: Row, c: Candidate, remote: Remote)
    ensures Upserted(r, c, remote) == FallenBack(r, c, remote) <==>
            r.version >= 1 && (c.supersedes == Some("") ==> r.supersedes == Some(""))
  {
    assert Upserted(r, c, remote).version == FallenBack(r, c, remote).version <==> r.version >= 1;
    assert Upserted(r, c, remote).supersedes == FallenBack(r, c, remote).supersedes <==>
           (c.supersedes == Some("") ==> r.supersedes == Some(""));
  }

  /** Merging keeps the better of the two. */
  function Merged(r: Row, c: Candidate): Row {
    if c.quality > r.quality
    then r.(quality := c.quality, score := c.quality, summary := c.summary, recallCount := r.recallCount + 1)
    else r
  }

  // ----- the specification of one write -----

  predicate Files(rows: map<string, Row>, k: Key, id: string) {
    id in rows && KeyOf(rows[id]) == k
  }

  /** One row per key; every row is filed under its own id, has been versioned, and scores its quality. */
  ghost predicate Consistent(rows: map<string, Row>) {
    && (forall k, a, b :: Files(rows, k, a) && Files(rows, k, b) ==> a == b)
    && (forall id :: id in rows ==> rows[id].id == id && rows[id].version >= 1 && rows[id].score == rows[id].quality)
  }

  /** What a key's row should be after some writes: none, or its id, the supersedes it took, and its quality. */
  datatype Life = Absent | Present(id: string, supersedes: nat, quality: real)

  /** A write: the candidate, the remote answer, and the identifier a new row would draw. */
  datatype Write = Write(candidate: Candidate, remote: Remote, id: string)

  function Max(a: real, b: real): real {
    if a >= b then a else b
  }

  /** One write in the life of a key: an accept starts it, a supersede counts and resets the quality, a merge
      raises it, a decline and writes to other keys do nothing. */
  function LifeAfter(policy: Policy, life: Life, k: Key, w: Write): Life {
    var c := w.candidate;
    if KeyFor(c) != k then life
    else
      match Evaluate(policy, c, life.Present?)
      case Decline => life
      case Accept => Present(w.id, 0, c.quality)
      case Supersede => if life.Present? then Present(life.id, life.supersedes + 1, c.quality) else life
      case Merge => if life.Present? then Present(life.id, life.supersedes, Max(life.quality, c.quality)) else life
  }

  /** The table shows the life of a key. */
  ghost predicate Shows(rows: map<string, Row>, k: Key, life: Life) {
    match life
    case Absent => forall id :: !Files(rows, k, id)
    case Present(id, n, q) => Files(rows, k, id) && rows[id].version == 1 + n && rows[id].quality == q
  }

  function LifeOf(policy: Policy, writes: seq<Write>, k: Key): Life {
    if writes == [] then Absent
    else LifeAfter(policy, LifeOf(policy, writes[..|writes| - 1], k), k, writes[|writes| - 1])
  }

  // ----- the service as it runs -----

  class MemoryGovernanceService {
    const policy: Policy
    const upsertSupported: bool
    var rows: map<string, Row>
    ghost var writes: seq<Write>

    /** Every key's row is what the writes so far made of it. */
    ghost predicate Valid()
      reads this
    {
      Consistent(rows) && forall k :: Shows(rows, k, LifeOf(policy, writes, k))
    }

    constructor (policy: Policy, upsertSupported: bool)
      ensures Valid() && writes == [] && this.policy == if policy == [] then DEFAULT_POLICY else policy
    {
      this.policy := if policy == [] then DEFAULT_POLICY else policy;
      this.upsertSupported := upsertSupported;
      rows, writes := map[], [];
    }

    method Find(k: Key) returns (found: Option<string>)
      ensures found.Some? ==> Files(rows, k, found.value)
      ensures found.None? ==> forall id :: !Files(rows, k, id)
    {
      var todo := rows.Keys;
      while todo != {}
        invariant todo <= rows.Keys
        invariant forall id :: Files(rows, k, id) ==> id in todo
        decreases todo
      {
        var id :| id in todo;
        if KeyOf(rows[id]) == k { return Some(id); }
        todo := todo - {id};
      }
      found := None;
    }

    method HandleAccept(w: Write) returns (stored: Option<Row>)
      requires w.id !in rows && forall id :: !Files(rows, KeyFor(w.candidate), id)
      modifies this`rows
      ensures rows == old(rows)[w.id := NewRow(w.id, w.candidate, w.remote)]
      ensures stored == Some(rows[w.id]) && rows[w.id].version == 1
      ensures forall id :: Files(rows, KeyFor(w.candidate), id) <==> id == w.id
    {
      rows := rows[w.id := NewRow(w.id, w.candidate, w.remote)];
      stored := Some(rows[w.id]);
      forall id | id != w.id ensures !Files(rows, KeyFor(w.candidate), id) {
        assert !Files(old(rows), KeyFor(w.candidate), id);
      }
    }

    /** The upsert arm inserts or updates in one statement; the fallback arm reads, then overwrites field by field,
        and hands a key without a row to accept. */
    method HandleSupersede(w: Write, ghost id: Option<string>) returns (stored: Option<Row>)
      requires Consistent(rows) && Located(rows, KeyFor(w.candidate), id) && w.id !in rows
      modifies this`rows
      ensures var c := w.candidate;
              if id.None? then rows == old(rows)[w.id := NewRow(w.id, c, w.remote)] && stored == Some(rows[w.id])
              else
                && rows == old(rows)[id.value := if upsertSupported then Upserted(old(rows)[id.value], c, w.remote)
                                                 else FallenBack(old(rows)[id.value], c, w.remote)]
                && stored == Some(rows[id.value])
    {
      var c := w.candidate;
      var existing := Find(KeyFor(c));
      if existing.None? {
        stored := HandleAccept(w);
      } else if upsertSupported {
        rows := rows[existing.value := Upserted(rows[existing.value], c, w.remote)];
        stored := Some(rows[existing.value]);
      } else {
        var row := rows[existing.value];
        row := row.(iterationId := c.iterationId, memoryType := c.memoryType);
        row := row.(externalRef := w.remote.externalRef, summary := c.summary);
        row := row.(score := c.quality, quality := c.quality);
        row := row.(version := (if row.version > 1 then row.version else 1) + 1);
        if Truthy(c.supersedes) { row := row.(supersedes := c.supersedes); }
        row := row.(provider := w.remote.provider, stale := false, details := c.details);
        rows := rows[existing.value := row];
        stored := Some(row);
      }
    }

    method HandleMerge(w: Write, ghost id: Option<string>) returns (stored: Option<Row>)
      requires Consistent(rows) && Located(rows, KeyFor(w.candidate), id) && w.id !in rows
      modifies this`rows
      ensures if id.None?
              then rows == old(rows)[w.id := NewRow(w.id, w.candidate, w.remote)] && stored == Some(rows[w.id])
              else
                && rows == old(rows)[id.value := Merged(old(rows)[id.value], w.candidate)]
                && stored == Some(rows[id.value])
    {
      var c := w.candidate;
      var existing := Find(KeyFor(c));
      if existing.None? {
        stored := HandleAccept(w);
        return;
      }
      var row := rows[existing.value];
      if c.quality > row.quality {
        row := row.(quality := c.quality);
        row := row.(score := c.quality);
        row := row.(summary := c.summary);
        row := row.(recallCount := row.recallCount + 1);
      }
      rows := rows[existing.value := row];
      stored := Some(row);
    }

    /** Evaluate, then act: nothing is stored exactly when the policy declines. */
    method Write(w: Write) returns (stored: Option<Row>, ghost at: Option<string>)
      requires Valid() && w.id !in rows
      modifies this
      ensures Valid() && writes == old(writes) + [w]
      ensures Located(old(rows), KeyFor(w.candidate), at) && rows == RowsAfter(policy, old(rows), at, w)
      ensures stored.None? <==>
              Evaluate(policy, w.candidate, exists id :: Files(old(rows), KeyFor(w.candidate), id)).Decline?
      ensures stored.Some? ==> Lookup(rows, stored.value.id) == stored && KeyOf(stored.value) == KeyFor(w.candidate)
      ensures forall id :: id in old(rows) ==> id in rows && KeyOf(rows[id]) == KeyOf(old(rows)[id])
    {
      var k := KeyFor(w.candidate);
      var existing := Find(k);
      at := existing;
      var action := Evaluate(policy, w.candidate, existing.Some?);
      match action {
        case Decline => stored := None;
        case Merge => stored := HandleMerge(w, existing);
        case Supersede =>
          ArmsAgreeExactly(rows[existing.value], w.candidate, w.remote);
          stored := HandleSupersede(w, existing);
        case Accept => stored := HandleAccept(w);
      }
      assert rows == RowsAfter(policy, old(rows), existing, w);
      RowsChangeOnlyOwnKey(policy, old(rows), existing, w);
      RowsStayConsistent(policy, old(rows), existing, w);
      RowsShowLives(policy, old(rows), existing, w, writes);
      writes := writes + [w];
    }
  }

  /** The table after a write, given whether and where the key has its row. */
  function RowsAfter(policy: Policy, rows: map<string, Row>, id: Option<string>, w: Write): map<string, Row>
    requires id.Some? ==> id.value in rows
  {
    match Evaluate(policy, w.candidate, id.Some?)
    case Decline => rows
    case Accept => rows[w.id := NewRow(w.id, w.candidate, w.remote)]
    case Supersede => if id.Some? then rows[id.value := Upserted(rows[id.value], w.candidate, w.remote)] else rows
    case Merge => if id.Some? then rows[id.value := Merged(rows[id.value], w.candidate)] else rows
  }

  /** What a candidate and the remote answer bring to a row. */
  predicate ShowsCandidate(r: Row, c: Candidate, remote: Remote) {
    && r.projectId == c.projectId && r.contentHash == c.contentHash && r.namespace == NamespaceFor(c)
    && r.iterationId == c.iterationId && r.memoryType == c.memoryType && r.summary == c.summary
    && r.externalRef == remote.externalRef && r.provider == remote.provider && r.details == c.details
    && r.quality == c.quality && r.score == c.quality && !r.stale
  }

  /** What a write leaves in the row of its key: an accept or a supersede leaves the candidate, as a new row or over the
      old one, whose recalls it keeps; a merge leaves the old row, and a better candidate's quality and summary. */
  lemma WriteShowsCandidate(policy: Policy, rows: map<string, Row>, id: Option<string>, w: Write)
    requires Consistent(rows) && Located(rows, KeyFor(w.candidate), id) && w.id !in rows
    ensures var after, c := RowsAfter(policy, rows, id, w), w.candidate;
            match Evaluate(policy, c, id.Some?)
            case Decline => after == rows
            case Accept =>
              && w.id in after && ShowsCandidate(after[w.id], c, w.remote) && after[w.id].id == w.id
              && after[w.id].version == 1 && after[w.id].recallCount == 0 && after[w.id].supersedes == c.supersedes
            case Supersede =>
              && id.Some? && id.value in after && ShowsCandidate(after[id.value], c, w.remote)
              && after[id.value].version == rows[id.value].version + 1 && after[id.value].supersedes == c.supersedes
              && after[id.value].recallCount == rows[id.value].recallCount
            case Merge =>
              && id.Some? && id.value in after
              && if c.quality > rows[id.value].quality
                 then after[id.value] == rows[id.value].(quality := c.quality, score := c.quality, summary := c.summary,
                                                         recallCount := rows[id.value].recallCount + 1)
                 else after[id.value] == rows[id.value]
  {
  }

  /** A lesson about a project without an iteration is filed under its project, "global" and its type. */
  lemma FiledUnder(c: Candidate)
    requires c.namespace.None? && c.iterationId.None? && c.projectId == "p" && c.memoryType.Lesson?
    ensures NamespaceFor(c) == "p:global:lesson"
  {
    assert NamespaceFor(c) == "p" + ":" + "global" + ":" + "lesson";
  }

  /** Where the row of the candidate's key is, if it has one. */
  ghost predicate Located(rows: map<string, Row>, k: Key, id: Option<string>) {
    match id
    case Some(at) => Files(rows, k, at)
    case None => forall j :: !Files(rows, k, j)
  }

  /** A write changes the row of its own key or adds it; every other row, and the key of every row, stays. */
  lemma RowsChangeOnlyOwnKey(policy: Policy, rows: map<string, Row>, id: Option<string>, w: Write)
    requires Consistent(rows) && Located(rows, KeyFor(w.candidate), id) && w.id !in rows
    ensures var after := RowsAfter(policy, rows, id, w);
            && (forall j :: j in rows ==> j in after && KeyOf(after[j]) == KeyOf(rows[j]) && after[j].id == j)
            && (forall j :: j in rows && KeyOf(rows[j]) != KeyFor(w.candidate) ==> after[j] == rows[j])
            && (forall j :: j in after && j !in rows ==>
                  j == w.id && KeyOf(after[j]) == KeyFor(w.candidate)
                      && forall i :: !Files(rows, KeyFor(w.candidate), i))
  {
  }

  lemma RowsStayConsistent(policy: Policy, rows: map<string, Row>, id: Option<string>, w: Write)
    requires Consistent(rows) && Located(rows, KeyFor(w.candidate), id) && w.id !in rows
    ensures Consistent(RowsAfter(policy, rows, id, w))
  {
    var after := RowsAfter(policy, rows, id, w);
    RowsChangeOnlyOwnKey(policy, rows, id, w);
    forall k, a, b | Files(after, k, a) && Files(after, k, b) ensures a == b {
      assert a in rows ==> Files(rows, k, a);
      assert b in rows ==> Files(rows, k, b);
    }
  }

  lemma RowsShowLives(policy: Policy, rows: map<string, Row>, id: Option<string>, w: Write, writes: seq<Write>)
    requires Consistent(rows) && Located(rows, KeyFor(w.candidate), id) && w.id !in rows
    requires forall k :: Shows(rows, k, LifeOf(policy, writes, k))
    ensures forall k :: Shows(RowsAfter(policy, rows, id, w), k, LifeOf(policy, writes + [w], k))
  {
    assert (writes + [w])[..|writes|] == writes;
    RowsChangeOnlyOwnKey(policy, rows, id, w);
    forall k ensures Shows(RowsAfter(policy, rows, id, w), k, LifeOf(policy, writes + [w], k)) {
      assert Shows(rows, k, LifeOf(policy, writes, k));
      if k == KeyFor(w.candidate) {
        OwnKeyShows(policy, rows, id, w, LifeOf(policy, writes, k));
      } else {
        OtherKeyShows(policy, rows, id, w, k, LifeOf(policy, writes, k));
      }
    }
  }

  lemma OwnKeyShows(policy: Policy, rows: map<string, Row>, id: Option<string>, w: Write, life: Life)
    requires Consistent(rows) && Located(rows, KeyFor(w.candidate), id) && w.id !in rows
    requires Shows(rows, KeyFor(w.candidate), life)
    ensures Shows(RowsAfter(policy, rows, id, w), KeyFor(w.candidate), LifeAfter(policy, life, KeyFor(w.candidate), w))
  {
    if life.Present? {
      assert Files(rows, KeyFor(w.candidate), life.id);
    }
  }

  lemma OtherKeyShows(policy: Policy, rows: map<string, Row>, id: Option<string>, w: Write, k: Key, life: Life)
    requires Consistent(rows) && Located(rows, KeyFor(w.candidate), id) && w.id !in rows
    requires k != KeyFor(w.candidate) && Shows(rows, k, life)
    ensures Shows(RowsAfter(policy, rows, id, w), k, life)
  {
    var after := RowsAfter(policy, rows, id, w);
    RowsChangeOnlyOwnKey(policy, rows, id, w);
    forall j ensures Files(after, k, j) <==> Files(rows, k, j) {}
  }

  // ----- over any sequence of writes -----

  /** One write, by a fresh identifier, on the table. */
  ghost predicate Written(policy: Policy, before: map<string, Row>, w: Write, after: map<string, Row>) {
    && w.id !in before
    && exists id :: Located(before, KeyFor(w.candidate), id) && after == RowsAfter(policy, before, id, w)
  }

  /** The tables between the writes, from an empty one. */
  ghost predicate Execution(policy: Policy, tables: seq<map<string, Row>>, writes: seq<Write>) {
    && |tables| == |writes| + 1 && tables[0] == map[]
    && forall i :: 0 <= i < |writes| ==> Written(policy, tables[i], writes[i], tables[i + 1])
  }

  /** Over any writes there is one row per key, each under its first id, with version 1 plus the supersedes it took
      and the quality of its life. */
  lemma {:induction false} TablesShowLives(policy: Policy, tables: seq<map<string, Row>>, writes: seq<Write>, n: nat)
    requires Execution(policy, tables, writes) && n < |tables|
    ensures Consistent(tables[n])
    ensures forall k :: Shows(tables[n], k, LifeOf(policy, writes[..n], k))
  {
    if n > 0 {
      TablesShowLives(policy, tables, writes, n - 1);
      var before, w := tables[n - 1], writes[n - 1];
      assert Written(policy, before, w, tables[n]);
      var id :| Located(before, KeyFor(w.candidate), id) && tables[n] == RowsAfter(policy, before, id, w);
      RowsStayConsistent(policy, before, id, w);
      RowsShowLives(policy, before, id, w, writes[..n - 1]);
      assert writes[..n - 1] + [w] == writes[..n];
    }
  }

  // ----- what the lives say -----

  /** Once a key has its row, no later write changes the row's id or lowers the number of supersedes. */
  lemma {:induction false} IdNeverChanges(policy: Policy, writes: seq<Write>, more: seq<Write>, k: Key)
    requires LifeOf(policy, writes, k).Present?
    ensures LifeOf(policy, writes + more, k).Present?
    ensures LifeOf(policy, writes + more, k).id == LifeOf(policy, writes, k).id
    ensures LifeOf(policy, writes + more, k).supersedes >= LifeOf(policy, writes, k).supersedes
  {
    if more == [] {
      assert writes + more == writes;
    } else {
      var init := more[..|more| - 1];
      IdNeverChanges(policy, writes, init, k);
      assert (writes + more)[..|writes + more| - 1] == writes + init;
    }
  }

  /** What a write does to the quality of a key. */
  datatype Deed = Sets(quality: real) | Raises(quality: real) | Nothing

  function DeedOf(policy: Policy, life: Life, k: Key, w: Write): Deed {
    if KeyFor(w.candidate) != k then Nothing
    else
      match Evaluate(policy, w.candidate, life.Present?)
      case Accept => Sets(w.candidate.quality)
      case Supersede => Sets(w.candidate.quality)
      case Merge => Raises(w.candidate.quality)
      case Decline => Nothing
  }

  function Deeds(policy: Policy, writes: seq<Write>, k: Key): seq<Deed> {
    if writes == [] then []
    else
      var init := writes[..|writes| - 1];
      Deeds(policy, init, k) + [DeedOf(policy, LifeOf(policy, init, k), k, writes[|writes| - 1])]
  }

  /** Deed `from` is the last to set the quality. */
  predicate LastSet(deeds: seq<Deed>, from: nat) {
    from < |deeds| && deeds[from].Sets? && forall i :: from < i < |deeds| ==> !deeds[i].Sets?
  }

  /** q is the maximum over the deed that last set the quality and those that raised it since. */
  ghost predicate IsMaximumSince(deeds: seq<Deed>, from: nat, q: real) {
    && LastSet(deeds, from)
    && (forall i :: from <= i < |deeds| && !deeds[i].Nothing? ==> deeds[i].quality <= q)
    && (exists i :: from <= i < |deeds| && !deeds[i].Nothing? && deeds[i].quality == q)
  }

  lemma MaximumOneMore(deeds: seq<Deed>, from: nat, q: real, d: Deed)
    requires IsMaximumSince(deeds, from, q)
    ensures d.Raises? ==> IsMaximumSince(deeds + [d], from, Max(q, d.quality))
    ensures d.Nothing? ==> IsMaximumSince(deeds + [d], from, q)
  {
    var more := deeds + [d];
    var best :| from <= best < |deeds| && !deeds[best].Nothing? && deeds[best].quality == q;
    assert more[best] == deeds[best] && more[|deeds|] == d;
  }

  /** Over any writes, a row's quality is the maximum merged since the last accept or supersede, that one included. */
  lemma {:induction false} QualityIsMaximum(policy: Policy, writes: seq<Write>, k: Key) returns (from: nat)
    requires LifeOf(policy, writes, k).Present?
    ensures IsMaximumSince(Deeds(policy, writes, k), from, LifeOf(policy, writes, k).quality)
  {
    var n := |writes| - 1;
    var init, deeds := writes[..n], Deeds(policy, writes[..n], k);
    var d := DeedOf(policy, LifeOf(policy, init, k), k, writes[n]);
    if d.Sets? {
      from := |deeds|;
      assert (deeds + [d])[from] == d;
    } else {
      from := QualityIsMaximum(policy, init, k);
      MaximumOneMore(deeds, from, LifeOf(policy, init, k).quality, d);
    }
  }
}
