/** The context budgeter. The entries of each memory level are deduplicated by their normalised body and ranked by
    score, the best of them are turned into blocks of at most 280 characters, and the blocks of all levels together are
    cut to a character budget. The text after the cut is a prefix of the text before it. */
module ContextBuilder {
  import opened Common

  datatype Level = L0 | L1 | L2 | L3
  datatype EvidenceRef = EvidenceRef(kind: string, ref: string)
  datatype Entry = Entry(body: string, source: string, evidence: seq<EvidenceRef>, score: real)
  datatype Block = Block(level: Level, title: string, body: string, source: string, truncated: bool,
      evidence: seq<EvidenceRef>)

  const MAX_BODY_LENGTH := 280

  function Min(a: int, b: int): int {
    if a < b then a else b
  }

  // ----- ranking: the specification -----

  /** What two entries are compared by. */
  function NormalBody(e: Entry): string {
    Lower(Strip(e.body))
  }

  /** Entry i has a body, and no earlier entry has the same one. */
  predicate IsFirst(entries: seq<Entry>, i: nat) {
    && i < |entries| && NormalBody(entries[i]) != ""
    && forall j :: 0 <= j < i ==> NormalBody(entries[j]) != NormalBody(entries[i])
  }

  /** The positions of the first entry of each distinct body among the first n. */
  function Firsts(entries: seq<Entry>, n: nat): seq<nat>
    requires n <= |entries|
  {
    if n == 0 then []
    else if IsFirst(entries, n - 1) then Firsts(entries, n - 1) + [n - 1]
    else Firsts(entries, n - 1)
  }

  /** a ranks before b: a higher score, or the same score and earlier. */
  predicate Outranks(scores: seq<real>, a: nat, b: nat)
    requires a < |scores| && b < |scores|
  {
    scores[a] > scores[b] || (scores[a] == scores[b] && a < b)
  }

  /** How far the ranked positions score at least as much as n. */
  function Cut(scores: seq<real>, order: seq<nat>, n: nat): (c: nat)
    requires n < |scores| && forall i :: 0 <= i < |order| ==> order[i] < |scores|
    ensures c <= |order|
    ensures c > 0 ==> scores[order[c - 1]] >= scores[n]
    ensures forall i :: c <= i < |order| ==> scores[order[i]] < scores[n]
  {
    if order == [] then 0
    else if scores[order[|order| - 1]] < scores[n] then Cut(scores, order[..|order| - 1], n)
    else |order|
  }

  /** Position n placed after every position that scores at least as much. */
  function Place(scores: seq<real>, order: seq<nat>, n: nat): (placed: seq<nat>)
    requires n < |scores| && forall i :: 0 <= i < |order| ==> order[i] < n
    ensures |placed| == |order| + 1 && forall i :: 0 <= i < |placed| ==> placed[i] <= n
  {
    var c := Cut(scores, order, n);
    order[..c] + [n] + order[c..]
  }

  /** `sorted(..., key=score, reverse=True)`: the first n positions in rank order; the sort is stable. */
  function RankOrder(scores: seq<real>, n: nat): (order: seq<nat>)
    requires n <= |scores|
    ensures |order| == n && forall i :: 0 <= i < |order| ==> order[i] < n
  {
    if n == 0 then [] else Place(scores, RankOrder(scores, n - 1), n - 1)
  }

  function ScoresOf(entries: seq<Entry>): seq<real> {
    seq(|entries|, i requires 0 <= i < |entries| => entries[i].score)
  }

  function Gather(entries: seq<Entry>, at: seq<nat>): seq<Entry>
    requires forall i :: 0 <= i < |at| ==> at[i] < |entries|
  {
    seq(|at|, i requires 0 <= i < |at| => entries[at[i]])
  }

  /** The ranked entries, up to the limit. */
  function Ranked(entries: seq<Entry>, limit: nat): seq<Entry> {
    FirstsInRange(entries, |entries|);
    var deduped := Gather(entries, Firsts(entries, |entries|));
    var ranked := Gather(deduped, RankOrder(ScoresOf(deduped), |deduped|));
    ranked[..Min(limit, |ranked|)]
  }

  lemma {:induction false} FirstsInRange(entries: seq<Entry>, n: nat)
    requires n <= |entries|
    ensures forall i :: 0 <= i < |Firsts(entries, n)| ==>
            Firsts(entries, n)[i] < n && IsFirst(entries, Firsts(entries, n)[i])
    ensures forall i, j :: 0 <= i < j < |Firsts(entries, n)| ==> Firsts(entries, n)[i] < Firsts(entries, n)[j]
  {
    if n > 0 { FirstsInRange(entries, n - 1); }
  }

  lemma {:induction false} FirstsComplete(entries: seq<Entry>, n: nat, k: nat)
    requires n <= |entries| && k < n && IsFirst(entries, k)
    ensures exists i :: 0 <= i < |Firsts(entries, n)| && Firsts(entries, n)[i] == k
  {
    if k == n - 1 {
      assert Firsts(entries, n)[|Firsts(entries, n)| - 1] == k;
    } else {
      FirstsComplete(entries, n - 1, k);
      var i :| 0 <= i < |Firsts(entries, n - 1)| && Firsts(entries, n - 1)[i] == k;
      assert Firsts(entries, n)[i] == k;
    }
  }

  /** Earlier positions outrank later ones; so no position occurs twice. */
  ghost predicate InRankOrder(scores: seq<real>, order: seq<nat>)
    requires forall i :: 0 <= i < |order| ==> order[i] < |scores|
  {
    forall i, j :: 0 <= i < j < |order| ==> Outranks(scores, order[i], order[j])
  }

  predicate Has(order: seq<nat>, k: nat) {
    exists i :: 0 <= i < |order| && order[i] == k
  }

  lemma PlaceKeepsOrder(scores: seq<real>, order: seq<nat>, n: nat)
    requires n < |scores| && forall i :: 0 <= i < |order| ==> order[i] < n
    requires InRankOrder(scores, order)
    ensures InRankOrder(scores, Place(scores, order, n))
  {
    var c := Cut(scores, order, n);
    forall i | 0 <= i < c ensures Outranks(scores, order[i], n) {
      if i < c - 1 { assert Outranks(scores, order[i], order[c - 1]); }
    }
  }

  lemma PlaceAdds(scores: seq<real>, order: seq<nat>, n: nat, k: nat)
    requires n < |scores| && forall i :: 0 <= i < |order| ==> order[i] < n
    ensures Has(Place(scores, order, n), k) <==> Has(order, k) || k == n
  {
    var c, placed := Cut(scores, order, n), Place(scores, order, n);
    if i :| 0 <= i < |order| && order[i] == k {
      assert placed[if i < c then i else i + 1] == k;
    }
    assert placed[c] == n;
    if i :| 0 <= i < |placed| && placed[i] == k && i != c {
      assert order[if i < c then i else i - 1] == k;
    }
  }

  lemma {:induction false} RankOrderRanks(scores: seq<real>, n: nat)
    requires n <= |scores|
    ensures InRankOrder(scores, RankOrder(scores, n))
  {
    if n > 0 {
      RankOrderRanks(scores, n - 1);
      PlaceKeepsOrder(scores, RankOrder(scores, n - 1), n - 1);
    }
  }

  lemma {:induction false} RankOrderCovers(scores: seq<real>, n: nat, k: nat)
    requires k < n <= |scores|
    ensures Has(RankOrder(scores, n), k)
  {
    PlaceAdds(scores, RankOrder(scores, n - 1), n - 1, k);
    if k < n - 1 { RankOrderCovers(scores, n - 1, k); }
  }

  /** Where the ranked entries come from. */
  function RankedPositions(entries: seq<Entry>): (at: seq<nat>)
    ensures |at| == |Firsts(entries, |entries|)|
    ensures forall i :: 0 <= i < |at| ==> IsFirst(entries, at[i])
  {
    FirstsInRange(entries, |entries|);
    var firsts := Firsts(entries, |entries|);
    var order := RankOrder(ScoresOf(Gather(entries, firsts)), |firsts|);
    seq(|order|, i requires 0 <= i < |order| => firsts[order[i]])
  }

  lemma RankedPositionsRank(entries: seq<Entry>, i: nat, j: nat)
    requires i < j < |RankedPositions(entries)|
    ensures Outranks(ScoresOf(entries), RankedPositions(entries)[i], RankedPositions(entries)[j])
  {
    FirstsInRange(entries, |entries|);
    var firsts := Firsts(entries, |entries|);
    var scores := ScoresOf(Gather(entries, firsts));
    RankOrderRanks(scores, |firsts|);
    assert Outranks(scores, RankOrder(scores, |firsts|)[i], RankOrder(scores, |firsts|)[j]);
  }

  lemma RankedPositionsCover(entries: seq<Entry>, k: nat)
    requires IsFirst(entries, k)
    ensures Has(RankedPositions(entries), k)
  {
    FirstsInRange(entries, |entries|);
    FirstsComplete(entries, |entries|, k);
    var firsts := Firsts(entries, |entries|);
    var f: nat :| f < |firsts| && firsts[f] == k;
    var scores := ScoresOf(Gather(entries, firsts));
    RankOrderCovers(scores, |firsts|, f);
    var p: nat :| p < |firsts| && RankOrder(scores, |firsts|)[p] == f;
    assert RankedPositions(entries)[p] == k;
  }

  /** What a top-k of the distinct entries is: positions that are first with their body, each outranking the next
      (higher score, or same score and earlier), min(limit, distinct bodies) of them, and every distinct body left
      out is outranked by all that are kept. */
  ghost predicate IsTopRanking(entries: seq<Entry>, limit: nat, at: seq<nat>) {
    && (forall i :: 0 <= i < |at| ==> IsFirst(entries, at[i]))
    && (forall i, j :: 0 <= i < j < |at| ==> Outranks(ScoresOf(entries), at[i], at[j]))
    && |at| == Min(limit, |Firsts(entries, |entries|)|)
    && (forall k, i :: IsFirst(entries, k) && !Has(at, k) && 0 <= i < |at| ==> Outranks(ScoresOf(entries), at[i], k))
  }

  lemma RankedIsGathered(entries: seq<Entry>, limit: nat)
    ensures var all := RankedPositions(entries);
            Ranked(entries, limit) == Gather(entries, all[..Min(limit, |all|)])
  {
    FirstsInRange(entries, |entries|);
  }

  /** Ranking is the stable, deduplicated top-k. */
  lemma RankedIsTopRanking(entries: seq<Entry>, limit: nat) returns (at: seq<nat>)
    ensures IsTopRanking(entries, limit, at)
    ensures Ranked(entries, limit) == Gather(entries, at)
  {
    RankedIsGathered(entries, limit);
    var all := RankedPositions(entries);
    at := all[..Min(limit, |all|)];
    forall i, j | 0 <= i < j < |at| ensures Outranks(ScoresOf(entries), at[i], at[j]) {
      RankedPositionsRank(entries, i, j);
    }
    forall k, i | IsFirst(entries, k) && !Has(at, k) && 0 <= i < |at| ensures Outranks(ScoresOf(entries), at[i], k) {
      LeftOutIsOutranked(entries, at, k, i);
    }
  }

  lemma LeftOutIsOutranked(entries: seq<Entry>, at: seq<nat>, k: nat, i: nat)
    requires at <= RankedPositions(entries) && i < |at|
    requires IsFirst(entries, k) && !Has(at, k)
    ensures Outranks(ScoresOf(entries), at[i], k)
  {
    RankedPositionsCover(entries, k);
    var p: nat :| p < |RankedPositions(entries)| && RankedPositions(entries)[p] == k;
    PrefixHas(at, RankedPositions(entries), p);
    RankedPositionsRank(entries, i, p);
  }

  lemma PrefixHas(at: seq<nat>, all: seq<nat>, p: nat)
    requires at <= all && p < |all|
    ensures p < |at| ==> Has(at, all[p])
  {
    if p < |at| { assert at[p] == all[p]; }
  }

  // ----- ranking as it runs -----

  /** The bodies among the first n entries. */
  function SeenBodies(entries: seq<Entry>, n: nat): set<string>
    requires n <= |entries|
  {
    if n == 0 then {}
    else if NormalBody(entries[n - 1]) != "" then SeenBodies(entries, n - 1) + {NormalBody(entries[n - 1])}
    else SeenBodies(entries, n - 1)
  }

  lemma {:induction false} SeenBodiesAre(entries: seq<Entry>, n: nat, body: string)
    requires n <= |entries| && body != ""
    ensures body in SeenBodies(entries, n) <==> exists j :: 0 <= j < n && NormalBody(entries[j]) == body
  {
    if n > 0 { SeenBodiesAre(entries, n - 1, body); }
  }

  method Deduplicate(entries: seq<Entry>) returns (deduped: seq<Entry>)
    ensures (forall j :: 0 <= j < |Firsts(entries, |entries|)| ==> Firsts(entries, |entries|)[j] < |entries|)
    ensures deduped == Gather(entries, Firsts(entries, |entries|))
  {
    var seen: set<string> := {};
    deduped := [];
    for i := 0 to |entries|
      invariant seen == SeenBodies(entries, i)
      invariant forall j :: 0 <= j < |Firsts(entries, i)| ==> Firsts(entries, i)[j] < |entries|
      invariant deduped == Gather(entries, Firsts(entries, i))
    {
      var key := NormalBody(entries[i]);
      if key != "" { SeenBodiesAre(entries, i, key); }
      FirstsInRange(entries, i + 1);
      if key != "" && key !in seen {
        seen := seen + {key};
        deduped := deduped + [entries[i]];
      }
    }
  }

  method RankEntries(entries: seq<Entry>, limit: nat) returns (ranked: seq<Entry>, ghost at: seq<nat>)
    ensures IsTopRanking(entries, limit, at) && ranked == Gather(entries, at)
    ensures ranked == Ranked(entries, limit)
  {
    at := RankedIsTopRanking(entries, limit);
    var deduped := Deduplicate(entries);
    var sorted := Gather(deduped, RankOrder(ScoresOf(deduped), |deduped|));
    ranked := sorted[..Min(limit, |sorted|)];
  }

  // ----- the character budget -----

  function Text(blocks: seq<Block>): string {
    if blocks == [] then "" else blocks[0].body + Text(blocks[1..])
  }

  /** The first `remaining` characters of the blocks: whole blocks, then one cut short and flagged. */
  function CutBlocks(blocks: seq<Block>, remaining: int): seq<Block> {
    if blocks == [] || remaining <= 0 then []
    else if |blocks[0].body| <= remaining then [blocks[0]] + CutBlocks(blocks[1..], remaining - |blocks[0].body|)
    else [blocks[0].(body := blocks[0].body[..remaining], truncated := true)]
  }

  function Budgeted(blocks: seq<Block>, tokens: int): seq<Block> {
    if |Text(blocks)| <= 4 * tokens then blocks else CutBlocks(blocks, 4 * tokens)
  }

  method TotalChars(blocks: seq<Block>) returns (total: int)
    ensures total == |Text(blocks)|
  {
    total := 0;
    for i := 0 to |blocks|
      invariant total + |Text(blocks[i..])| == |Text(blocks)|
    {
      total := total + |blocks[i].body|;
      assert blocks[i..][1..] == blocks[i + 1..];
    }
  }

  method ApplyTokenBudget(blocks: seq<Block>, tokens: int) returns (result: seq<Block>)
    ensures result == Budgeted(blocks, tokens)
  {
    var budget := tokens * 4;
    var total := TotalChars(blocks);
    if total <= budget { return blocks; }
    result := [];
    var remaining := budget;
    for i := 0 to |blocks|
      invariant result + CutBlocks(blocks[i..], remaining) == CutBlocks(blocks, budget)
    {
      assert blocks[i..][1..] == blocks[i + 1..];
      var block := blocks[i];
      if remaining <= 0 { break; }
      if |block.body| <= remaining {
        result := result + [block];
        remaining := remaining - |block.body|;
      } else {
        result := result + [block.(body := block.body[..remaining], truncated := true)];
        remaining := 0;
      }
    }
  }

  /** How much of a text of this length a budget keeps. */
  function Kept(length: nat, tokens: int): (k: nat)
    ensures k <= length
  {
    if 4 * tokens < 0 then 0 else Min(length, 4 * tokens)
  }

  lemma {:induction false} CutIsPrefix(blocks: seq<Block>, remaining: int)
    ensures Text(CutBlocks(blocks, remaining)) ==
            Text(blocks)[..if remaining < 0 then 0 else Min(|Text(blocks)|, remaining)]
  {
    if blocks != [] && remaining > 0 {
      if |blocks[0].body| <= remaining {
        CutIsPrefix(blocks[1..], remaining - |blocks[0].body|);
        var rest := CutBlocks(blocks[1..], remaining - |blocks[0].body|);
        assert ([blocks[0]] + rest)[1..] == rest;
      } else {
        var cut := blocks[0].(body := blocks[0].body[..remaining], truncated := true);
        assert Text([cut]) == cut.body + Text([]);
      }
    }
  }

  /** The text after the cut is the first min(total, 4 * budget) characters of the text before it. */
  lemma BudgetIsTextPrefix(blocks: seq<Block>, tokens: int)
    ensures Text(Budgeted(blocks, tokens)) == Text(blocks)[..Kept(|Text(blocks)|, tokens)]
  {
    CutIsPrefix(blocks, 4 * tokens);
  }

  /** Cutting twice is cutting once, and a larger budget extends the text of a smaller one. */
  lemma BudgetIdempotentMonotone(blocks: seq<Block>, tokens: int, more: int)
    requires tokens <= more
    ensures Budgeted(Budgeted(blocks, tokens), tokens) == Budgeted(blocks, tokens)
    ensures Text(Budgeted(blocks, tokens)) <= Text(Budgeted(blocks, more))
  {
    BudgetIsTextPrefix(blocks, tokens);
    BudgetIsTextPrefix(blocks, more);
  }

  /** Every block after the cut is the block before it, or its flagged strict prefix. */
  lemma {:induction false} CutBlocksAreCuts(blocks: seq<Block>, remaining: int)
    ensures |CutBlocks(blocks, remaining)| <= |blocks|
    ensures forall i :: 0 <= i < |CutBlocks(blocks, remaining)| ==> IsCut(blocks[i], CutBlocks(blocks, remaining)[i])
  {
    if blocks != [] && remaining > 0 && |blocks[0].body| <= remaining {
      CutBlocksAreCuts(blocks[1..], remaining - |blocks[0].body|);
    }
  }

  predicate IsCut(before: Block, after: Block) {
    after == before || (after == before.(body := after.body, truncated := true) && after.body < before.body)
  }

  // ----- from records to the bundle -----

  datatype TaskCore = TaskCore(title: string, description: string, evidence: seq<EvidenceRef>)

  /** The records the entry builders read, one constructor for each list of the assembly. */
  datatype Record =
    | Fact(text: string, source: string, relevance: real, evidence: seq<EvidenceRef>)
    | Constraint(text: string, constraintType: string, evidence: seq<EvidenceRef>)
    | Attempt(text: string, relevance: real, evidence: seq<EvidenceRef>)
    | Recalled(text: string, score: real, evidence: seq<EvidenceRef>)

  datatype Assembly = Assembly(
    taskCore: Option<TaskCore>, facts: seq<Record>, workflowSummary: string, constraints: seq<Record>,
    attempts: seq<Record>, memories: seq<Record>, evidence: seq<EvidenceRef>, tokens: int, maxBlocks: nat)

  datatype Bundle = Bundle(blocks: seq<Block>, evidence: seq<EvidenceRef>)

  function EntryOf(r: Record): Entry {
    match r
    case Fact(text, source, relevance, evidence) => Entry(text, source, evidence, relevance)
    case Constraint(text, constraintType, evidence) => Entry(text, "security:" + constraintType, evidence, 0.75)
    case Attempt(text, relevance, evidence) => Entry(text, "recent_attempts", evidence, relevance)
    case Recalled(text, score, evidence) => Entry(text, "memory_recall", evidence, score)
  }

  function EntriesOf(records: seq<Record>): seq<Entry> {
    seq(|records|, i requires 0 <= i < |records| => EntryOf(records[i]))
  }

  function EvidenceOf(records: seq<Record>): seq<EvidenceRef> {
    if records == [] then [] else EvidenceOf(records[..|records| - 1]) + records[|records| - 1].evidence
  }

  /** The builder loops extend the shared evidence list while they collect entries. */
  method CollectEntries(records: seq<Record>, evidence: seq<EvidenceRef>)
      returns (entries: seq<Entry>, extended: seq<EvidenceRef>)
    ensures entries == EntriesOf(records) && extended == evidence + EvidenceOf(records)
  {
    entries, extended := [], evidence;
    for i := 0 to |records|
      invariant entries == EntriesOf(records[..i]) && extended == evidence + EvidenceOf(records[..i])
    {
      assert records[..i + 1][..i] == records[..i];
      extended := extended + records[i].evidence;
      entries := entries + [EntryOf(records[i])];
    }
    assert records[..|records|] == records;
  }

  function CoreEntries(a: Assembly): seq<Entry> {
    if a.taskCore.Some? then
      [Entry(a.taskCore.value.title, "task_truth", a.taskCore.value.evidence, 1.0),
       Entry(a.taskCore.value.description, "task_truth", [], 0.95)]
    else [Entry(if a.workflowSummary != "" then a.workflowSummary else "No task core available", "task_truth", [], 1.0)]
  }

  function SummaryEntries(a: Assembly): seq<Entry> {
    if a.workflowSummary == "" then [] else [Entry(a.workflowSummary, "workflow_summary", [], 0.8)]
  }

  /** What is known about the project, its workflow and its constraints. */
  function ProjectEntries(a: Assembly): seq<Entry> {
    EntriesOf(a.facts) + SummaryEntries(a) + EntriesOf(a.constraints)
  }

  /** The entries that reach the bundle, level by level, in rank order. */
  function Selected(a: Assembly): seq<Entry> {
    Ranked(CoreEntries(a), a.maxBlocks) + Ranked(ProjectEntries(a), a.maxBlocks)
    + Ranked(EntriesOf(a.attempts), a.maxBlocks) + Ranked(EntriesOf(a.memories), a.maxBlocks)
  }

  /** A block shows a prefix of its entry, and is flagged exactly when that is not all of it. */
  predicate Shows(b: Block, e: Entry) {
    && b.body <= e.body && |b.body| <= MAX_BODY_LENGTH && (b.truncated <==> b.body != e.body)
    && b.source == e.source && b.evidence == e.evidence
  }

  ghost predicate AllShow(blocks: seq<Block>, entries: seq<Entry>) {
    |blocks| <= |entries| && forall i :: 0 <= i < |blocks| ==> Shows(blocks[i], entries[i])
  }

  /** Every entry is shown. */
  ghost predicate ShowAll(blocks: seq<Block>, entries: seq<Entry>) {
    |blocks| == |entries| && AllShow(blocks, entries)
  }

  /** The block an entry becomes, before any cut to the budget. */
  function BlockOf(level: Level, title: string, e: Entry): Block {
    Block(level, title, e.body[..Min(|e.body|, MAX_BODY_LENGTH)], e.source, |e.body| > MAX_BODY_LENGTH, e.evidence)
  }

  function BlocksOf(level: Level, title: string, entries: seq<Entry>): seq<Block> {
    seq(|entries|, i requires 0 <= i < |entries| => BlockOf(level, title, entries[i]))
  }

  /** All blocks of the assembly before the budget is applied. */
  function Uncut(a: Assembly): seq<Block> {
    BlocksOf(L0, "Task Core", Ranked(CoreEntries(a), a.maxBlocks))
    + BlocksOf(L1, "Project Facts", Ranked(ProjectEntries(a), a.maxBlocks))
    + BlocksOf(L2, "Recent Attempts", Ranked(EntriesOf(a.attempts), a.maxBlocks))
    + BlocksOf(L3, "Long-Term Memory", Ranked(EntriesOf(a.memories), a.maxBlocks))
  }

  method EntriesToBlocks(level: Level, title: string, entries: seq<Entry>) returns (blocks: seq<Block>)
    ensures blocks == BlocksOf(level, title, entries) && ShowAll(blocks, entries)
  {
    blocks := [];
    for i := 0 to |entries|
      invariant |blocks| == i
      invariant forall j :: 0 <= j < i ==>
          blocks[j] == BlockOf(level, title, entries[j]) && Shows(blocks[j], entries[j])
    {
      var e := entries[i];
      var truncated := |e.body| > MAX_BODY_LENGTH;
      blocks := blocks + [Block(level, title, e.body[..Min(|e.body|, MAX_BODY_LENGTH)], e.source, truncated,
          e.evidence)];
    }
  }

  lemma ShowsSurvivesCut(blocks: seq<Block>, entries: seq<Entry>, tokens: int)
    requires AllShow(blocks, entries)
    ensures AllShow(Budgeted(blocks, tokens), entries)
  {
    CutBlocksAreCuts(blocks, 4 * tokens);
    forall i | 0 <= i < |CutBlocks(blocks, 4 * tokens)| ensures Shows(CutBlocks(blocks, 4 * tokens)[i], entries[i]) {
      assert IsCut(blocks[i], CutBlocks(blocks, 4 * tokens)[i]);
    }
  }

  lemma BudgetRespected(blocks: seq<Block>, tokens: int)
    requires tokens >= 0
    ensures |Text(Budgeted(blocks, tokens))| <= 4 * tokens
  {
    BudgetIsTextPrefix(blocks, tokens);
  }

  /** One level: rank its entries and turn the survivors into blocks. */
  method LevelBlocks(level: Level, title: string, entries: seq<Entry>, limit: nat) returns (blocks: seq<Block>)
    ensures blocks == BlocksOf(level, title, Ranked(entries, limit)) && |blocks| <= limit
  {
    var ranked, _ := RankEntries(entries, limit);
    blocks := EntriesToBlocks(level, title, ranked);
  }

  lemma BlocksShowAll(level: Level, title: string, entries: seq<Entry>)
    ensures ShowAll(BlocksOf(level, title, entries), entries)
  {
  }

  lemma AllShowTogether(b: seq<Block>, e: seq<Entry>, c: seq<Block>, f: seq<Entry>)
    requires ShowAll(b, e) && ShowAll(c, f)
    ensures ShowAll(b + c, e + f)
  {
  }

  /** The uncut blocks show every selected entry. */
  lemma UncutShowsSelected(a: Assembly)
    ensures ShowAll(Uncut(a), Selected(a))
  {
    var e0, e1 := Ranked(CoreEntries(a), a.maxBlocks), Ranked(ProjectEntries(a), a.maxBlocks);
    var e2, e3 := Ranked(EntriesOf(a.attempts), a.maxBlocks), Ranked(EntriesOf(a.memories), a.maxBlocks);
    var b0, b1 := BlocksOf(L0, "Task Core", e0), BlocksOf(L1, "Project Facts", e1);
    var b2, b3 := BlocksOf(L2, "Recent Attempts", e2), BlocksOf(L3, "Long-Term Memory", e3);
    BlocksShowAll(L0, "Task Core", e0);
    BlocksShowAll(L1, "Project Facts", e1);
    BlocksShowAll(L2, "Recent Attempts", e2);
    BlocksShowAll(L3, "Long-Term Memory", e3);
    AllShowTogether(b0, e0, b1, e1);
    AllShowTogether(b0 + b1, e0 + e1, b2, e2);
    AllShowTogether(b0 + b1 + b2, e0 + e1 + e2, b3, e3);
  }

  lemma CutShowsSelected(a: Assembly)
    requires a.tokens >= 0
    ensures AllShow(Budgeted(Uncut(a), a.tokens), Selected(a)) && |Selected(a)| <= 4 * a.maxBlocks
    ensures |Text(Budgeted(Uncut(a), a.tokens))| <= 4 * a.tokens
  {
    UncutShowsSelected(a);
    ShowsSurvivesCut(Uncut(a), Selected(a), a.tokens);
    BudgetRespected(Uncut(a), a.tokens);
  }

  /** Across the whole assembly: blocks show the selected entries in order and are flagged truncated exactly when
      they show less than their entry, the text fits the budget, and all evidence is listed whether or not its
      entry was selected. */
  method BuildFromRecords(a: Assembly) returns (bundle: Bundle)
    requires a.tokens >= 100 && a.maxBlocks >= 1
    ensures bundle.blocks == Budgeted(Uncut(a), a.tokens)
    ensures AllShow(bundle.blocks, Selected(a)) && |Selected(a)| <= 4 * a.maxBlocks
    ensures |Text(bundle.blocks)| <= 4 * a.tokens
    ensures bundle.evidence == AllEvidence(a)
  {
    var evidence := a.evidence;
    if a.taskCore.Some? { evidence := evidence + a.taskCore.value.evidence; }
    assert evidence == a.evidence + CoreEvidence(a);
    var b0 := LevelBlocks(L0, "Task Core", CoreEntries(a), a.maxBlocks);
    var facts, constraints, attempts, memories;
    facts, evidence := CollectEntries(a.facts, evidence);
    constraints, evidence := CollectEntries(a.constraints, evidence);
    var b1 := LevelBlocks(L1, "Project Facts", facts + SummaryEntries(a) + constraints, a.maxBlocks);
    attempts, evidence := CollectEntries(a.attempts, evidence);
    var b2 := LevelBlocks(L2, "Recent Attempts", attempts, a.maxBlocks);
    memories, evidence := CollectEntries(a.memories, evidence);
    var b3 := LevelBlocks(L3, "Long-Term Memory", memories, a.maxBlocks);
    var cut := ApplyTokenBudget(b0 + b1 + b2 + b3, a.tokens);
    bundle := Bundle(cut, evidence);
    CutShowsSelected(a);
  }

  function CoreEvidence(a: Assembly): seq<EvidenceRef> {
    if a.taskCore.Some? then a.taskCore.value.evidence else []
  }

  function AllEvidence(a: Assembly): seq<EvidenceRef> {
    a.evidence + CoreEvidence(a)
    + EvidenceOf(a.facts) + EvidenceOf(a.constraints) + EvidenceOf(a.attempts) + EvidenceOf(a.memories)
  }
}
