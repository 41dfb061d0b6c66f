/** The context bundle in terms of its records: what each entry says, what counts as the same, and what comes first. */
module ContextSources {
  import opened Common
  import opened ContextBuilder

  // ----- entries and blocks -----

  /** An entry carries its record's text, evidence and relevance; a constraint counts 0.75. */
  lemma EntryCarriesRecord(r: Record)
    ensures EntryOf(r).body == r.text && EntryOf(r).evidence == r.evidence
    ensures r.Fact? ==> EntryOf(r).score == r.relevance && EntryOf(r).source == r.source
    ensures r.Attempt? ==> EntryOf(r).score == r.relevance && EntryOf(r).source == "recent_attempts"
    ensures r.Recalled? ==> EntryOf(r).score == r.score && EntryOf(r).source == "memory_recall"
    ensures r.Constraint? ==> EntryOf(r).score == 0.75 && EntryOf(r).source == "security:" + r.constraintType
  {
  }

  /** A block shows the first 280 characters of its entry, and says so when that is not all. */
  lemma BlockShowsEntry(level: Level, title: string, e: Entry)
    ensures var b := BlockOf(level, title, e);
            && |b.body| == (if |e.body| <= 280 then |e.body| else 280) && b.body == e.body[..|b.body|]
            && (b.truncated <==> |e.body| > 280)
            && b.level == level && b.title == title && b.source == e.source && b.evidence == e.evidence
  {
  }

  predicate Titled(level: Level, title: string) {
    match level
    case L0 => title == "Task Core"
    case L1 => title == "Project Facts"
    case L2 => title == "Recent Attempts"
    case L3 => title == "Long-Term Memory"
  }

  function RankOf(level: Level): nat {
    match level
    case L0 => 0
    case L1 => 1
    case L2 => 2
    case L3 => 3
  }

  /** Blocks come level by level, under the title of their level. */
  ghost predicate ByLevel(blocks: seq<Block>) {
    && (forall i :: 0 <= i < |blocks| ==> Titled(blocks[i].level, blocks[i].title))
    && (forall i, j :: 0 <= i < j < |blocks| ==> RankOf(blocks[i].level) <= RankOf(blocks[j].level))
  }

  /** By level, and none beyond this one. */
  ghost predicate UpTo(blocks: seq<Block>, level: Level) {
    ByLevel(blocks) && forall i :: 0 <= i < |blocks| ==> RankOf(blocks[i].level) <= RankOf(level)
  }

  lemma AddLevel(blocks: seq<Block>, before: Level, level: Level, title: string, entries: seq<Entry>)
    requires UpTo(blocks, before) && RankOf(before) <= RankOf(level) && Titled(level, title)
    ensures UpTo(blocks + BlocksOf(level, title, entries), level)
  {
  }

  lemma UncutByLevel(a: Assembly)
    ensures ByLevel(Uncut(a))
  {
    var e0, e1 := Ranked(CoreEntries(a), a.maxBlocks), Ranked(ProjectEntries(a), a.maxBlocks);
    var e2, e3 := Ranked(EntriesOf(a.attempts), a.maxBlocks), Ranked(EntriesOf(a.memories), a.maxBlocks);
    var b0, b1 := BlocksOf(L0, "Task Core", e0), BlocksOf(L1, "Project Facts", e1);
    var b2 := BlocksOf(L2, "Recent Attempts", e2);
    AddLevel([], L0, L0, "Task Core", e0);
    assert [] + b0 == b0;
    AddLevel(b0, L0, L1, "Project Facts", e1);
    AddLevel(b0 + b1, L1, L2, "Recent Attempts", e2);
    AddLevel(b0 + b1 + b2, L2, L3, "Long-Term Memory", e3);
  }

  lemma CutByLevel(blocks: seq<Block>, remaining: int)
    requires ByLevel(blocks)
    ensures ByLevel(CutBlocks(blocks, remaining))
  {
    CutBlocksAreCuts(blocks, remaining);
    var cut := CutBlocks(blocks, remaining);
    forall i | 0 <= i < |cut| ensures cut[i].level == blocks[i].level && cut[i].title == blocks[i].title {
      assert IsCut(blocks[i], cut[i]);
    }
  }

  /** The blocks of a bundle come level by level, under the title of their level. */
  lemma BundleByLevel(a: Assembly)
    ensures ByLevel(Budgeted(Uncut(a), a.tokens))
  {
    UncutByLevel(a);
    CutByLevel(Uncut(a), 4 * a.tokens);
  }

  // ----- what comes first -----

  /** Of two facts of the assembly that are both first with their text, the more relevant one is shown if the other is:
      it is ranked among the entries kept. */
  lemma MoreRelevantIsKept(a: Assembly, at: seq<nat>, i: nat, j: nat)
    requires i < |a.facts| && j < |a.facts| && a.facts[i].Fact? && a.facts[j].Fact?
    requires a.facts[i].relevance > a.facts[j].relevance
    requires IsTopRanking(ProjectEntries(a), a.maxBlocks, at)
    requires IsFirst(ProjectEntries(a), i) && Has(at, j)
    ensures Has(at, i)
  {
    var entries := ProjectEntries(a);
    assert entries[i] == EntryOf(a.facts[i]) && entries[j] == EntryOf(a.facts[j]);
    assert ScoresOf(entries)[i] > ScoresOf(entries)[j];
  }

  /** A task with a title and a description of its own comes title first, when two blocks are allowed. */
  lemma TitleComesFirst(a: Assembly, title: Entry, description: Entry)
    requires a.taskCore.Some? && a.maxBlocks >= 2
    requires title == Entry(a.taskCore.value.title, "task_truth", a.taskCore.value.evidence, 1.0)
    requires description == Entry(a.taskCore.value.description, "task_truth", [], 0.95)
    requires NormalBody(title) != "" && NormalBody(description) != "" && NormalBody(title) != NormalBody(description)
    ensures Ranked(CoreEntries(a), a.maxBlocks) == [title, description]
  {
    var entries := CoreEntries(a);
    var at := RankedIsTopRanking(entries, a.maxBlocks);
    assert entries == [title, description];
    assert Firsts(entries, 1) == [0] by { assert IsFirst(entries, 0) && Firsts(entries, 0) == []; }
    assert Firsts(entries, 2) == [0, 1] by { assert IsFirst(entries, 1); }
    assert |at| == 2 && Outranks(ScoresOf(entries), at[0], at[1]);
    assert at[0] < 2 && at[1] < 2;
  }

  /** Without a task there is one core entry: the summary of the workflow, or a line that says so. */
  lemma CoreWithoutTask(a: Assembly)
    requires a.taskCore.None?
    ensures |CoreEntries(a)| == 1
    ensures CoreEntries(a)[0].body == if a.workflowSummary != "" then a.workflowSummary else "No task core available"
  {
  }

  /** The workflow's summary, if there is one, stands among the facts and the constraints and counts 0.8. */
  lemma SummaryAmongFacts(a: Assembly)
    ensures |ProjectEntries(a)| == |a.facts| + (if a.workflowSummary == "" then 0 else 1) + |a.constraints|
    ensures forall i :: 0 <= i < |a.facts| ==> ProjectEntries(a)[i] == EntryOf(a.facts[i])
    ensures a.workflowSummary != "" ==>
              var e := ProjectEntries(a)[|a.facts|];
              e.body == a.workflowSummary && e.source == "workflow_summary" && e.score == 0.8 && e.evidence == []
    ensures var n := |ProjectEntries(a)| - |a.constraints|;
            forall i :: 0 <= i < |a.constraints| ==> ProjectEntries(a)[n + i] == EntryOf(a.constraints[i])
  {
  }

  /** The evidence of some records is that of each, in their order. */
  lemma {:induction false} EvidenceInOrder(records: seq<Record>, more: seq<Record>)
    ensures EvidenceOf(records + more) == EvidenceOf(records) + EvidenceOf(more)
    ensures |records| == 1 ==> EvidenceOf(records) == records[0].evidence
  {
    if more == [] {
      assert records + more == records;
    } else {
      EvidenceInOrder(records, more[..|more| - 1]);
      assert (records + more)[..|records + more| - 1] == records + more[..|more| - 1];
    }
    if |records| == 1 { assert records[..0] == []; }
  }

  lemma Regroup<T>(x: seq<T>, a: seq<T>, b: seq<T>, c: seq<T>, d: seq<T>)
    ensures x + a + b + c + d == x + (a + b + c + d)
  {
  }

  /** All evidence: what the assembly brings, the task's, then that of facts, constraints, attempts and memories. */
  lemma AllEvidenceInOrder(a: Assembly, records: seq<Record>)
    requires records == a.facts + a.constraints + a.attempts + a.memories
    ensures a.taskCore.Some? ==>
              AllEvidence(a) == a.evidence + a.taskCore.value.evidence + EvidenceOf(records)
    ensures a.taskCore.None? ==> AllEvidence(a) == a.evidence + EvidenceOf(records)
  {
    EvidenceInOrder(a.facts, a.constraints);
    EvidenceInOrder(a.facts + a.constraints, a.attempts);
    EvidenceInOrder(a.facts + a.constraints + a.attempts, a.memories);
    var first := a.evidence + CoreEvidence(a);
    Regroup(first, EvidenceOf(a.facts), EvidenceOf(a.constraints), EvidenceOf(a.attempts), EvidenceOf(a.memories));
    assert a.evidence + [] == a.evidence;
  }

  // ----- what counts as the same -----

  lemma {:induction false} StripLeftOver(left: string, s: string)
    requires AllSpace(left)
    ensures StripLeft(left + s) == StripLeft(s)
  {
    if left == "" {
      assert left + s == s;
    } else {
      StripLeftOver(left[1..], s);
      assert (left + s)[1..] == left[1..] + s;
    }
  }

  lemma {:induction false} StripRightOver(s: string, right: string)
    requires AllSpace(right)
    ensures StripRight(s + right) == StripRight(s)
  {
    if right == "" {
      assert s + right == s;
    } else {
      var n := |right| - 1;
      StripRightOver(s, right[..n]);
      assert (s + right)[..|s + right| - 1] == s + right[..n];
    }
  }

  lemma {:induction false} StripLeftThrough(s: string, right: string)
    requires s != "" && !IsSpace(s[|s| - 1])
    ensures StripLeft(s + right) == StripLeft(s) + right && StripLeft(s) != ""
  {
    if IsSpace(s[0]) {
      StripLeftThrough(s[1..], right);
      assert (s + right)[1..] == s[1..] + right;
    }
  }

  /** Two entries are the same when their texts differ only in the space around them and in capitals. */
  lemma SpaceAndCapitalsDoNotCount(left: string, body: string, other: string, right: string, e: Entry, f: Entry)
    requires AllSpace(left) && AllSpace(right) && body != "" && !IsSpace(body[0]) && !IsSpace(body[|body| - 1])
    requires e.body == left + body + right && f.body == other && Lower(other) == Lower(body)
    requires other != "" && !IsSpace(other[0]) && !IsSpace(other[|other| - 1])
    ensures NormalBody(e) == NormalBody(f) == Lower(body)
  {
    assert left + body + right == left + (body + right);
    StripLeftOver(left, body + right);
    StripLeftThrough(body, right);
    StripRightOver(StripLeft(body), right);
    assert Strip(e.body) == body && Strip(other) == other;
  }
}
