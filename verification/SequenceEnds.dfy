/** X10: sos and eos of a sequence, from the levels around its first and last character. */
module SequenceEnds {
  import opened BidiTypes
  import opened LevelRuns
  import opened IsolatingRuns
  import opened WeakRules
  import opened TextChains
  import opened Pipeline
  import opened ParagraphSpec

  /** The direction of the higher of two levels. */
  function HigherDirection(a: Level, b: Level): BidiClass {
    if (if a >= b then a else b) % 2 == 1 then R else L
  }

  lemma {:induction false} IndicesBegin(runs: seq<Run>, chain: seq<nat>)
    requires Refers(runs, chain) && chain != []
    ensures var r, all := runs[chain[0]], Indices(runs, chain);
            |all| >= r.end - r.start && forall k :: 0 <= k < r.end - r.start ==> all[k] == r.start + k
    decreases |chain|
  {
    var front := chain[..|chain| - 1];
    if front != [] {
      assert front[0] == chain[0];
      IndicesBegin(runs, front);
    } else {
      assert Indices(runs, front) == [];
    }
  }

  lemma {:induction false} LevelBeforeRange(levels: seq<Level>, base: Level, p: nat)
    requires p <= |levels| && 0 <= base && forall q :: 0 <= q < |levels| ==> levels[q] >= NO_LEVEL
    ensures LevelBefore(levels, base, p) >= 0
    decreases p
  {
    if p > 0 && levels[p - 1] == NO_LEVEL {
      LevelBeforeRange(levels, base, p - 1);
    }
  }

  lemma {:induction false} LevelAfterRange(levels: seq<Level>, base: Level, p: nat)
    requires p <= |levels| && 0 <= base && forall q :: 0 <= q < |levels| ==> levels[q] >= NO_LEVEL
    ensures LevelAfter(levels, base, p) >= 0
    decreases |levels| - p
  {
    if p < |levels| && levels[p] == NO_LEVEL {
      LevelAfterRange(levels, base, p + 1);
    }
  }

  predicate EndsRight(levels: seq<Level>, base: Level, r: Run) {
    && r.start < r.end <= |levels| && r.level >= 0
    && r.sor == HigherDirection(r.level, LevelBefore(levels, base, r.start))
    && r.eor == HigherDirection(r.level, LevelAfter(levels, base, r.end))
  }

  /** A run with its sor and eor, from the levels around it. */
  lemma RunEnds(types: Classes, levels: seq<Level>, base: Level, k: nat)
    requires |types| == |levels| && 0 <= base && forall q :: 0 <= q < |levels| ==> levels[q] >= NO_LEVEL
    requires k < |TextRuns(types, levels, base)|
    ensures EndsRight(levels, base, TextRuns(types, levels, base)[k])
  {
    var plain := RunsFrom(types, levels, 0);
    RunsAreLevelRuns(types, levels, 0);
    SorEorAreX10(types, levels, base, plain, k);
    assert RunAt(types, levels, 0, plain, k);
    var r := TextRuns(types, levels, base)[k];
    LevelBeforeRange(levels, base, r.start);
    LevelAfterRange(levels, base, r.end);
  }

  /** The first and last position of a sequence. */
  lemma ChainPositions(types: Classes, levels: seq<Level>, runs: seq<Run>, list: seq<nat>)
    requires AreLevelRuns(types, levels, 0, runs) && list != [] && Refers(runs, list) && Ascending(list)
    requires forall x :: 0 <= x < |list| ==> runs[list[x]].level == runs[list[0]].level
    ensures var s, last := Indices(runs, list), runs[list[|list| - 1]];
            s != [] && s[0] == runs[list[0]].start && s[|s| - 1] + 1 == last.end <= |levels| && s[0] < |levels|
  {
    assert RunAt(types, levels, 0, runs, list[0]);
    assert RunAt(types, levels, 0, runs, list[|list| - 1]);
    IndicesAscend(types, levels, runs, list, runs[list[0]].level);
    IndicesBegin(runs, list);
    assert EndsAt(Indices(runs, list), runs[list[|list| - 1]].end);
  }

  predicate EndsAtInitiator(types: Classes, p: nat)
    requires p < |types|
  {
    types[p].LRI? || types[p].RLI? || types[p].FSI?
  }

  /** X10: sos is the direction of the higher of the sequence's level and that of the last character
      before it that is not removed; eos that of the higher of its level and that of the first such
      character behind it. The paragraph level stands in at the ends of the text, and for eos behind an
      isolate initiator. */
  predicate EndsByX10(types: Classes, levels: seq<Level>, base: Level, s: IsolatingRunSequence)
    requires |types| == |levels|
  {
    && s.indices != [] && InRange(s.indices, |levels|)
    && var first, last := s.indices[0], s.indices[|s.indices| - 1];
       && s.sos == HigherDirection(s.level, LevelBefore(levels, base, first))
       && s.eos == HigherDirection(s.level, if EndsAtInitiator(types, last) then base else LevelAfter(levels, base, last + 1))
  }

  lemma EndsFromRuns(types: Classes, levels: seq<Level>, base: Level, s: IsolatingRunSequence, a: Run, b: Run)
    requires |types| == |levels| && EndsRight(levels, base, a) && EndsRight(levels, base, b) && a.level == b.level == s.level
    requires s.indices != [] && InRange(s.indices, |levels|)
    requires s.indices[0] == a.start && s.indices[|s.indices| - 1] == b.end - 1
    requires s.sos == a.sor && s.eos == if EndsAtInitiator(types, b.end - 1) then HigherDirection(s.level, base) else b.eor
    ensures EndsByX10(types, levels, base, s)
  {
  }

  lemma SequenceFields(types: Classes, base: Level, runs: seq<Run>, list: seq<nat>, a: Run, b: Run)
    requires Refers(runs, list) && list != [] && a == runs[list[0]] && b == runs[list[|list| - 1]]
    requires 0 < b.end <= |types| && 0 <= base && 0 <= a.level
    ensures var s := SequenceOf(types, base, runs, list);
            && s.level == a.level && s.sos == a.sor && s.indices == Indices(runs, list)
            && s.eos == if EndsAtInitiator(types, b.end - 1) then HigherDirection(a.level, base) else b.eor
  {
  }

  lemma ChainEnds(types: Classes, levels: seq<Level>, base: Level, runs: seq<Run>, list: seq<nat>, a: Run, b: Run)
    requires 0 <= base && AreLevelRuns(types, levels, 0, runs)
    requires list != [] && Refers(runs, list) && Ascending(list) && InRange(Indices(runs, list), |levels|)
    requires forall x :: 0 <= x < |list| ==> runs[list[x]].level == runs[list[0]].level
    requires a == runs[list[0]] && b == runs[list[|list| - 1]]
    requires EndsRight(levels, base, a) && EndsRight(levels, base, b)
    ensures EndsByX10(types, levels, base, SequenceOf(types, base, runs, list))
  {
    ChainPositions(types, levels, runs, list);
    SequenceFields(types, base, runs, list, a, b);
    EndsFromRuns(types, levels, base, SequenceOf(types, base, runs, list), a, b);
  }

  /** So it is for every sequence of a text. */
  lemma SequenceEndsAreX10(types: Classes, levels: seq<Level>, base: Level, c: nat)
    requires |types| == |levels| && 0 <= base && forall q :: 0 <= q < |levels| ==> levels[q] >= NO_LEVEL
    requires c < |TextSequences(types, levels, base)|
    ensures EndsByX10(types, levels, base, TextSequences(types, levels, base)[c])
  {
    var runs := TextRuns(types, levels, base);
    TextRunsAre(types, levels, base);
    var lists := Chains(types, levels, runs, {}, 0);
    ChainsPartition(types, levels, runs, {}, 0);
    assert ChainAt(runs, {}, 0, lists, c);
    SequencesCoverText(types, levels, runs);
    SequencesOk(types, levels, base);
    assert ChainOk(TextSequences(types, levels, base), |types|, c);
    var a, b := lists[c][0], lists[c][|lists[c]| - 1];
    RunEnds(types, levels, base, a);
    RunEnds(types, levels, base, b);
    ChainEnds(types, levels, base, runs, lists[c], runs[a], runs[b]);
  }
}
