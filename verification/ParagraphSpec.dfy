/** The whole resolution of a paragraph as a function of its classes, its characters and
    the paragraph level, and what it promises. */
module ParagraphSpec {
  import opened Wrappers
  import opened BidiTypes
  import opened ExplicitLevels
  import opened IsolateNesting
  import opened LevelRuns
  import opened IsolatingRuns
  import opened IsolateMatching
  import opened WeakRules
  import opened BracketRules
  import opened TextChains
  import opened Pipeline

  function HintLevel(types: Classes, hint: ParagraphDirectionHint): (level: Level)
    ensures 0 <= level <= 1
  {
    match hint
    case LeftToRight => 0
    case RightToLeft => 1
    case AutoLeftToRight => ParagraphLevel(types, false, LTR)
    case AutoRightToLeft => ParagraphLevel(types, false, RTL)
  }

  predicate Processed(orig: Classes, base: Level)
  {
    0 <= base <= 1 && forall k :: 0 <= k <= |orig| ==> StateAt(orig, base, MAX_DEPTH, k).Some?
  }

  lemma CompletesIsProcessed(orig: Classes, base: Level)
    requires 0 <= base <= 1
    ensures Processed(orig, base) <==> Completes(orig, base, MAX_DEPTH)
  {
    if Completes(orig, base, MAX_DEPTH) {
      forall k | 0 <= k <= |orig| ensures StateAt(orig, base, MAX_DEPTH, k).Some? {
        CompletesPrefix(orig, base, MAX_DEPTH, k, |orig|);
      }
    }
  }

  /** A paragraph is processed unless a PDI is to close an isolate whose push was dropped. */
  lemma ProcessedExactly(orig: Classes, base: Level)
    requires 0 <= base <= 1
    ensures Processed(orig, base) <==> forall k: nat :: !PopsDroppedIsolate(orig, base, MAX_DEPTH, k)
  {
    CompletesIsProcessed(orig, base);
    FailsExactly(orig, base, MAX_DEPTH);
  }

  lemma FittingProcessed(orig: Classes, base: Level)
    requires 0 <= base <= 1 && FitsSourceStack(orig, base)
    ensures Processed(orig, base)
  {
    FittingCompletes(orig, base);
    CompletesIsProcessed(orig, base);
  }

  /** Every right-to-left paragraph is processed. */
  lemma RtlProcessed(orig: Classes)
    ensures Processed(orig, 1)
  {
    RtlParagraphFits(orig);
    FittingProcessed(orig, 1);
  }

  /** So is every paragraph with fewer than 125 embeddings, overrides and isolates. */
  lemma FewInitiatorsProcessed(orig: Classes, base: Level)
    requires 0 <= base <= 1 && CountInitiators(orig, |orig|) < MAX_DEPTH
    ensures Processed(orig, base)
  {
    FewInitiatorsFit(orig, base);
    FittingProcessed(orig, base);
  }

  /** The classes after X1 to X8. */
  function ExplicitClasses(orig: Classes, base: Level): (r: Classes)
    requires Processed(orig, base)
    ensures |r| == |orig|
  {
    seq(|orig|, k requires 0 <= k < |orig| => ExplicitClass(orig, base, MAX_DEPTH, k))
  }

  /** The levels after X1 to X9. */
  function ExplicitLevelsOf(orig: Classes, base: Level): (r: seq<Level>)
    requires Processed(orig, base)
    ensures |r| == |orig|
  {
    seq(|orig|, k requires 0 <= k < |orig| => ExplicitLevel(orig, base, MAX_DEPTH, k))
  }

  /** X9 marks exactly the characters of the removed classes, before and after overrides. */
  lemma ExplicitMarked(orig: Classes, base: Level)
    requires Processed(orig, base)
    ensures var types, levels := ExplicitClasses(orig, base), ExplicitLevelsOf(orig, base);
            && Marked(types, levels) && Marked(orig, levels)
            && forall k :: 0 <= k < |orig| && levels[k] != NO_LEVEL ==> base <= levels[k] <= MAX_DEPTH
  {
    var types, levels := ExplicitClasses(orig, base), ExplicitLevelsOf(orig, base);
    forall k | 0 <= k < |orig|
      ensures levels[k] == NO_LEVEL <==> IsRemovedClass(types[k])
      ensures levels[k] == NO_LEVEL <==> IsRemovedClass(orig[k])
      ensures levels[k] != NO_LEVEL ==> base <= levels[k] <= MAX_DEPTH
    {
      ExplicitLevelBounds(orig, base, MAX_DEPTH, k);
    }
  }

  function TextRuns(types: Classes, levels: seq<Level>, base: Level): seq<Run>
    requires |types| == |levels|
  {
    WithSorEor(base, RunsFrom(types, levels, 0))
  }

  lemma TextRunsAre(types: Classes, levels: seq<Level>, base: Level)
    requires |types| == |levels|
    ensures AreLevelRuns(types, levels, 0, TextRuns(types, levels, base))
    ensures InText(types, levels, TextRuns(types, levels, base))
  {
    var plain, runs := RunsFrom(types, levels, 0), TextRuns(types, levels, base);
    RunsAreLevelRuns(types, levels, 0);
    forall k | 0 <= k < |runs| ensures RunAt(types, levels, 0, runs, k) {
      assert RunAt(types, levels, 0, plain, k);
    }
    LevelRunsInText(types, levels, runs);
  }

  /** The isolating run sequences of a text, with their positions, sos and eos. */
  function TextSequences(types: Classes, levels: seq<Level>, base: Level): (r: seq<IsolatingRunSequence>)
    requires |types| == |levels|
  {
    TextRunsAre(types, levels, base);
    var runs := TextRuns(types, levels, base);
    var chains := Chains(types, levels, runs, {}, 0);
    SequencesCoverText(types, levels, runs);
    ChainsPartition(types, levels, runs, {}, 0);
    seq(|chains|, c requires 0 <= c < |chains| =>
      assert ChainAt(runs, {}, 0, chains, c);
      SequenceOf(types, base, runs, chains[c]))
  }

  lemma SequencesOk(types: Classes, levels: seq<Level>, base: Level)
    requires |types| == |levels|
    ensures var chains := TextSequences(types, levels, base);
            && ChainsOk(chains, |types|)
            && forall c :: 0 <= c < |chains| ==> IndicesAt(levels, chains[c].indices, chains[c].level)
  {
    TextRunsAre(types, levels, base);
    var runs := TextRuns(types, levels, base);
    var lists := Chains(types, levels, runs, {}, 0);
    SequencesCoverText(types, levels, runs);
    ChainsPartition(types, levels, runs, {}, 0);
    var chains := TextSequences(types, levels, base);
    forall c | 0 <= c < |chains|
      ensures ChainOk(chains, |types|, c)
      ensures IndicesAt(levels, chains[c].indices, chains[c].level)
    {
      assert ChainAt(runs, {}, 0, lists, c);
      IndicesAscend(types, levels, runs, lists[c], chains[c].level);
      forall d, p | c < d < |chains| && p in chains[d].indices ensures p !in chains[c].indices {
        assert IndexLists(runs, lists)[c] == chains[c].indices && IndexLists(runs, lists)[d] == chains[d].indices;
      }
    }
  }

  lemma SequencesHoldAll(types: Classes, levels: seq<Level>, base: Level)
    requires Marked(types, levels)
    ensures HoldAll(types, TextSequences(types, levels, base))
  {
    TextRunsAre(types, levels, base);
    var runs := TextRuns(types, levels, base);
    var lists := Chains(types, levels, runs, {}, 0);
    SequencesCoverText(types, levels, runs);
    var chains := TextSequences(types, levels, base);
    forall p | 0 <= p < |types| && !IsRemovedClass(types[p])
      ensures exists c :: 0 <= c < |chains| && p in chains[c].indices
    {
      var all := IndexLists(runs, lists);
      assert Owned(all, p);
      var c :| 0 <= c < |all| && p in all[c];
      assert chains[c].indices == all[c];
    }
  }

  /** Every sequence is fit for the rules: its positions ascend and are its own, it has one
      level throughout, sos and eos are L or R, and no character is left out. */
  lemma SequencesAreFit(types: Classes, levels: seq<Level>, base: Level)
    requires Marked(types, levels)
    ensures var chains := TextSequences(types, levels, base);
            && ChainsOk(chains, |types|) && HoldAll(types, chains)
            && forall c :: 0 <= c < |chains| ==> IndicesAt(levels, chains[c].indices, chains[c].level)
  {
    SequencesOk(types, levels, base);
    SequencesHoldAll(types, levels, base);
  }

  /** The paragraph as BD13 looks at it, after the source's own X1 to X9. */
  function AfterX9(orig: Classes, base: Level): Paragraph
    requires Processed(orig, base)
  {
    var types, levels := ExplicitClasses(orig, base), ExplicitLevelsOf(orig, base);
    Paragraph(orig, base, MAX_DEPTH, types, levels, TextRuns(types, levels, base))
  }

  /** The runs of each sequence. */
  function RunLists(types: Classes, levels: seq<Level>, base: Level): (r: seq<seq<nat>>)
    requires |types| == |levels|
  {
    var chains := TextSequences(types, levels, base);
    seq(|chains|, c requires 0 <= c < |chains| => chains[c].runs)
  }

  lemma RunListsAre(types: Classes, levels: seq<Level>, base: Level)
    requires |types| == |levels|
    ensures InText(types, levels, TextRuns(types, levels, base))
    ensures RunLists(types, levels, base) == Chains(types, levels, TextRuns(types, levels, base), {}, 0)
  {
    TextRunsAre(types, levels, base);
  }

  /** The sequences the code forms are those of BD13: for every paragraph that drops no push,
      overflows no isolate and has a paragraph separator only at its end. */
  lemma SourceSequencesAreBD13(orig: Classes, base: Level)
    requires 0 <= base <= 1 && FitsSourceStack(orig, base) && Processed(orig, base)
    requires forall k :: 0 <= k <= |orig| ==> StateAt(orig, base, MAX_DEPTH, k).value.overflowIsolate == 0
    requires forall k :: 0 <= k < |orig| - 1 ==> !orig[k].B?
    ensures var p := AfterX9(orig, base);
            WellNested(p) && AllFollowBD13(p, RunLists(p.types, p.levels, base))
  {
    var p := AfterX9(orig, base);
    TextRunsAre(p.types, p.levels, base);
    forall k | 0 <= k < |orig| ensures ResolvedAt(p, k) {
      assert StateAt(orig, base, MAX_DEPTH, k + 1).Some?;
    }
    assert WellNested(p);
    SequencesAreBD13(p);
    RunListsAre(p.types, p.levels, base);
  }

  /** The classes after all rules up to N2. */
  ghost function ResolvedClasses(orig: Classes, base: Level, chars: seq<char>, table: BracketTable): (r: Classes)
    requires Processed(orig, base) && (chars == [] || |chars| == |orig|)
    ensures |r| == |orig|
  {
    var types, levels := ExplicitClasses(orig, base), ExplicitLevelsOf(orig, base);
    ExplicitMarked(orig, base);
    SequencesAreFit(types, levels, base);
    FinalClasses(orig, chars, table, types, TextSequences(types, levels, base))
  }

  /** The levels after I1 and I2. */
  ghost function ResolvedLevels(orig: Classes, base: Level, chars: seq<char>, table: BracketTable): (r: seq<Level>)
    requires Processed(orig, base) && (chars == [] || |chars| == |orig|)
    ensures |r| == |orig|
  {
    var levels, classes := ExplicitLevelsOf(orig, base), ResolvedClasses(orig, base, chars, table);
    seq(|orig|, k requires 0 <= k < |orig| => ImplicitLevel(levels[k], classes[k]))
  }

  lemma ClassResolved(orig: Classes, base: Level, chars: seq<char>, table: BracketTable, p: nat)
    requires Processed(orig, base) && (chars == [] || |chars| == |orig|) && p < |orig|
    ensures var bc := ResolvedClasses(orig, base, chars, table)[p];
            if IsRemovedClass(orig[p]) then bc == orig[p] else IsResolved(bc)
  {
    var types, levels := ExplicitClasses(orig, base), ExplicitLevelsOf(orig, base);
    ExplicitMarked(orig, base);
    SequencesAreFit(types, levels, base);
    AllResolved(orig, chars, table, types, TextSequences(types, levels, base), p);
    assert IsRemovedClass(orig[p]) ==> types[p] == orig[p];
    assert IsRemovedClass(orig[p]) <==> levels[p] == NO_LEVEL;
  }

  /** The promise of the whole algorithm for every character: removed ones carry NO_LEVEL,
      every other one ends as L, R, EN or AN at a level between the paragraph level and 126
      that is odd exactly for R. */
  lemma ParagraphResolved(orig: Classes, base: Level, chars: seq<char>, table: BracketTable, p: nat)
    requires Processed(orig, base) && (chars == [] || |chars| == |orig|) && p < |orig|
    ensures var bc, level := ResolvedClasses(orig, base, chars, table)[p], ResolvedLevels(orig, base, chars, table)[p];
            if IsRemovedClass(orig[p]) then bc == orig[p] && level == NO_LEVEL
            else IsResolved(bc) && base <= level <= MAX_DEPTH + 1 && (IsOdd(level) <==> bc.R?)
  {
    ClassResolved(orig, base, chars, table, p);
    ExplicitMarked(orig, base);
    var level := ExplicitLevelsOf(orig, base)[p];
    assert level == NO_LEVEL <==> IsRemovedClass(orig[p]);
    if level != NO_LEVEL {
      ImplicitLevelIs(level, ResolvedClasses(orig, base, chars, table)[p]);
    }
  }
}
