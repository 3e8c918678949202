/** The whole resolution of a paragraph, sequence by sequence and character by character, with the
    rules as RuleStatements and BracketStatements word them. */
module ResolutionStatements {
  import opened Wrappers
  import opened BidiTypes
  import opened ExplicitLevels
  import opened ParagraphLevels
  import opened IsolatingRuns
  import opened LevelRuns
  import opened WeakRules
  import opened NeutralRules
  import opened Brackets
  import opened BracketRules
  import opened TextChains
  import opened Pipeline
  import opened ParagraphSpec
  import opened ChainOutcomes
  import opened RuleStatements
  import opened BracketStatements
  import opened LineLevels

  // ----- the paragraph level -----

  /** The level a direction hint gives: fixed, or that of the first strong character outside isolates
      and the fallback of the hint if there is none. */
  lemma HintStates(types: Classes, hint: ParagraphDirectionHint)
    ensures hint == LeftToRight ==> HintLevel(types, hint) == 0
    ensures hint == RightToLeft ==> HintLevel(types, hint) == 1
    ensures hint == AutoLeftToRight || hint == AutoRightToLeft ==>
              forall p: nat :: DecidesFirst(types, p) ==> HintLevel(types, hint) == if types[p].L? then 0 else 1
    ensures hint == AutoLeftToRight && (forall p: nat :: !Decides(types, p)) ==> HintLevel(types, hint) == 0
    ensures hint == AutoRightToLeft && (forall p: nat :: !Decides(types, p)) ==> HintLevel(types, hint) == 1
  {
    ParagraphLevelIsP2(types, LTR);
    ParagraphLevelIsP2(types, RTL);
  }

  // ----- one sequence -----

  /** W1 to W7 on what a sequence shows. */
  ghost function Weak(s: IsolatingRunSequence, v: Classes): (r: Classes)
    ensures |r| == |v|
  {
    W7(W6(W5(W4(W3(W2(W1(v, s.sos), s.sos))))), s.sos)
  }

  /** An opening bracket of the sequence finds 63 others waiting. */
  ghost predicate Overflows(s: IsolatingRunSequence, types: Classes, chars: seq<char>, table: BracketTable)
    requires InRange(s.indices, |types|) && |chars| == |types|
  {
    exists k: nat :: FindsFull(Weak(s, View(types, s.indices)), View(chars, s.indices), table, k)
  }

  /** The positions of a sequence whose characters are nonspacing marks in the text itself. */
  predicate AreMarks(orig: Classes, s: IsolatingRunSequence, nsm: seq<bool>)
    requires InRange(s.indices, |orig|)
  {
    |nsm| == |s.indices| && forall k :: 0 <= k < |nsm| ==> (nsm[k] <==> orig[s.indices[k]].NSM?)
  }

  /** N0 makes r of what W1 to W7 left: by BD16 and the turns of its pairs. */
  ghost predicate BracketsResolved(orig: Classes, s: IsolatingRunSequence, chars: seq<char>, table: BracketTable, v: Classes, r: Classes)
    requires InRange(s.indices, |orig|) && |chars| == |orig| && |v| == |s.indices|
  {
    exists nsm, pairs, ws ::
      && AreMarks(orig, s, nsm) && PairsIn(pairs, |v|)
      && SortedByOpening(pairs) && AllApart(pairs)
      && (forall o: nat, c: nat :: Pair(o, c) in pairs <==> IsPair(v, View(chars, s.indices), table, pairs, o, c))
      && N0Run(v, r, nsm, pairs, s.level, s.sos, ws)
  }

  lemma OwnOverflows(t: BracketText, types: Classes, c: nat)
    requires Fit(t) && c < |t.chains| && |types| == |t.types| && InRange(t.chains[c].indices, |types|)
    requires Shown(t, c) == Weak(t.chains[c], View(types, t.chains[c].indices))
    ensures OwnN0(t, c).None? <==> Overflows(t.chains[c], types, t.chars, t.table)
  {
    var s := t.chains[c];
    OverflowStates(Shown(t, c), OriginalMarks(t.orig, s.indices), View(t.chars, s.indices), t.table, s.level, s.sos);
  }

  lemma OwnResolved(t: BracketText, c: nat)
    requires Fit(t) && c < |t.chains| && OwnN0(t, c).Some? && 0 <= t.chains[c].level
    ensures InRange(t.chains[c].indices, |t.orig|)
    ensures BracketsResolved(t.orig, t.chains[c], t.chars, t.table, Shown(t, c), OwnN0(t, c).value)
  {
    assert ChainOk(t.chains, |t.types|, c);
    var s, v := t.chains[c], Shown(t, c);
    var nsm, chars := OriginalMarks(t.orig, s.indices), View(t.chars, s.indices);
    N0States(v, nsm, chars, t.table, s.level, s.sos);
    PairsAreBracketPairs(v, chars, t.table);
    var pairs := SortedPairs(v, chars, t.table);
    assert AreMarks(t.orig, s, nsm);
    assert N0Run(v, OwnN0(t, c).value, nsm, pairs, s.level, s.sos, Turns(v, nsm, pairs, s.level, s.sos));
  }

  lemma WeakShown(orig: Classes, chars: seq<char>, table: BracketTable, types: Classes, chains: seq<IsolatingRunSequence>, c: nat)
    requires ChainsOk(chains, |types|) && |orig| == |chars| == |types| && c < |chains|
    ensures InRange(chains[c].indices, |types|)
    ensures Shown(BeforeN0(orig, chars, table, types, chains), c) == Weak(chains[c], View(types, chains[c].indices))
  {
    ShownIsWeak(orig, chars, table, types, chains, c);
    RulesInOrder(chains[c], View(types, chains[c].indices));
  }

  /** One of the sequences up to c overflows. */
  ghost predicate OverflowUpTo(chains: seq<IsolatingRunSequence>, types: Classes, chars: seq<char>, table: BracketTable, c: nat)
    requires ChainsOk(chains, |types|) && |chars| == |types| && c < |chains|
  {
    exists d: nat :: d <= c && (assert ChainOk(chains, |types|, d); Overflows(chains[d], types, chars, table))
  }

  lemma OverflowsUpTo(orig: Classes, chars: seq<char>, table: BracketTable, types: Classes, chains: seq<IsolatingRunSequence>, c: nat)
    requires ChainsOk(chains, |types|) && |orig| == |chars| == |types| && c < |chains|
    ensures OverflowIn(BeforeN0(orig, chars, table, types, chains), c + 1) <==> OverflowUpTo(chains, types, chars, table, c)
  {
    var t := BeforeN0(orig, chars, table, types, chains);
    forall d: nat | d <= c
      ensures InRange(chains[d].indices, |types|)
      ensures OwnN0(t, d).None? <==> Overflows(chains[d], types, chars, table)
    {
      WeakShown(orig, chars, table, types, chains, d);
      OwnOverflows(t, types, d);
    }
    if OverflowIn(t, c + 1) {
      var d: nat :| d < c + 1 && OwnN0(t, d).None?;
      assert d <= c && Overflows(chains[d], types, chars, table);
    }
  }

  /** What all rules together make of a sequence: N2 of N1 of what N0, unless an overflow has ended it,
      makes of W7 to W1 of the classes after X9. */
  lemma SequenceResolved(orig: Classes, chars: seq<char>, table: BracketTable, types: Classes,
                         chains: seq<IsolatingRunSequence>, c: nat) returns (r: Classes)
    requires ChainsOk(chains, |types|) && |orig| == |chars| == |types| && chars != [] && c < |chains| && 0 <= chains[c].level
    ensures InRange(chains[c].indices, |types|)
    ensures var s := chains[c];
            var weak := Weak(s, View(types, s.indices));
            && |r| == |weak|
            && (if OverflowUpTo(chains, types, chars, table, c) then r == weak
                else BracketsResolved(orig, s, chars, table, weak, r))
            && View(FinalClasses(orig, chars, table, types, chains), s.indices) == N2(N1(r, s.sos, s.eos), s.level)
  {
    var t := BeforeN0(orig, chars, table, types, chains);
    WeakShown(orig, chars, table, types, chains, c);
    OverflowsUpTo(orig, chars, table, types, chains, c);
    FinalOfChain(orig, chars, table, types, chains, c);
    if OverflowIn(t, c + 1) {
      r := Shown(t, c);
    } else {
      assert c < c + 1;
      r := OwnN0(t, c).value;
      OwnResolved(t, c);
    }
    RulesInOrder(chains[c], r);
  }

  /** The same when there are only classes. */
  lemma ClassesResolved(orig: Classes, table: BracketTable, types: Classes, chains: seq<IsolatingRunSequence>, c: nat)
    requires ChainsOk(chains, |types|) && |orig| == |types| && c < |chains|
    ensures InRange(chains[c].indices, |types|)
    ensures var s := chains[c];
            View(FinalClasses(orig, [], table, types, chains), s.indices)
            == N2(N1(Weak(s, View(types, s.indices)), s.sos, s.eos), s.level)
  {
    assert ChainOk(chains, |types|, c);
    var s := chains[c];
    PassesView(WEAK_PASSES, types, chains, 7, c);
    PassesView(NEUTRAL_PASSES, RunPasses(WEAK_PASSES, types, chains, 7), chains, 2, c);
    RulesInOrder(s, View(types, s.indices));
    RulesInOrder(s, Weak(s, View(types, s.indices)));
  }

  // ----- the levels -----

  /** From `from` on, the least level a character of class bc may have. */
  predicate LeastLevel(level: Level, from: Level, bc: BidiClass) {
    || (bc.R? && LeastOfParity(level, from, true))
    || (bc.L? && LeastOfParity(level, from, false))
    || ((bc.EN? || bc.AN?) && LeastOfParity(level, from + 1, false))
  }

  lemma ImplicitIsLeast(from: Level, bc: BidiClass)
    requires 0 <= from && IsResolved(bc)
    ensures LeastLevel(ImplicitLevel(from, bc), from, bc)
  {
    ImplicitStates(from, bc);
  }

  lemma ExplicitLevelKnown(orig: Classes, base: Level, p: nat)
    requires Processed(orig, base) && p < |orig|
    ensures var from := ExplicitLevelsOf(orig, base)[p]; if Deleted(orig[p]) then from == -1 else 0 <= from
    ensures Deleted(orig[p]) <==> IsRemovedClass(orig[p])
  {
    ExplicitMarked(orig, base);
    var from := ExplicitLevelsOf(orig, base)[p];
    assert from == NO_LEVEL <==> IsRemovedClass(orig[p]);
  }

  /** I1 and I2 for a paragraph: from its explicit level on every character has the least level its
      class may have. */
  lemma LevelResolved(orig: Classes, base: Level, chars: seq<char>, table: BracketTable, p: nat)
    requires Processed(orig, base) && (chars == [] || |chars| == |orig|) && p < |orig|
    ensures var level := ResolvedLevels(orig, base, chars, table)[p];
            if Deleted(orig[p]) then level == -1
            else LeastLevel(level, ExplicitLevelsOf(orig, base)[p], ResolvedClasses(orig, base, chars, table)[p])
  {
    var from, bc := ExplicitLevelsOf(orig, base)[p], ResolvedClasses(orig, base, chars, table)[p];
    ClassResolved(orig, base, chars, table, p);
    ExplicitLevelKnown(orig, base, p);
    if 0 <= from {
      ImplicitIsLeast(from, bc);
    }
  }

  // ----- L1 -----

  /** Whitespace, isolate formatting characters and characters without a level. */
  predicate Blank(orig: Classes, levels: seq<Level>, r: nat)
    requires r < |orig| == |levels|
  {
    levels[r] == -1 || MayTrail(orig[r])
  }

  predicate Separates(bc: BidiClass) {
    bc.S? || bc.B?
  }

  predicate MayTrail(bc: BidiClass) {
    match bc
    case WS | FSI | LRI | RLI | PDI => true
    case _ => false
  }

  /** Nothing but blanks stands behind p up to q, a separator or the end of the line. */
  predicate BlankUpTo(orig: Classes, levels: seq<Level>, end: nat, p: nat, q: nat)
    requires |orig| == |levels|
  {
    p < q <= end <= |orig| && (q == end || Separates(orig[q])) && forall r :: p < r < q ==> Blank(orig, levels, r)
  }

  lemma TrailsIsBlank(orig: Classes, levels: seq<Level>, p: nat, q: nat)
    requires |orig| == |levels| && p < q <= |orig| && MayTrail(orig[p])
    ensures TrailsTo(orig, levels, p, q) <==> forall r :: p < r < q ==> Blank(orig, levels, r)
  {
    assert forall r :: p < r < q ==> (Blank(orig, levels, r) <==> IsTrailing(orig[r]) || levels[r] == NO_LEVEL);
  }

  /** L1: a character of a line gets the paragraph level exactly if it is a separator, or whitespace or
      an isolate formatting character with nothing but blanks up to a separator or the end of the line;
      any other keeps its level. */
  lemma L1States(orig: Classes, levels: seq<Level>, base: Level, start: nat, end: nat, k: nat)
    requires |orig| == |levels| && start <= end <= |orig| && k < end - start
    ensures var p := start + k;
            L1(orig, levels, base, start, end)[k]
            == if Separates(orig[p]) || (MayTrail(orig[p]) && exists q: nat :: BlankUpTo(orig, levels, end, p, q))
               then base else levels[p]
  {
    var p := start + k;
    if MayTrail(orig[p]) {
      forall q: nat | p < q <= end
        ensures TrailsTo(orig, levels, p, q) && (q == end || IsSeparator(orig[q])) <==> BlankUpTo(orig, levels, end, p, q)
      {
        TrailsIsBlank(orig, levels, p, q);
      }
      if ResetByL1(orig, levels, end, p) && !TrailsTo(orig, levels, p, end) {
        var q :| p < q < end && IsSeparator(orig[q]) && TrailsTo(orig, levels, p, q);
        assert BlankUpTo(orig, levels, end, p, q);
      }
    }
  }
}
