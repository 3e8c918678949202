/** Paragraphs with lines on which L2 and the runs in display order go wrong. */
module LineFailures {
  import opened Wrappers
  import opened BidiTypes
  import opened LevelStacks
  import opened ExplicitLevels
  import opened IsolateNesting
  import opened LevelRuns
  import opened IsolatingRuns
  import opened WeakRules
  import opened BracketRules
  import opened TextChains
  import opened Pipeline
  import opened ParagraphSpec
  import opened LineOrder
  import opened LineLevels
  import opened ReorderedRuns

  // ----- classes that no rule changes -----

  predicate IsSettled(bc: BidiClass) {
    bc.L? || bc.AN? || IsRemovedClass(bc)
  }

  predicate AllSettled(v: Classes) {
    forall k :: 0 <= k < |v| ==> IsSettled(v[k])
  }

  lemma {:induction false} SettledPasses(passes: seq<Pass>, chain: IsolatingRunSequence, v: Classes, n: nat)
    requires n <= |passes| && AllSettled(v)
    ensures RewriteAll(passes, chain, v, n) == v
    decreases n
  {
    if n > 0 {
      SettledPasses(passes, chain, v, n - 1);
      assert Rewrite(passes[n - 1], chain, v) == v;
    }
  }

  lemma SettledText(passes: seq<Pass>, types: Classes, chains: seq<IsolatingRunSequence>, n: nat)
    requires ChainsOk(chains, |types|) && n <= |passes| && AllSettled(types)
    ensures RunPasses(passes, types, chains, n) == types
  {
    var r := RunPasses(passes, types, chains, n);
    forall p | 0 <= p < |types| ensures r[p] == types[p] {
      if c :| 0 <= c < |chains| && p in chains[c].indices {
        PassesView(passes, types, chains, n, c);
        SettledPasses(passes, chains[c], View(types, chains[c].indices), n);
        var k :| 0 <= k < |chains[c].indices| && chains[c].indices[k] == p;
        assert View(r, chains[c].indices)[k] == View(types, chains[c].indices)[k];
      } else {
        PassesFrame(passes, types, chains, n, p);
      }
    }
  }

  /** A paragraph whose classes are settled after X9 keeps them. */
  lemma SettledParagraph(orig: Classes, base: Level, table: BracketTable)
    requires Processed(orig, base) && AllSettled(ExplicitClasses(orig, base))
    ensures ResolvedClasses(orig, base, [], table) == ExplicitClasses(orig, base)
  {
    var types, levels := ExplicitClasses(orig, base), ExplicitLevelsOf(orig, base);
    var chains := TextSequences(types, levels, base);
    SequencesOk(types, levels, base);
    SettledText(WEAK_PASSES, types, chains, 7);
    SettledText(NEUTRAL_PASSES, types, chains, 2);
  }

  // ----- two numbers at the highest level -----

  /** n nested embeddings and two Arabic numbers. */
  function Tower(n: nat): (types: Classes)
    ensures |types| == n + 2
  {
    Staircase(n) + [AN, AN]
  }

  function TowerLevels(n: nat, top: Level): (levels: seq<Level>)
    ensures |levels| == n + 2
  {
    seq(n + 2, k => if k < n then NO_LEVEL else top)
  }

  lemma NumberSteps(s: State, odd: bool, n: nat)
    requires OnStair(s, n)
    ensures Step(s, AN, odd, MAX_DEPTH) == Some(s)
  {
  }

  lemma TowerStates(n: nat)
    requires n < MAX_DEPTH
    ensures Processed(Tower(n), 0)
    ensures forall k :: n <= k <= n + 2 ==> OnStair(StateAt(Tower(n), 0, MAX_DEPTH, k).value, n)
  {
    var types, next, last := Tower(n), n + 1, n + 2;
    StaircaseStates([AN, AN], n, n);
    TowerNext(n, n, next);
    TowerNext(n, next, last);
    CompletesIsProcessed(types, 0);
  }

  lemma TowerNext(n: nat, k: nat, next: nat)
    requires n <= k < n + 2 && next == k + 1
    requires var r := StateAt(Tower(n), 0, MAX_DEPTH, k); r.Some? && OnStair(r.value, n)
    ensures var r := StateAt(Tower(n), 0, MAX_DEPTH, next); r.Some? && OnStair(r.value, n)
  {
    var types := Tower(n);
    assert types[k] == AN;
    NumberSteps(StateAt(types, 0, MAX_DEPTH, k).value, OpensOdd(types, k), n);
  }

  lemma TowerExplicit(n: nat)
    requires n < MAX_DEPTH
    ensures Processed(Tower(n), 0)
    ensures ExplicitClasses(Tower(n), 0) == Tower(n) && ExplicitLevelsOf(Tower(n), 0) == TowerLevels(n, n)
  {
    TowerStates(n);
    var types := Tower(n);
    forall k | 0 <= k < n + 2
      ensures ExplicitClass(types, 0, MAX_DEPTH, k) == types[k]
      ensures ExplicitLevel(types, 0, MAX_DEPTH, k) == TowerLevels(n, n)[k]
    {
      if k < n {
        assert types[k] == if k % 2 == 0 then RLE else LRE;
      } else {
        assert types[k] == AN && OnStair(StateAt(types, 0, MAX_DEPTH, k).value, n);
      }
    }
  }

  lemma TowerSettled(n: nat)
    ensures AllSettled(Tower(n))
  {
    forall k | 0 <= k < n + 2 ensures IsSettled(Tower(n)[k]) {
    }
  }

  lemma TowerImplicit(n: nat, k: nat)
    requires n % 2 == 0 && k < n + 2
    ensures ImplicitLevel(TowerLevels(n, n)[k], Tower(n)[k]) == TowerLevels(n, n + 2)[k]
  {
  }

  /** I1 raises both numbers by two. */
  lemma TowerResolved(n: nat, table: BracketTable)
    requires n < MAX_DEPTH && n % 2 == 0
    ensures Processed(Tower(n), 0)
    ensures ResolvedLevels(Tower(n), 0, [], table) == TowerLevels(n, n + 2)
  {
    TowerExplicit(n);
    TowerSettled(n);
    SettledParagraph(Tower(n), 0, table);
    var levels := ResolvedLevels(Tower(n), 0, [], table);
    forall k | 0 <= k < n + 2 ensures levels[k] == TowerLevels(n, n + 2)[k] {
      TowerImplicit(n, k);
    }
  }

  lemma TowerLine(n: nat)
    ensures L1(Tower(n), TowerLevels(n, n + 2), 0, 0, n + 2) == TowerLevels(n, n + 2)
  {
    forall k | 0 <= k < n + 2 ensures !IsSeparator(Tower(n)[k]) && !IsTrailing(Tower(n)[k]) {
    }
  }

  /** No order the code may choose for two neighbours of level 126 alone is that of L2. */
  lemma TowerOrder(n: nat, line: seq<Level>, order: seq<int>)
    requires n == MAX_DEPTH - 1 && line == TowerLevels(n, n + 2) && FollowsReversals(line, LowestOdd(line), 0, order)
    ensures !InClosedForm(line, 0, order)
  {
    assert line[n] == line[n + 1] == MAX_DEPTH + 1 && HasAdjacentTop(line);
    forall k | 0 <= k < n + 2 ensures !IsOdd(line[k]) && NO_LEVEL <= line[k] <= MAX_DEPTH + 1 {
    }
    ClosedFormExact(line, 0, order);
  }

  /** A paragraph on whose only line no result of the code is that of L2. */
  lemma TopReversed(n: nat, table: BracketTable, order: seq<int>)
    requires n == 124
    ensures Processed(Tower(n), 0)
    ensures var line := L1(Tower(n), ResolvedLevels(Tower(n), 0, [], table), 0, 0, n + 2);
            && |line| == n + 2 && line[n] == line[n + 1] == 126
            && (FollowsReversals(line, LowestOdd(line), 0, order) ==> !InClosedForm(line, 0, order))
  {
    TowerResolved(n, table);
    TowerLine(n);
    var line := TowerLevels(n, n + 2);
    if FollowsReversals(line, LowestOdd(line), 0, order) {
      TowerOrder(n, line, order);
    }
  }

  // ----- a line that does not start the paragraph -----

  const TWO_L: Classes := [L, L]

  lemma TwoStates()
    ensures Processed(TWO_L, 0)
    ensures ExplicitClasses(TWO_L, 0) == TWO_L && ExplicitLevelsOf(TWO_L, 0) == [0, 0]
  {
    var s := Initial(0);
    assert s.Top() == Entry(0, Neutral, false);
    assert StateAt(TWO_L, 0, MAX_DEPTH, 0) == Some(s);
    assert StateAt(TWO_L, 0, MAX_DEPTH, 1) == Some(s);
    assert StateAt(TWO_L, 0, MAX_DEPTH, 2) == Some(s);
  }

  /** The second of two letters as a line of its own: whatever the display order, the lookup of
      its level is out of bounds. */
  lemma SecondLineFails(table: BracketTable, order: seq<int>)
    ensures Processed(TWO_L, 0)
    ensures var line := L1(TWO_L, ResolvedLevels(TWO_L, 0, [], table), 0, 1, 2);
            line == [0] && (IsDisplayOrder(line, 1, order) ==> order == [1] && !InLine(line, order))
  {
    TwoStates();
    SettledParagraph(TWO_L, 0, table);
    var line := L1(TWO_L, ResolvedLevels(TWO_L, 0, [], table), 0, 1, 2);
    assert !IsSeparator(TWO_L[1]) && !IsTrailing(TWO_L[1]);
    assert line == [0];
    if IsDisplayOrder(line, 1, order) {
      assert Shown(line, 0) && Occurs(order, 1);
      forall p | 0 <= p < |order| ensures order[p] == 1 {
        assert ItemAt(line, 1, order, p);
      }
      assert |order| > 1 ==> ApartAt(order, 0, 1);
    }
  }
}
