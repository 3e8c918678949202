/** A paragraph on which an overflow of the bracket stack changes a sequence it has nothing to do
    with: 64 opening brackets, then an isolate with a bracket pair of its own. */
module BracketOverflow {
  import opened Wrappers
  import opened BidiTypes
  import opened LevelStacks
  import opened ExplicitLevels
  import opened IsolateNesting
  import opened LevelRuns
  import opened IsolatingRuns
  import opened WeakRules
  import opened NeutralRules
  import opened Brackets
  import opened BracketRules
  import opened TextChains
  import opened Pipeline
  import opened ParagraphSpec
  import opened ChainOutcomes

  const BRACKETS: BracketTable := map['(' := (')', Open), ')' := ('(', Close)]

  /** n opening brackets, RLI, the letters and brackets a ( a ), a Hebrew letter and PDI. */
  function ClassAt(n: nat, k: nat): BidiClass {
    if k < n then ON
    else if k == n then RLI
    else if k == n + 1 || k == n + 3 then L
    else if k == n + 2 || k == n + 4 then ON
    else if k == n + 5 then R
    else PDI
  }

  function CharAt(n: nat, k: nat): char {
    if k < n || k == n + 2 then '(' else if k == n + 4 then ')' else 'a'
  }

  function Text(n: nat): (t: Classes)
    ensures |t| == n + 7 && forall k :: 0 <= k < n + 7 ==> t[k] == ClassAt(n, k)
  {
    seq(n + 7, k requires 0 <= k => ClassAt(n, k))
  }

  function Letters(n: nat): (s: seq<char>)
    ensures |s| == n + 7 && forall k :: 0 <= k < n + 7 ==> s[k] == CharAt(n, k)
  {
    seq(n + 7, k requires 0 <= k => CharAt(n, k))
  }

  function TextLevels(n: nat): (s: seq<Level>)
    ensures |s| == n + 7 && forall k :: 0 <= k < n + 7 ==> s[k] == if n < k < n + 6 then 1 else 0
  {
    seq(n + 7, k => if n < k < n + 6 then 1 else 0)
  }

  // ----- X1 to X10 -----

  function Inner(): State {
    State([Entry(0, Neutral, false), Entry(1, Neutral, true)], 0, 0, 1)
  }

  function TextState(n: nat, k: nat): State {
    if n < k < n + 7 then Inner() else Initial(0)
  }

  lemma InnerSteps(bc: BidiClass, odd: bool)
    ensures Step(Initial(0), RLI, true, MAX_DEPTH) == Some(Inner())
    ensures Step(Inner(), PDI, odd, MAX_DEPTH) == Some(Initial(0))
    ensures bc.L? || bc.R? || bc.ON? ==>
      Step(Initial(0), bc, odd, MAX_DEPTH) == Some(Initial(0)) && Step(Inner(), bc, odd, MAX_DEPTH) == Some(Inner())
  {
    var stack := Inner().stack;
    assert Initial(0).Top() == Entry(0, Neutral, false) && Opens(Initial(0), true);
    assert LeastGreater(0, true) == Some(1);
    assert Initial(0).stack + [Entry(1, Neutral, true)] == stack;
    assert stack[..1] == Initial(0).stack;
    assert PopThroughIsolate(stack) == Some(stack[..1]);
  }

  lemma {:induction false} TextStates(n: nat, k: nat)
    requires k <= n + 7
    ensures StateAt(Text(n), 0, MAX_DEPTH, k) == Some(TextState(n, k))
    decreases k
  {
    if k > 0 {
      var j := k - 1;
      TextStates(n, j);
      InnerSteps(Text(n)[j], OpensOdd(Text(n), j));
    }
  }

  lemma TextExplicit(n: nat)
    ensures Processed(Text(n), 0)
    ensures ExplicitClasses(Text(n), 0) == Text(n) && ExplicitLevelsOf(Text(n), 0) == TextLevels(n)
  {
    forall k | 0 <= k <= n + 7 ensures StateAt(Text(n), 0, MAX_DEPTH, k) == Some(TextState(n, k)) {
      TextStates(n, k);
    }
    forall k | 0 <= k < n + 7
      ensures ExplicitClass(Text(n), 0, MAX_DEPTH, k) == Text(n)[k]
      ensures ExplicitLevel(Text(n), 0, MAX_DEPTH, k) == TextLevels(n)[k]
    {
      assert StateAt(Text(n), 0, MAX_DEPTH, k) == Some(TextState(n, k));
      assert StateAt(Text(n), 0, MAX_DEPTH, k + 1) == Some(TextState(n, k + 1));
    }
  }

  function PlainRuns(n: nat): seq<Run> {
    [Span(0, n + 1, 0), Span(n + 1, n + 6, 1), Span(n + 6, n + 7, 0)]
  }

  lemma PlainRunsAre(n: nat)
    ensures AreLevelRuns(Text(n), TextLevels(n), 0, PlainRuns(n))
  {
    var types, levels, runs := Text(n), TextLevels(n), PlainRuns(n);
    assert levels[0] == 0 && levels[n + 1] == 1 && levels[n + 6] == 0;
    assert RunAt(types, levels, 0, runs, 0);
    assert RunAt(types, levels, 0, runs, 1);
    assert RunAt(types, levels, 0, runs, 2);
  }

  predicate OurRuns(n: nat, runs: seq<Run>) {
    && |runs| == 3
    && runs[0].start == 0 && runs[0].end == n + 1 && runs[0].level == 0
    && runs[1].start == n + 1 && runs[1].end == n + 6 && runs[1].level == 1 && runs[1].sor == R && runs[1].eor == R
    && runs[2].start == n + 6 && runs[2].end == n + 7 && runs[2].level == 0
  }

  lemma RunsAre(n: nat)
    ensures OurRuns(n, TextRuns(Text(n), TextLevels(n), 0))
  {
    var types, levels := Text(n), TextLevels(n);
    PlainRunsAre(n);
    RunsAreLevelRuns(types, levels, 0);
    LevelRunsSame(types, levels, 0, PlainRuns(n), RunsFrom(types, levels, 0));
    assert ClassOfLevel(MaxLevel(0, 1)) == R;
  }

  lemma ChainsAre(n: nat, runs: seq<Run>)
    requires OurRuns(n, runs) && InText(Text(n), TextLevels(n), runs)
    ensures Chains(Text(n), TextLevels(n), runs, {}, 0) == [[0, 2], [1]]
  {
    var types, levels := Text(n), TextLevels(n);
    assert types[n] == RLI && types[n + 5] == R && types[n + 6] == PDI;
    assert FirstSignificant(types, levels, n + 6, n + 7) == Some(PDI);
    assert Follow(types, levels, runs, {}, 3, 0) == [];
    assert Follow(types, levels, runs, {}, 2, 0) == [2];
    assert Follow(types, levels, runs, {}, 1, 0) == [2];
    assert ChainFrom(types, levels, runs, {}, 0) == [0, 2];
    var taken := {} + Elements([0, 2]);
    assert ChainFrom(types, levels, runs, taken, 1) == [1];
    var both := taken + Elements([1]);
    assert 2 in [0, 2];
    assert Chains(types, levels, runs, both, 3) == [];
    assert Chains(types, levels, runs, both, 2) == [];
    assert Chains(types, levels, runs, taken, 1) == [[1]];
  }

  /** The outer sequence begins with the n brackets; the inner one is the isolate. */
  predicate OurChains(n: nat, chains: seq<IsolatingRunSequence>) {
    && |chains| == 2
    && |chains[0].indices| == n + 2 && (forall k :: 0 <= k <= n ==> chains[0].indices[k] == k)
    && chains[1].indices == [n + 1, n + 2, n + 3, n + 4, n + 5]
    && chains[1].level == 1 && chains[1].sos == R && chains[1].eos == R
  }

  lemma OuterIndices(n: nat, runs: seq<Run>)
    requires OurRuns(n, runs)
    ensures Indices(runs, [0, 2]) == Range(0, n + 1) + Range(n + 6, n + 7)
  {
    assert [0, 2][..1] == [0] && [0][..0] == [];
    assert Indices(runs, [0]) == [] + Range(0, n + 1);
  }

  lemma InnerIndices(n: nat, runs: seq<Run>)
    requires OurRuns(n, runs)
    ensures Indices(runs, [1]) == [n + 1, n + 2, n + 3, n + 4, n + 5]
  {
    assert [1][..0] == [];
    assert Indices(runs, [1]) == [] + Range(n + 1, n + 6);
  }

  lemma SequencesAre(n: nat)
    ensures OurChains(n, TextSequences(Text(n), TextLevels(n), 0))
  {
    var types, levels := Text(n), TextLevels(n);
    var runs := TextRuns(types, levels, 0);
    TextRunsAre(types, levels, 0);
    RunsAre(n);
    ChainsAre(n, runs);
    OuterIndices(n, runs);
    InnerIndices(n, runs);
    var inner := SequenceOf(types, 0, runs, [1]);
    assert !EndsInInitiator(types, runs[1]);
    var chains := TextSequences(types, levels, 0);
    assert |chains| == 2 && chains[0].indices == Indices(runs, [0, 2]) && chains[1] == inner;
  }

  // ----- W1 to W7 do nothing -----

  predicate IsIdle(bc: BidiClass) {
    bc.L? || bc.R? || bc.ON? || bc.RLI? || bc.PDI?
  }

  lemma {:induction false} WeakIdle(chain: IsolatingRunSequence, v: Classes, n: nat)
    requires n <= |WEAK_PASSES| && forall k :: 0 <= k < |v| ==> IsIdle(v[k])
    ensures RewriteAll(WEAK_PASSES, chain, v, n) == v
  {
    if n > 0 {
      WeakIdle(chain, v, n - 1);
    }
  }

  // ----- N0 -----

  /** More openers than the stack holds make the pairing overflow. */
  lemma {:induction false} ManyOpeners(marks: seq<Mark>, k: nat)
    requires k <= |marks| && forall j :: 0 <= j < k ==> marks[j].OpenMark?
    ensures if k <= MAX_PAIRING_DEPTH then Pairing(marks, k).Some? && |Pairing(marks, k).value.openers| == k
            else Pairing(marks, k).None?
    decreases k
  {
    if k > 0 {
      ManyOpeners(marks, k - 1);
    }
  }

  lemma OuterOverflows(n: nat, t: BracketText)
    requires n > MAX_PAIRING_DEPTH && Fit(t) && OurChains(n, t.chains)
    requires t.orig == t.types == Text(n) && t.chars == Letters(n) && t.table == BRACKETS
    ensures OwnN0(t, 0).None?
  {
    var v, chars := Shown(t, 0), View(t.chars, t.chains[0].indices);
    var marks := MarksOf(v, chars, BRACKETS);
    forall k | 0 <= k < n ensures marks[k].OpenMark? {
      assert v[k] == ClassAt(n, k) && chars[k] == CharAt(n, k);
    }
    ManyOpeners(marks, n);
    PairingStops(marks, n, |marks|);
  }

  const INNER: Classes := [L, ON, L, ON, R]

  lemma InnerPairing(marks: seq<Mark>)
    requires marks == [NoMark, OpenMark(')'), NoMark, CloseMark(')'), NoMark]
    ensures Pairing(marks, |marks|) == Some(PairState([], [Pair(1, 3)]))
  {
    var none: seq<Opener> := [];
    var one := [Opener(')', 1)];
    assert none + one == one && one[..0] == none;
    assert Seek(one, ')') == Some(0);
    assert Pairing(marks, 1) == Some(PairState(none, []));
    assert Pairing(marks, 2) == Some(PairState(one, []));
    assert Pairing(marks, 3) == Some(PairState(one, []));
    assert CloseBracket(PairState(one, []), ')', 3) == PairState(none, [Pair(1, 3)]);
    assert Pairing(marks, 4) == Some(PairState(none, [Pair(1, 3)]));
  }

  const ALL_L: Classes := [L, L, L, L, R]
  const NO_MARKS: seq<bool> := [false, false, false, false, false]

  /** The pair encloses an L and follows one. */
  lemma InnerDirection()
    ensures PairDirection(INNER, Pair(1, 3), RTL, R) == Some(LTR)
  {
    assert !Encloses(INNER, 1, 3, RTL);
    assert StrongDirection(INNER[2]) == Some(LTR);
    assert Encloses(INNER, 1, 3, LTR);
    assert PrevSide(INNER, 1, R) == L;
  }

  lemma InnerSet()
    ensures SetPair(INNER, NO_MARKS, Pair(1, 3), LTR) == ALL_L
  {
    assert INNER[1 := L][3 := L] == ALL_L;
    assert FixMarks(ALL_L, NO_MARKS, 2, 3, L) == ALL_L;
    assert FixMarks(ALL_L, NO_MARKS, 4, 5, L) == ALL_L;
  }

  lemma InnerN0()
    ensures N0(INNER, NO_MARKS, "a(a)a", BRACKETS, 1, R) == Some(ALL_L)
  {
    var marks := MarksOf(INNER, "a(a)a", BRACKETS);
    assert marks == [NoMark, OpenMark(')'), NoMark, CloseMark(')'), NoMark];
    InnerPairing(marks);
    var pairs := [Pair(1, 3)];
    assert SortByOpening(pairs) == pairs by {
      assert pairs[..0] == [];
    }
    InnerDirection();
    InnerSet();
    assert ResolvePairs(INNER, NO_MARKS, pairs, 0, RTL, R) == INNER;
    assert ResolvePairs(INNER, NO_MARKS, pairs, 1, RTL, R) == ALL_L;
  }

  lemma InnerNeutral(chain: IsolatingRunSequence)
    requires chain.level == 1 && chain.sos == R && chain.eos == R
    ensures NeutralPart(chain, INNER)[3] == R
    ensures NeutralPart(chain, ALL_L)[3] == L
  {
    forall v: Classes | v == INNER || v == ALL_L
      ensures NeutralPart(chain, v)[3] == if v[3] == L then L else R
    {
      assert RewriteAll(NEUTRAL_PASSES, chain, v, 0) == v;
      var w := N1(v, R, R);
      assert RewriteAll(NEUTRAL_PASSES, chain, v, 1) == w;
      assert NeutralPart(chain, v) == N2(w, 1);
      assert PrevSide(v, 3, R) == L && NextSide(v, 4, R) == R;
      assert w[3] == v[3];
    }
  }

  // ----- the whole paragraph -----

  lemma WeakKeepsText(n: nat, chains: seq<IsolatingRunSequence>)
    requires ChainsOk(chains, n + 7)
    ensures RunPasses(WEAK_PASSES, Text(n), chains, 7) == Text(n)
  {
    var types, weak := Text(n), RunPasses(WEAK_PASSES, Text(n), chains, 7);
    forall p | 0 <= p < n + 7 ensures weak[p] == types[p] {
      if c :| 0 <= c < |chains| && p in chains[c].indices {
        assert ChainOk(chains, n + 7, c);
        PassesView(WEAK_PASSES, types, chains, 7, c);
        WeakIdle(chains[c], View(types, chains[c].indices), 7);
        var k :| 0 <= k < |chains[c].indices| && chains[c].indices[k] == p;
        assert View(weak, chains[c].indices)[k] == View(types, chains[c].indices)[k];
      } else {
        PassesFrame(WEAK_PASSES, types, chains, 7, p);
      }
    }
  }

  /** The classes of the paragraph if an overflow concerned its own sequence only. */
  ghost function RuledClasses(orig: Classes, base: Level, chars: seq<char>, table: BracketTable): (r: Classes)
    requires Processed(orig, base) && |chars| == |orig|
    ensures |r| == |orig|
  {
    var types, levels := ExplicitClasses(orig, base), ExplicitLevelsOf(orig, base);
    SequencesOk(types, levels, base);
    RuleClasses(orig, chars, table, types, TextSequences(types, levels, base))
  }

  /** What N0 finds and does. */
  lemma InnerOutcome(n: nat, t: BracketText)
    requires n > MAX_PAIRING_DEPTH && Fit(t) && OurChains(n, t.chains)
    requires t.orig == t.types == Text(n) && t.chars == Letters(n) && t.table == BRACKETS
    ensures OverflowIn(t, 2) && Shown(t, 1) == INNER && OwnN0(t, 1) == Some(ALL_L)
  {
    OuterOverflows(n, t);
    assert 0 < 2 && OwnN0(t, 0).None?;
    var indices := t.chains[1].indices;
    assert Shown(t, 1) == INNER;
    assert OriginalMarks(t.orig, indices) == NO_MARKS;
    assert View(t.chars, indices) == "a(a)a";
    InnerN0();
  }

  lemma InnerView(n: nat, chains: seq<IsolatingRunSequence>, r: Classes)
    requires OurChains(n, chains) && |r| == n + 7
    ensures InRange(chains[1].indices, |r|) && View(r, chains[1].indices)[3] == r[n + 4]
  {
  }

  lemma InnerFinal(n: nat, chains: seq<IsolatingRunSequence>, t: BracketText)
    requires n > MAX_PAIRING_DEPTH && ChainsOk(chains, n + 7) && OurChains(n, chains)
    requires t == BeforeN0(Text(n), Letters(n), BRACKETS, Text(n), chains)
    requires OverflowIn(t, 2) && Shown(t, 1) == INNER
    ensures FinalClasses(Text(n), Letters(n), BRACKETS, Text(n), chains)[n + 4] == R
  {
    var r := FinalClasses(Text(n), Letters(n), BRACKETS, Text(n), chains);
    FinalOfChain(Text(n), Letters(n), BRACKETS, Text(n), chains, 1);
    InnerNeutral(chains[1]);
    InnerView(n, chains, r);
  }

  lemma InnerRuled(n: nat, chains: seq<IsolatingRunSequence>, t: BracketText)
    requires n > MAX_PAIRING_DEPTH && ChainsOk(chains, n + 7) && OurChains(n, chains)
    requires t == BeforeN0(Text(n), Letters(n), BRACKETS, Text(n), chains) && OwnN0(t, 1) == Some(ALL_L)
    ensures RuleClasses(Text(n), Letters(n), BRACKETS, Text(n), chains)[n + 4] == L
  {
    var r := RuleClasses(Text(n), Letters(n), BRACKETS, Text(n), chains);
    RuleOfChain(Text(n), Letters(n), BRACKETS, Text(n), chains, 1);
    InnerNeutral(chains[1]);
    InnerView(n, chains, r);
  }

  lemma InnerClasses(n: nat, chains: seq<IsolatingRunSequence>)
    requires n > MAX_PAIRING_DEPTH && ChainsOk(chains, n + 7) && OurChains(n, chains)
    ensures FinalClasses(Text(n), Letters(n), BRACKETS, Text(n), chains)[n + 4] == R
    ensures RuleClasses(Text(n), Letters(n), BRACKETS, Text(n), chains)[n + 4] == L
  {
    var t := BeforeN0(Text(n), Letters(n), BRACKETS, Text(n), chains);
    WeakKeepsText(n, chains);
    InnerOutcome(n, t);
    InnerFinal(n, chains, t);
    InnerRuled(n, chains, t);
  }

  /** For a paragraph the code does what the rule says if it abandons no sequence. */
  lemma NothingAbandoned(orig: Classes, base: Level, chars: seq<char>, table: BracketTable)
    requires Processed(orig, base) && |chars| == |orig| && chars != []
    requires var types, levels := ExplicitClasses(orig, base), ExplicitLevelsOf(orig, base);
             var chains := TextSequences(types, levels, base);
             ChainsOk(chains, |types|) && forall c: nat :: !Abandoned(BeforeN0(orig, chars, table, types, chains), c)
    ensures ResolvedClasses(orig, base, chars, table) == RuledClasses(orig, base, chars, table)
  {
    var types, levels := ExplicitClasses(orig, base), ExplicitLevelsOf(orig, base);
    OverflowExactly(BeforeN0(orig, chars, table, types, TextSequences(types, levels, base)));
  }

  lemma TextClasses(n: nat)
    requires Processed(Text(n), 0) && ExplicitClasses(Text(n), 0) == Text(n) && ExplicitLevelsOf(Text(n), 0) == TextLevels(n)
    ensures var chains := TextSequences(Text(n), TextLevels(n), 0);
            && ChainsOk(chains, n + 7)
            && ResolvedClasses(Text(n), 0, Letters(n), BRACKETS) == FinalClasses(Text(n), Letters(n), BRACKETS, Text(n), chains)
            && RuledClasses(Text(n), 0, Letters(n), BRACKETS) == RuleClasses(Text(n), Letters(n), BRACKETS, Text(n), chains)
  {
    SequencesOk(Text(n), TextLevels(n), 0);
  }

  /** With 64 or more brackets before the isolate the code gives its closing bracket R, and the
      rule gives it L. */
  lemma OverflowSpills(n: nat)
    requires n >= 64
    ensures Processed(Text(n), 0)
    ensures ResolvedClasses(Text(n), 0, Letters(n), BRACKETS)[n + 4] == R
    ensures RuledClasses(Text(n), 0, Letters(n), BRACKETS)[n + 4] == L
  {
    TextExplicit(n);
    TextClasses(n);
    SequencesAre(n);
    InnerClasses(n, TextSequences(Text(n), TextLevels(n), 0));
  }
}
