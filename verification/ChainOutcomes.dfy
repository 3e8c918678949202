/** What N0 does to every chain of a text, with and without an overflow of the pairing, and what
    the whole list of rules does to one chain. */
module ChainOutcomes {
  import opened Wrappers
  import opened BidiTypes
  import opened IsolatingRuns
  import opened WeakRules
  import opened Brackets
  import opened BracketRules
  import opened TextChains
  import opened Pipeline

  /** Everything N0 looks at: the original classes and the characters, the bracket table, the
      classes after W7 and the chains. */
  datatype BracketText = BracketText(
    orig: Classes, chars: seq<char>, table: BracketTable, types: Classes, chains: seq<IsolatingRunSequence>)

  ghost predicate Fit(t: BracketText) {
    ChainsOk(t.chains, |t.types|) && |t.orig| == |t.chars| == |t.types|
  }

  /** What chain c shows before N0. */
  ghost function Shown(t: BracketText, c: nat): (v: Classes)
    requires Fit(t) && c < |t.chains|
    ensures InRange(t.chains[c].indices, |t.types|)
  {
    assert ChainOk(t.chains, |t.types|, c);
    View(t.types, t.chains[c].indices)
  }

  /** N0 of chain c alone; None if its pairing overflows. */
  ghost function OwnN0(t: BracketText, c: nat): (r: Option<Classes>)
    requires Fit(t) && c < |t.chains|
    ensures r.Some? ==> |r.value| == |t.chains[c].indices|
  {
    var v := Shown(t, c);
    N0(v, OriginalMarks(t.orig, t.chains[c].indices), View(t.chars, t.chains[c].indices), t.table,
       t.chains[c].level, t.chains[c].sos)
  }

  /** One of the first k chains overflows. */
  ghost predicate OverflowIn(t: BracketText, k: nat)
    requires Fit(t) && k <= |t.chains|
  {
    exists d: nat :: d < k && OwnN0(t, d).None?
  }

  // ----- the code: the first overflow ends the rule -----

  ghost function CodeN0(t: BracketText, k: nat): (r: N0State)
    requires Fit(t) && k <= |t.chains|
    ensures |r.types| == |t.types|
  {
    RunN0(t.orig, t.chars, t.table, t.types, t.chains, k)
  }

  /** The state after k chains, seen from chain c. */
  ghost predicate CodeSees(t: BracketText, k: nat, s: N0State, c: nat)
    requires Fit(t) && k <= |t.chains| && c < |t.chains| && |s.types| == |t.types|
  {
    var indices := t.chains[c].indices;
    var shown := Shown(t, c);
    View(s.types, indices) == if c < k && !OverflowIn(t, c + 1) then OwnN0(t, c).value else shown
  }

  ghost predicate CodeState(t: BracketText, k: nat, s: N0State)
    requires Fit(t) && k <= |t.chains|
  {
    && |s.types| == |t.types|
    && (s.halted <==> OverflowIn(t, k))
    && forall c {:trigger CodeSees(t, k, s, c)} :: 0 <= c < |t.chains| ==> CodeSees(t, k, s, c)
  }

  lemma OverflowStep(t: BracketText, k: nat, next: nat)
    requires Fit(t) && k < |t.chains| && next == k + 1
    ensures OverflowIn(t, next) <==> OverflowIn(t, k) || OwnN0(t, k).None?
  {
  }

  lemma CodeStep(t: BracketText, k: nat, next: nat, s: N0State, c: nat)
    requires Fit(t) && k < |t.chains| && next == k + 1 && CodeState(t, k, s) && !s.halted && c < |t.chains|
    requires OwnN0(t, k).Some?
    ensures InRange(t.chains[k].indices, |t.types|)
    ensures CodeSees(t, next, N0State(Scatter(s.types, t.chains[k].indices, OwnN0(t, k).value), false), c)
  {
    var shown := Shown(t, k);
    OverflowStep(t, k, next);
    assert CodeSees(t, k, s, c);
    ScatterView(s.types, t.chains, k, OwnN0(t, k).value, c);
  }

  lemma CodeHalts(t: BracketText, k: nat, next: nat, s: N0State, c: nat)
    requires Fit(t) && k < |t.chains| && next == k + 1 && CodeState(t, k, s) && c < |t.chains|
    requires s.halted || OwnN0(t, k).None?
    ensures CodeSees(t, next, N0State(s.types, true), c)
  {
    OverflowStep(t, k, next);
    assert CodeSees(t, k, s, c);
  }

  /** Up to the first overflow every chain reads its own N0; the overflowing chain and all behind
      it read what they showed before. */
  lemma {:induction false} CodeN0Is(t: BracketText, k: nat)
    requires Fit(t) && k <= |t.chains|
    ensures CodeState(t, k, CodeN0(t, k))
    decreases k
  {
    if k == 0 {
      forall c | 0 <= c < |t.chains| ensures CodeSees(t, 0, CodeN0(t, 0), c) {
      }
    } else {
      var j := k - 1;
      var s := CodeN0(t, j);
      CodeN0Is(t, j);
      OverflowStep(t, j, k);
      CodeTurn(t, j, k, s);
    }
  }

  lemma CodeTurn(t: BracketText, j: nat, k: nat, s: N0State)
    requires Fit(t) && j < |t.chains| && k == j + 1 && s == CodeN0(t, j) && CodeState(t, j, s)
    ensures CodeState(t, k, CodeN0(t, k))
  {
    var shown := Shown(t, j);
    OverflowStep(t, j, k);
    assert CodeSees(t, j, s, j);
    if !s.halted {
      RunN0Step(t.orig, t.chars, t.table, t.types, t.chains, j, k, s.types);
    }
    var s' := CodeN0(t, k);
    if s.halted || OwnN0(t, j).None? {
      assert s' == N0State(s.types, true);
      forall c | 0 <= c < |t.chains| ensures CodeSees(t, k, s', c) {
        CodeHalts(t, j, k, s, c);
      }
    } else {
      assert s' == N0State(Scatter(s.types, t.chains[j].indices, OwnN0(t, j).value), false);
      forall c | 0 <= c < |t.chains| ensures CodeSees(t, k, s', c) {
        CodeStep(t, j, k, s, c);
      }
    }
  }

  // ----- the rule: an overflow concerns its own chain -----

  /** N0 over the first k chains as BD16 has it: a chain whose pairing overflows stays as it is. */
  ghost function RuleN0(t: BracketText, k: nat): (r: Classes)
    requires Fit(t) && k <= |t.chains|
    ensures |r| == |t.types|
    decreases k
  {
    if k == 0 then t.types
    else
      var before := RuleN0(t, k - 1);
      var shown := Shown(t, k - 1);
      var indices := t.chains[k - 1].indices;
      match N0(View(before, indices), OriginalMarks(t.orig, indices), View(t.chars, indices), t.table,
               t.chains[k - 1].level, t.chains[k - 1].sos)
      case None => before
      case Some(v) => Scatter(before, indices, v)
  }

  ghost predicate RuleSees(t: BracketText, k: nat, types: Classes, c: nat)
    requires Fit(t) && k <= |t.chains| && c < |t.chains| && |types| == |t.types|
  {
    var shown := Shown(t, c);
    View(types, t.chains[c].indices) == if c < k && OwnN0(t, c).Some? then OwnN0(t, c).value else shown
  }

  ghost predicate RuleState(t: BracketText, k: nat, types: Classes)
    requires Fit(t) && k <= |t.chains| && |types| == |t.types|
  {
    forall c {:trigger RuleSees(t, k, types, c)} :: 0 <= c < |t.chains| ==> RuleSees(t, k, types, c)
  }

  lemma RuleStep(t: BracketText, k: nat, next: nat, before: Classes)
    requires Fit(t) && k < |t.chains| && next == k + 1 && before == RuleN0(t, k) && RuleState(t, k, before)
    ensures InRange(t.chains[k].indices, |t.types|)
    ensures RuleN0(t, next) == if OwnN0(t, k).Some? then Scatter(before, t.chains[k].indices, OwnN0(t, k).value) else before
  {
    var shown := Shown(t, k);
    assert RuleSees(t, k, before, k);
  }

  /** By the rule every chain reads its own N0, or what it showed if it overflows. */
  lemma {:induction false} RuleN0Is(t: BracketText, k: nat)
    requires Fit(t) && k <= |t.chains|
    ensures RuleState(t, k, RuleN0(t, k))
    decreases k
  {
    if k > 0 {
      var j := k - 1;
      var before := RuleN0(t, j);
      RuleN0Is(t, j);
      RuleStep(t, j, k, before);
      forall c | 0 <= c < |t.chains| ensures RuleSees(t, k, RuleN0(t, k), c) {
        var shown := Shown(t, c);
        assert RuleSees(t, j, before, c);
        if OwnN0(t, j).Some? {
          ScatterView(before, t.chains, j, OwnN0(t, j).value, c);
        }
      }
    }
  }

  lemma {:induction false} RuleFrame(t: BracketText, k: nat, p: nat)
    requires Fit(t) && k <= |t.chains| && p < |t.types|
    requires forall c :: 0 <= c < |t.chains| ==> p !in t.chains[c].indices
    ensures RuleN0(t, k)[p] == t.types[p]
    decreases k
  {
    if k > 0 {
      var j := k - 1;
      RuleFrame(t, j, p);
      RuleN0Is(t, j);
      RuleStep(t, j, k, RuleN0(t, j));
      assert ChainOk(t.chains, |t.types|, j);
      if OwnN0(t, j).Some? {
        ScatterRewrites(RuleN0(t, j), t.chains[j].indices, OwnN0(t, j).value);
      }
    }
  }

  // ----- when they agree -----

  /** A chain behind an overflowing one whose own N0 changes something. */
  ghost predicate Abandoned(t: BracketText, c: nat)
    requires Fit(t)
  {
    c < |t.chains| && OverflowIn(t, c) && OwnN0(t, c).Some? && OwnN0(t, c).value != Shown(t, c)
  }

  lemma SameViews(t: BracketText, a: Classes, b: Classes, p: nat)
    requires Fit(t) && |a| == |b| == |t.types| && p < |t.types|
    requires forall c :: 0 <= c < |t.chains| ==> InRange(t.chains[c].indices, |t.types|)
    requires forall c :: 0 <= c < |t.chains| ==> View(a, t.chains[c].indices) == View(b, t.chains[c].indices)
    requires (forall c :: 0 <= c < |t.chains| ==> p !in t.chains[c].indices) ==> a[p] == b[p]
    ensures a[p] == b[p]
  {
    if c :| 0 <= c < |t.chains| && p in t.chains[c].indices {
      var k :| 0 <= k < |t.chains[c].indices| && t.chains[c].indices[k] == p;
      assert View(a, t.chains[c].indices)[k] == View(b, t.chains[c].indices)[k];
    }
  }

  lemma SeenFromChain(t: BracketText, c: nat)
    requires Fit(t) && c < |t.chains|
    ensures InRange(t.chains[c].indices, |t.types|)
    ensures var n := |t.chains|;
            View(CodeN0(t, n).types, t.chains[c].indices) == View(RuleN0(t, n), t.chains[c].indices) <==> !Abandoned(t, c)
  {
    var n, shown := |t.chains|, Shown(t, c);
    CodeN0Is(t, n);
    RuleN0Is(t, n);
    OverflowStep(t, c, c + 1);
    assert CodeSees(t, n, CodeN0(t, n), c) && RuleSees(t, n, RuleN0(t, n), c);
  }

  /** The code does what the rule says if and only if no chain behind an overflowing one is
      changed by its own N0. */
  lemma OverflowExactly(t: BracketText)
    requires Fit(t)
    ensures CodeN0(t, |t.chains|).types == RuleN0(t, |t.chains|) <==> forall c: nat :: !Abandoned(t, c)
  {
    var a, b := CodeN0(t, |t.chains|).types, RuleN0(t, |t.chains|);
    forall c | 0 <= c < |t.chains|
      ensures InRange(t.chains[c].indices, |t.types|)
      ensures View(a, t.chains[c].indices) == View(b, t.chains[c].indices) <==> !Abandoned(t, c)
    {
      SeenFromChain(t, c);
    }
    if forall c: nat :: !Abandoned(t, c) {
      forall p | 0 <= p < |t.types| ensures a[p] == b[p] {
        if forall c :: 0 <= c < |t.chains| ==> p !in t.chains[c].indices {
          N0Frame(t.orig, t.chars, t.table, t.types, t.chains, |t.chains|, p);
          RuleFrame(t, |t.chains|, p);
        }
        SameViews(t, a, b, p);
      }
      assert a == b;
    }
  }

  /** In particular if at most the last chain overflows. */
  lemma OnlyLastOverflows(t: BracketText)
    requires Fit(t) && forall d: nat :: d + 1 < |t.chains| ==> OwnN0(t, d).Some?
    ensures CodeN0(t, |t.chains|).types == RuleN0(t, |t.chains|)
  {
    OverflowExactly(t);
  }

  // ----- one pair, one chain -----

  /** No original nonspacing mark is a bracket. */
  predicate MarksAreNoBrackets(nsm: seq<bool>, chars: seq<char>, table: BracketTable)
    requires |nsm| == |chars|
  {
    forall k :: 0 <= k < |nsm| && nsm[k] ==> chars[k] !in table
  }

  /** The pairs of a chain in the order of their opening brackets. */
  function SortedPairs(v: Classes, chars: seq<char>, table: BracketTable): (pairs: seq<Pair>)
    requires |v| == |chars| && Pairing(MarksOf(v, chars, table), |v|).Some?
    ensures PairsIn(pairs, |v|)
  {
    PairsOfChain(MarksOf(v, chars, table));
    SortByOpening(Pairing(MarksOf(v, chars, table), |v|).value.pairs)
  }

  /** N0 of a chain: each of its pairs ends with both brackets in the direction the rule finds
      when the pair's turn comes, or with the classes they had if it finds none. */
  lemma N0Outcome(v: Classes, nsm: seq<bool>, chars: seq<char>, table: BracketTable, level: Level, sos: BidiClass, i: nat)
    requires |nsm| == |v| == |chars| && MarksAreNoBrackets(nsm, chars, table)
    requires N0(v, nsm, chars, table, level, sos).Some?
    requires i < |SortedPairs(v, chars, table)|
    ensures var r, pairs := N0(v, nsm, chars, table, level, sos).value, SortedPairs(v, chars, table);
            var w := ResolvePairs(v, nsm, pairs, i, DirectionOf(level), sos);
            match PairDirection(w, pairs[i], DirectionOf(level), sos)
            case Some(d) => r[pairs[i].opening] == r[pairs[i].closing] == d.AsBidiClass()
            case None => r[pairs[i].opening] == v[pairs[i].opening] && r[pairs[i].closing] == v[pairs[i].closing]
  {
    var marks, pairs := MarksOf(v, chars, table), SortedPairs(v, chars, table);
    ChainPairsApart(marks);
    forall j | 0 <= j < |pairs| ensures !nsm[pairs[j].opening] && !nsm[pairs[j].closing] {
      PairMarks(marks, j);
    }
    PairOutcome(v, nsm, pairs, |pairs|, i, DirectionOf(level), sos);
  }

  /** N1 and N2 on one chain alone. */
  ghost function NeutralPart(chain: IsolatingRunSequence, v: Classes): (r: Classes)
    ensures |r| == |v|
  {
    RewriteAll(NEUTRAL_PASSES, chain, v, 2)
  }

  /** The text as N0 finds it: after W1 to W7. */
  ghost function BeforeN0(orig: Classes, chars: seq<char>, table: BracketTable, types: Classes,
                          chains: seq<IsolatingRunSequence>): (t: BracketText)
    requires ChainsOk(chains, |types|) && |orig| == |chars| == |types|
    ensures Fit(t)
  {
    BracketText(orig, chars, table, RunPasses(WEAK_PASSES, types, chains, 7), chains)
  }

  /** What N0 finds on a chain is what W1 to W7 on that chain alone make of what it showed. */
  lemma ShownIsWeak(orig: Classes, chars: seq<char>, table: BracketTable, types: Classes,
                    chains: seq<IsolatingRunSequence>, c: nat)
    requires ChainsOk(chains, |types|) && |orig| == |chars| == |types| && c < |chains|
    ensures InRange(chains[c].indices, |types|)
    ensures Shown(BeforeN0(orig, chars, table, types, chains), c)
         == RewriteAll(WEAK_PASSES, chains[c], View(types, chains[c].indices), 7)
  {
    PassesView(WEAK_PASSES, types, chains, 7, c);
  }

  /** What N1 and N2 leave of a chain after N0. */
  lemma NeutralAfterN0(t: BracketText, c: nat)
    requires Fit(t) && t.chars != [] && c < |t.chains|
    ensures InRange(t.chains[c].indices, |t.types|)
    ensures View(RunPasses(NEUTRAL_PASSES, AfterN0(t.orig, t.chars, t.table, t.types, t.chains), t.chains, 2), t.chains[c].indices)
            == NeutralPart(t.chains[c], if OverflowIn(t, c + 1) then Shown(t, c) else OwnN0(t, c).value)
  {
    var n, shown := |t.chains|, Shown(t, c);
    CodeN0Is(t, n);
    assert CodeSees(t, n, CodeN0(t, n), c);
    PassesView(NEUTRAL_PASSES, CodeN0(t, n).types, t.chains, 2, c);
  }

  /** The final classes of a chain are those the rules give it alone: N2 of N1 of its own N0 of W7
      to W1 of what it showed, without N0 from the first overflowing chain on. */
  lemma FinalOfChain(orig: Classes, chars: seq<char>, table: BracketTable, types: Classes,
                     chains: seq<IsolatingRunSequence>, c: nat)
    requires ChainsOk(chains, |types|) && |orig| == |chars| == |types| && chars != [] && c < |chains|
    ensures InRange(chains[c].indices, |types|)
    ensures var t, r := BeforeN0(orig, chars, table, types, chains), FinalClasses(orig, chars, table, types, chains);
            View(r, chains[c].indices)
            == NeutralPart(chains[c], if OverflowIn(t, c + 1) then Shown(t, c) else OwnN0(t, c).value)
  {
    NeutralAfterN0(BeforeN0(orig, chars, table, types, chains), c);
  }

  /** The classes if an overflow concerned its own chain only. */
  ghost function RuleClasses(orig: Classes, chars: seq<char>, table: BracketTable, types: Classes,
                             chains: seq<IsolatingRunSequence>): (r: Classes)
    requires ChainsOk(chains, |types|) && |orig| == |chars| == |types|
    ensures |r| == |types|
  {
    RunPasses(NEUTRAL_PASSES, RuleN0(BeforeN0(orig, chars, table, types, chains), |chains|), chains, 2)
  }

  lemma RuleOfChain(orig: Classes, chars: seq<char>, table: BracketTable, types: Classes,
                    chains: seq<IsolatingRunSequence>, c: nat)
    requires ChainsOk(chains, |types|) && |orig| == |chars| == |types| && c < |chains|
    ensures InRange(chains[c].indices, |types|)
    ensures var t := BeforeN0(orig, chars, table, types, chains);
            View(RuleClasses(orig, chars, table, types, chains), chains[c].indices)
            == NeutralPart(chains[c], if OwnN0(t, c).Some? then OwnN0(t, c).value else Shown(t, c))
  {
    assert ChainOk(chains, |types|, c);
    var t := BeforeN0(orig, chars, table, types, chains);
    RuleN0Is(t, |chains|);
    assert RuleSees(t, |chains|, RuleN0(t, |chains|), c);
    PassesView(NEUTRAL_PASSES, RuleN0(t, |chains|), chains, 2, c);
  }
}
