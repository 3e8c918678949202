/** The rules applied to all text chains of a paragraph, one rule after the other, and what
    the whole sequence of rules achieves. */
module Pipeline {
  import opened Wrappers
  import opened BidiTypes
  import opened IsolatingRuns
  import opened WeakRules
  import opened NeutralRules
  import opened BracketRules
  import opened TextChains

  /** The rules that treat every chain on its own; PassUaxW1 is the W1 of UAX #9, for comparison. */
  datatype Pass = PassW1 | PassW2 | PassW3 | PassW4 | PassW5 | PassW6 | PassW7 | PassN1 | PassN2 | PassUaxW1

  ghost function Rewrite(pass: Pass, chain: IsolatingRunSequence, v: Classes): (r: Classes)
    ensures |r| == |v|
  {
    match pass
    case PassW1 => W1(v, chain.sos)
    case PassW2 => W2(v, chain.sos)
    case PassW3 => W3(v)
    case PassW4 => W4(v)
    case PassW5 => W5(v)
    case PassW6 => W6(v)
    case PassW7 => W7(v, chain.sos)
    case PassN1 => N1(v, chain.sos, chain.eos)
    case PassN2 => N2(v, chain.level)
    case PassUaxW1 => UaxW1(v, chain.sos)
  }

  // ----- in place, position by position -----

  /** v is a up to position k and b from there on. */
  predicate Mixed(a: Classes, b: Classes, v: Classes, k: nat) {
    && |a| == |b| == |v| && k <= |v|
    && (forall j :: 0 <= j < k ==> v[j] == a[j])
    && (forall j :: k <= j < |v| ==> v[j] == b[j])
  }

  /** Two classes of which neither is removed, or the same class. */
  predicate MayBecome(old': BidiClass, new': BidiClass) {
    old' == new' || (!IsRemovedClass(old') && !IsRemovedClass(new'))
  }

  /** W1 computed at k from the class that marks at k attach to. */
  lemma W1Mixed(chain: IsolatingRunSequence, t: Classes, k: nat)
    requires k < |t| && (chain.sos.L? || chain.sos.R?)
    ensures var base := BaseClass(t, k, chain.sos);
            && Rewrite(PassW1, chain, t)[k] == (if t[k].NSM? then base else t[k])
            && MayBecome(t[k], Rewrite(PassW1, chain, t)[k])
            && BaseClass(t, k + 1, chain.sos) == if t[k].NSM? || IsRemovedClass(t[k]) then base else t[k]
  {
    BaseClassIs(t, k, chain.sos);
  }

  /** W2 computed at k after the positions before k have been rewritten. */
  lemma W2Mixed(chain: IsolatingRunSequence, t: Classes, v: Classes, k: nat)
    requires k < |t| && Mixed(Rewrite(PassW2, chain, t), t, v, k)
    ensures W2At(v, k, chain.sos) == Rewrite(PassW2, chain, t)[k] && MayBecome(v[k], W2At(v, k, chain.sos))
  {
    W2InPlace(t, v, k, chain.sos);
  }

  lemma W4Mixed(chain: IsolatingRunSequence, t: Classes, v: Classes, k: nat)
    requires k < |t| && Mixed(Rewrite(PassW4, chain, t), t, v, k)
    ensures W4At(v, k) == Rewrite(PassW4, chain, t)[k] && MayBecome(v[k], W4At(v, k))
  {
    W4InPlace(t, v, k);
  }

  /** W7 and N1 computed at k after the positions behind k have been rewritten. */
  lemma W7Mixed(chain: IsolatingRunSequence, t: Classes, v: Classes, k: nat)
    requires k < |t| && Mixed(t, Rewrite(PassW7, chain, t), v, k + 1)
    ensures W7At(v, k, chain.sos) == Rewrite(PassW7, chain, t)[k] && MayBecome(v[k], W7At(v, k, chain.sos))
  {
    W7InPlace(t, v, k, chain.sos);
  }

  lemma N1Mixed(chain: IsolatingRunSequence, t: Classes, v: Classes, k: nat)
    requires k < |t| && Mixed(t, Rewrite(PassN1, chain, t), v, k + 1)
    ensures N1At(v, k, chain.sos, chain.eos) == Rewrite(PassN1, chain, t)[k]
    ensures MayBecome(v[k], N1At(v, k, chain.sos, chain.eos))
  {
    N1InPlace(t, v, k, chain.sos, chain.eos);
  }

  /** Chain c lies in a text of n characters and shares no position with a later one. */
  predicate ChainOk(chains: seq<IsolatingRunSequence>, n: nat, c: nat)
    requires c < |chains|
  {
    && Ascending(chains[c].indices) && InRange(chains[c].indices, n)
    && (chains[c].sos.L? || chains[c].sos.R?) && (chains[c].eos.L? || chains[c].eos.R?)
    && forall d, p :: c < d < |chains| && p in chains[d].indices ==> p !in chains[c].indices
  }

  ghost predicate ChainsOk(chains: seq<IsolatingRunSequence>, n: nat) {
    forall c {:trigger ChainOk(chains, n, c)} :: 0 <= c < |chains| ==> ChainOk(chains, n, c)
  }

  /** One pass over the first k chains. */
  ghost function RunPass(pass: Pass, types: Classes, chains: seq<IsolatingRunSequence>, k: nat): (r: Classes)
    requires ChainsOk(chains, |types|) && k <= |chains|
    ensures |r| == |types|
  {
    if k == 0 then types
    else
      var before := RunPass(pass, types, chains, k - 1);
      assert ChainOk(chains, |types|, k - 1);
      var chain := chains[k - 1];
      Scatter(before, chain.indices, Rewrite(pass, chain, View(before, chain.indices)))
  }

  lemma RunPassStep(pass: Pass, types: Classes, chains: seq<IsolatingRunSequence>, c: nat, next: nat, before: Classes)
    requires ChainsOk(chains, |types|) && c < |chains| && next == c + 1
    requires before == RunPass(pass, types, chains, c)
    ensures ChainOk(chains, |types|, c)
    ensures RunPass(pass, types, chains, next)
         == Scatter(before, chains[c].indices, Rewrite(pass, chains[c], View(before, chains[c].indices)))
  {
    assert ChainOk(chains, |types|, c);
  }

  lemma ChainsApart(chains: seq<IsolatingRunSequence>, n: nat, c: nat, d: nat)
    requires ChainsOk(chains, n) && c < |chains| && d < |chains| && c != d
    ensures forall p :: p in chains[c].indices ==> p !in chains[d].indices
  {
    assert ChainOk(chains, n, c);
    assert ChainOk(chains, n, d);
  }

  /** What chain c sees after the first k chains have been rewritten. */
  ghost predicate PassSeen(pass: Pass, types: Classes, chains: seq<IsolatingRunSequence>, k: nat, c: nat, after: Classes)
    requires ChainsOk(chains, |types|) && c < |chains| && |after| == |types|
  {
    assert ChainOk(chains, |types|, c);
    var seen := View(types, chains[c].indices);
    View(after, chains[c].indices) == if c < k then Rewrite(pass, chains[c], seen) else seen
  }

  lemma PassSeenStep(pass: Pass, types: Classes, chains: seq<IsolatingRunSequence>, k: nat, c: nat, before: Classes)
    requires ChainsOk(chains, |types|) && k < |chains| && c < |chains| && |before| == |types|
    requires PassSeen(pass, types, chains, k, c, before)
    ensures ChainOk(chains, |types|, k)
    ensures PassSeen(pass, types, chains, k + 1, c,
                     Scatter(before, chains[k].indices, Rewrite(pass, chains[k], View(before, chains[k].indices))))
  {
    assert ChainOk(chains, |types|, c) && ChainOk(chains, |types|, k);
    var v := Rewrite(pass, chains[k], View(before, chains[k].indices));
    if c == k {
      ViewOfScatter(before, chains[k].indices, v);
    } else {
      ChainsApart(chains, |types|, c, k);
      ViewOfOther(before, chains[k].indices, v, chains[c].indices);
    }
  }

  /** A pass rewrites what each chain sees by its rule, whatever the other chains do. */
  lemma {:induction false} PassView(pass: Pass, types: Classes, chains: seq<IsolatingRunSequence>, k: nat, c: nat)
    requires ChainsOk(chains, |types|) && k <= |chains| && c < |chains|
    ensures PassSeen(pass, types, chains, k, c, RunPass(pass, types, chains, k))
    decreases k
  {
    if k > 0 {
      var j := k - 1;
      var before := RunPass(pass, types, chains, j);
      PassView(pass, types, chains, j, c);
      RunPassStep(pass, types, chains, j, k, before);
      PassSeenStep(pass, types, chains, j, c, before);
    }
  }

  lemma PassFrameStep(pass: Pass, types: Classes, chains: seq<IsolatingRunSequence>, k: nat, p: nat, before: Classes)
    requires ChainsOk(chains, |types|) && k < |chains| && p < |types| && |before| == |types|
    requires p !in chains[k].indices
    ensures ChainOk(chains, |types|, k)
    ensures Scatter(before, chains[k].indices, Rewrite(pass, chains[k], View(before, chains[k].indices)))[p] == before[p]
  {
    assert ChainOk(chains, |types|, k);
    ScatterRewrites(before, chains[k].indices, Rewrite(pass, chains[k], View(before, chains[k].indices)));
  }

  /** A pass leaves every position outside all chains alone. */
  lemma {:induction false} PassFrame(pass: Pass, types: Classes, chains: seq<IsolatingRunSequence>, k: nat, p: nat)
    requires ChainsOk(chains, |types|) && k <= |chains| && p < |types|
    requires forall c :: 0 <= c < |chains| ==> p !in chains[c].indices
    ensures RunPass(pass, types, chains, k)[p] == types[p]
    decreases k
  {
    if k > 0 {
      var j := k - 1;
      var before := RunPass(pass, types, chains, j);
      PassFrame(pass, types, chains, j, p);
      RunPassStep(pass, types, chains, j, k, before);
      PassFrameStep(pass, types, chains, j, p, before);
    }
  }

  // ----- N0 over all chains -----

  /** Which positions of a chain were nonspacing marks in the original text. */
  function OriginalMarks(orig: Classes, indices: seq<nat>): (r: seq<bool>)
    requires InRange(indices, |orig|)
    ensures |r| == |indices|
  {
    seq(|indices|, k requires 0 <= k < |indices| => orig[indices[k]].NSM?)
  }

  datatype N0State = N0State(types: Classes, halted: bool)

  /** N0 over the first k chains. A chain whose pairing overflows stops the rule for good:
      neither it nor any later chain is resolved. */
  ghost function RunN0(orig: Classes, chars: seq<char>, table: BracketTable, types: Classes,
                       chains: seq<IsolatingRunSequence>, k: nat): (r: N0State)
    requires ChainsOk(chains, |types|) && k <= |chains| && |orig| == |chars| == |types|
    ensures |r.types| == |types|
  {
    if k == 0 then N0State(types, false)
    else
      var before := RunN0(orig, chars, table, types, chains, k - 1);
      if before.halted then before
      else
        assert ChainOk(chains, |types|, k - 1);
        var chain := chains[k - 1];
        match N0(View(before.types, chain.indices), OriginalMarks(orig, chain.indices),
                 View(chars, chain.indices), table, chain.level, chain.sos)
        case None => before.(halted := true)
        case Some(v) => N0State(Scatter(before.types, chain.indices, v), false)
  }

  lemma RunN0Step(orig: Classes, chars: seq<char>, table: BracketTable, types: Classes,
                  chains: seq<IsolatingRunSequence>, c: nat, next: nat, before: Classes)
    requires ChainsOk(chains, |types|) && c < |chains| && next == c + 1 && |orig| == |chars| == |types|
    requires RunN0(orig, chars, table, types, chains, c) == N0State(before, false)
    ensures ChainOk(chains, |types|, c)
    ensures var r := N0(View(before, chains[c].indices), OriginalMarks(orig, chains[c].indices),
                        View(chars, chains[c].indices), table, chains[c].level, chains[c].sos);
            RunN0(orig, chars, table, types, chains, next)
            == if r.None? then N0State(before, true)
               else N0State(Scatter(before, chains[c].indices, r.value), false)
  {
    assert ChainOk(chains, |types|, c);
  }

  /** Without the characters (only classes given) there are no brackets to resolve. */
  ghost function AfterN0(orig: Classes, chars: seq<char>, table: BracketTable, types: Classes,
                         chains: seq<IsolatingRunSequence>): (r: Classes)
    requires ChainsOk(chains, |types|) && |orig| == |types| && (chars == [] || |chars| == |types|)
    ensures |r| == |types|
  {
    if chars == [] then types else RunN0(orig, chars, table, types, chains, |chains|).types
  }

  // ----- all rules -----

  const WEAK_PASSES: seq<Pass> := [PassW1, PassW2, PassW3, PassW4, PassW5, PassW6, PassW7]
  const NEUTRAL_PASSES: seq<Pass> := [PassN1, PassN2]

  /** The first n of a list of passes, one after the other over all chains. */
  ghost function RunPasses(passes: seq<Pass>, types: Classes, chains: seq<IsolatingRunSequence>, n: nat): (r: Classes)
    requires ChainsOk(chains, |types|) && n <= |passes|
    ensures |r| == |types|
  {
    if n == 0 then types
    else RunPass(passes[n - 1], RunPasses(passes, types, chains, n - 1), chains, |chains|)
  }

  /** The same passes on one chain alone. */
  ghost function RewriteAll(passes: seq<Pass>, chain: IsolatingRunSequence, v: Classes, n: nat): (r: Classes)
    requires n <= |passes|
    ensures |r| == |v|
  {
    if n == 0 then v else Rewrite(passes[n - 1], chain, RewriteAll(passes, chain, v, n - 1))
  }

  /** Chains do not influence one another. */
  lemma {:induction false} PassesView(passes: seq<Pass>, types: Classes, chains: seq<IsolatingRunSequence>, n: nat, c: nat)
    requires ChainsOk(chains, |types|) && n <= |passes| && c < |chains|
    ensures InRange(chains[c].indices, |types|)
    ensures View(RunPasses(passes, types, chains, n), chains[c].indices)
            == RewriteAll(passes, chains[c], View(types, chains[c].indices), n)
    decreases n
  {
    assert ChainOk(chains, |types|, c);
    if n > 0 {
      PassesView(passes, types, chains, n - 1, c);
      PassView(passes[n - 1], RunPasses(passes, types, chains, n - 1), chains, |chains|, c);
    }
  }

  /** The classes after rules W1 to N2. */
  ghost function FinalClasses(orig: Classes, chars: seq<char>, table: BracketTable, types: Classes,
                              chains: seq<IsolatingRunSequence>): (r: Classes)
    requires ChainsOk(chains, |types|) && |orig| == |types| && (chars == [] || |chars| == |types|)
    ensures |r| == |types|
  {
    var weak := RunPasses(WEAK_PASSES, types, chains, |WEAK_PASSES|);
    RunPasses(NEUTRAL_PASSES, AfterN0(orig, chars, table, weak, chains), chains, |NEUTRAL_PASSES|)
  }

  // ----- what a class can be after each rule -----

  /** No rule changes a removed character or removes one. */
  predicate KeepsRemoved(v: Classes, r: Classes) {
    && |r| == |v|
    && forall k :: 0 <= k < |v| ==>
         (IsRemovedClass(v[k]) ==> r[k] == v[k]) && (IsRemovedClass(r[k]) ==> IsRemovedClass(v[k]))
  }

  lemma {:induction false} BaseClassIs(t: Classes, k: nat, sos: BidiClass)
    requires k <= |t| && (sos.L? || sos.R?)
    ensures var bc := BaseClass(t, k, sos); !bc.NSM? && !IsRemovedClass(bc)
  {
    if k > 0 && (t[k - 1].NSM? || IsRemovedClass(t[k - 1])) {
      BaseClassIs(t, k - 1, sos);
    }
  }

  lemma RewriteKeepsRemoved(pass: Pass, chain: IsolatingRunSequence, v: Classes)
    requires chain.sos.L? || chain.sos.R?
    ensures KeepsRemoved(v, Rewrite(pass, chain, v))
  {
    forall k | 0 <= k < |v| && (pass.PassW1? || pass.PassUaxW1?) ensures !IsRemovedClass(BaseClass(v, k, chain.sos)) {
      BaseClassIs(v, k, chain.sos);
    }
  }

  /** The classes still possible after n of the weak passes. */
  predicate Possible(n: nat, bc: BidiClass) {
    && (n >= 1 ==> !bc.NSM?)
    && (n >= 3 ==> !bc.AL?)
    && (n >= 6 ==> !bc.ES? && !bc.CS? && !bc.ET?)
  }

  lemma {:induction false} WeakPossible(chain: IsolatingRunSequence, v: Classes, n: nat)
    requires (chain.sos.L? || chain.sos.R?) && n <= |WEAK_PASSES|
    ensures var r := RewriteAll(WEAK_PASSES, chain, v, n);
            KeepsRemoved(v, r) && forall k :: 0 <= k < |v| ==> Possible(n, r[k])
  {
    if n > 0 {
      WeakPossible(chain, v, n - 1);
      var w := RewriteAll(WEAK_PASSES, chain, v, n - 1);
      var r := Rewrite(WEAK_PASSES[n - 1], chain, w);
      RewriteKeepsRemoved(WEAK_PASSES[n - 1], chain, w);
      forall k | 0 <= k < |v| ensures Possible(n, r[k]) {
        BaseClassIs(w, k, chain.sos);
      }
    }
  }

  /** The classes the implicit rules know. */
  predicate IsResolved(bc: BidiClass) {
    bc.L? || bc.R? || bc.EN? || bc.AN?
  }

  lemma NeutralResolves(chain: IsolatingRunSequence, v: Classes)
    requires (chain.sos.L? || chain.sos.R?) && forall k :: 0 <= k < |v| ==> Possible(7, v[k])
    ensures var r := RewriteAll(NEUTRAL_PASSES, chain, v, 2);
            KeepsRemoved(v, r) && forall k :: 0 <= k < |v| && !IsRemovedClass(v[k]) ==> IsResolved(r[k])
  {
    var n1 := Rewrite(PassN1, chain, v);
    RewriteKeepsRemoved(PassN1, chain, v);
    RewriteKeepsRemoved(PassN2, chain, n1);
    assert RewriteAll(NEUTRAL_PASSES, chain, v, 1) == n1;
  }

  // ----- the whole text -----

  lemma {:induction false} PassesFrame(passes: seq<Pass>, types: Classes, chains: seq<IsolatingRunSequence>, n: nat, p: nat)
    requires ChainsOk(chains, |types|) && n <= |passes| && p < |types|
    requires forall c :: 0 <= c < |chains| ==> p !in chains[c].indices
    ensures RunPasses(passes, types, chains, n)[p] == types[p]
  {
    if n > 0 {
      PassesFrame(passes, types, chains, n - 1, p);
      PassFrame(passes[n - 1], RunPasses(passes, types, chains, n - 1), chains, |chains|, p);
    }
  }

  lemma {:induction false} N0Frame(orig: Classes, chars: seq<char>, table: BracketTable, types: Classes,
                                   chains: seq<IsolatingRunSequence>, k: nat, p: nat)
    requires ChainsOk(chains, |types|) && k <= |chains| && |orig| == |chars| == |types| && p < |types|
    requires forall c :: 0 <= c < |chains| ==> p !in chains[c].indices
    ensures RunN0(orig, chars, table, types, chains, k).types[p] == types[p]
  {
    if k > 0 {
      N0Frame(orig, chars, table, types, chains, k - 1, p);
      var before, chain := RunN0(orig, chars, table, types, chains, k - 1), chains[k - 1];
      assert ChainOk(chains, |types|, k - 1);
      var r := N0(View(before.types, chain.indices), OriginalMarks(orig, chain.indices),
                  View(chars, chain.indices), table, chain.level, chain.sos);
      if r.Some? {
        ScatterRewrites(before.types, chain.indices, r.value);
      }
    }
  }

  /** Rewriting chain d leaves what chain c sees, or gives it what was written. */
  lemma ScatterView(types: Classes, chains: seq<IsolatingRunSequence>, d: nat, v: Classes, c: nat)
    requires ChainsOk(chains, |types|) && c < |chains| && d < |chains|
    requires InRange(chains[d].indices, |types|) && |v| == |chains[d].indices|
    ensures InRange(chains[c].indices, |types|)
    ensures View(Scatter(types, chains[d].indices, v), chains[c].indices)
            == if c == d then v else View(types, chains[c].indices)
  {
    assert ChainOk(chains, |types|, c);
    assert ChainOk(chains, |types|, d);
    if c == d {
      ViewOfScatter(types, chains[d].indices, v);
    } else {
      ChainsApart(chains, |types|, c, d);
      ViewOfOther(types, chains[d].indices, v, chains[c].indices);
    }
  }

  /** N0 over all chains strengthens what each chain sees. */
  lemma {:induction false} N0View(orig: Classes, chars: seq<char>, table: BracketTable, types: Classes,
                                  chains: seq<IsolatingRunSequence>, k: nat, c: nat)
    requires ChainsOk(chains, |types|) && k <= |chains| && |orig| == |chars| == |types| && c < |chains|
    requires forall p :: 0 <= p < |types| && orig[p].NSM? ==> !IsRemovedClass(types[p])
    ensures InRange(chains[c].indices, |types|)
    ensures var seen, after := View(types, chains[c].indices), View(RunN0(orig, chars, table, types, chains, k).types, chains[c].indices);
            if c < k then Strengthens(seen, after) else after == seen
  {
    assert ChainOk(chains, |types|, c);
    if k > 0 {
      N0View(orig, chars, table, types, chains, k - 1, c);
      var before := RunN0(orig, chars, table, types, chains, k - 1);
      if !before.halted {
        assert ChainOk(chains, |types|, k - 1);
        N0ViewStep(orig, chars, table, types, before.types, chains, k - 1, c);
      }
    }
  }

  lemma N0ViewStep(orig: Classes, chars: seq<char>, table: BracketTable, types: Classes, before: Classes,
                   chains: seq<IsolatingRunSequence>, d: nat, c: nat)
    requires ChainsOk(chains, |types|) && d < |chains| && |orig| == |chars| == |types| == |before| && c < |chains|
    requires forall p :: 0 <= p < |types| && orig[p].NSM? ==> !IsRemovedClass(types[p])
    requires InRange(chains[c].indices, |types|) && InRange(chains[d].indices, |types|)
    requires c == d ==> View(before, chains[c].indices) == View(types, chains[c].indices)
    ensures var r := N0(View(before, chains[d].indices), OriginalMarks(orig, chains[d].indices),
                        View(chars, chains[d].indices), table, chains[d].level, chains[d].sos);
            r.Some? ==>
              var after := View(Scatter(before, chains[d].indices, r.value), chains[c].indices);
              if c == d then Strengthens(View(types, chains[c].indices), after)
              else after == View(before, chains[c].indices)
  {
    var v, nsm, cs := View(before, chains[d].indices), OriginalMarks(orig, chains[d].indices), View(chars, chains[d].indices);
    var r := N0(v, nsm, cs, table, chains[d].level, chains[d].sos);
    if r.Some? {
      ScatterView(before, chains, d, r.value, c);
      if c == d {
        N0Strengthens(v, nsm, cs, table, chains[d].level, chains[d].sos);
      }
    }
  }

  lemma AfterN0View(orig: Classes, chars: seq<char>, table: BracketTable, types: Classes,
                    chains: seq<IsolatingRunSequence>, c: nat)
    requires ChainsOk(chains, |types|) && |orig| == |types| && (chars == [] || |chars| == |types|) && c < |chains|
    requires forall p :: 0 <= p < |types| && orig[p].NSM? ==> !IsRemovedClass(types[p])
    ensures InRange(chains[c].indices, |types|)
    ensures Strengthens(View(types, chains[c].indices),
                        View(AfterN0(orig, chars, table, types, chains), chains[c].indices))
  {
    if chars == [] {
      assert ChainOk(chains, |types|, c);
    } else {
      N0View(orig, chars, table, types, chains, |chains|, c);
    }
  }

  /** Every chain ends up with the classes of its own rules: resolved where the character
      is not removed, unchanged where it is. */
  lemma ChainResolved(orig: Classes, chars: seq<char>, table: BracketTable, types: Classes,
                      chains: seq<IsolatingRunSequence>, c: nat)
    requires ChainsOk(chains, |types|) && |orig| == |types| && (chars == [] || |chars| == |types|) && c < |chains|
    requires forall p :: 0 <= p < |types| && orig[p].NSM? ==> !IsRemovedClass(types[p])
    ensures InRange(chains[c].indices, |types|)
    ensures var seen, r := View(types, chains[c].indices), View(FinalClasses(orig, chars, table, types, chains), chains[c].indices);
            KeepsRemoved(seen, r) && forall k :: 0 <= k < |seen| && !IsRemovedClass(seen[k]) ==> IsResolved(r[k])
  {
    assert ChainOk(chains, |types|, c);
    var indices := chains[c].indices;
    var weak := RunPasses(WEAK_PASSES, types, chains, 7);
    var n0 := AfterN0(orig, chars, table, weak, chains);
    PassesView(WEAK_PASSES, types, chains, 7, c);
    WeakPossible(chains[c], View(types, indices), 7);
    WeakKeepsMarks(orig, types, chains);
    AfterN0View(orig, chars, table, weak, chains, c);
    PassesView(NEUTRAL_PASSES, n0, chains, 2, c);
    NeutralResolves(chains[c], View(n0, indices));
  }

  /** After the weak rules an original nonspacing mark is still not a removed character. */
  lemma WeakKeepsMarks(orig: Classes, types: Classes, chains: seq<IsolatingRunSequence>)
    requires ChainsOk(chains, |types|) && |orig| == |types|
    requires forall p :: 0 <= p < |types| && orig[p].NSM? ==> !IsRemovedClass(types[p])
    ensures var weak := RunPasses(WEAK_PASSES, types, chains, 7);
            forall p :: 0 <= p < |types| && orig[p].NSM? ==> !IsRemovedClass(weak[p])
  {
    var weak := RunPasses(WEAK_PASSES, types, chains, 7);
    forall p | 0 <= p < |types| && orig[p].NSM? ensures !IsRemovedClass(weak[p]) {
      if c :| 0 <= c < |chains| && p in chains[c].indices {
        assert ChainOk(chains, |types|, c);
        PassesView(WEAK_PASSES, types, chains, 7, c);
        WeakPossible(chains[c], View(types, chains[c].indices), 7);
        var k :| 0 <= k < |chains[c].indices| && chains[c].indices[k] == p;
        assert View(weak, chains[c].indices)[k] == weak[p];
        assert View(types, chains[c].indices)[k] == types[p];
      } else {
        PassesFrame(WEAK_PASSES, types, chains, 7, p);
      }
    }
  }

  /** The chains hold every character that is not removed. */
  ghost predicate HoldAll(types: Classes, chains: seq<IsolatingRunSequence>) {
    forall p :: 0 <= p < |types| && !IsRemovedClass(types[p]) ==>
      exists c :: 0 <= c < |chains| && p in chains[c].indices
  }

  /** Rules W1 to N2 resolve everything: each character that is not removed ends as L, R,
      EN or AN, and a removed one keeps its class. */
  lemma AllResolved(orig: Classes, chars: seq<char>, table: BracketTable, types: Classes,
                    chains: seq<IsolatingRunSequence>, p: nat)
    requires ChainsOk(chains, |types|) && HoldAll(types, chains)
    requires |orig| == |types| && (chars == [] || |chars| == |types|) && p < |types|
    requires forall q :: 0 <= q < |types| && orig[q].NSM? ==> !IsRemovedClass(types[q])
    ensures var r := FinalClasses(orig, chars, table, types, chains);
            if IsRemovedClass(types[p]) then r[p] == types[p] else IsResolved(r[p])
  {
    var r := FinalClasses(orig, chars, table, types, chains);
    if c :| 0 <= c < |chains| && p in chains[c].indices {
      assert ChainOk(chains, |types|, c);
      ChainResolved(orig, chars, table, types, chains, c);
      var k :| 0 <= k < |chains[c].indices| && chains[c].indices[k] == p;
      assert View(r, chains[c].indices)[k] == r[p];
      assert View(types, chains[c].indices)[k] == types[p];
    } else {
      var weak := RunPasses(WEAK_PASSES, types, chains, 7);
      PassesFrame(WEAK_PASSES, types, chains, 7, p);
      if chars != [] {
        N0Frame(orig, chars, table, weak, chains, |chains|, p);
      }
      PassesFrame(NEUTRAL_PASSES, AfterN0(orig, chars, table, weak, chains), chains, 2, p);
    }
  }

  // ----- I1, I2 -----

  function ImplicitLevel(level: Level, bc: BidiClass): Level {
    if level == NO_LEVEL then NO_LEVEL
    else if !IsOdd(level) then
      if bc.R? then level + 1 else if bc.AN? || bc.EN? then level + 2 else level
    else
      if bc.L? || bc.AN? || bc.EN? then level + 1 else level
  }

  /** After I1 and I2 a resolved character sits at or at most two above its explicit level,
      and its parity says what it is: odd for R, even for L, EN and AN. */
  lemma ImplicitLevelIs(level: Level, bc: BidiClass)
    requires 0 <= level <= MAX_DEPTH && IsResolved(bc)
    ensures level <= ImplicitLevel(level, bc) <= MAX_DEPTH + 1
    ensures IsOdd(ImplicitLevel(level, bc)) <==> bc.R?
  {
  }
}
