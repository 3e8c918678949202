/** W1 in the code and in UAX #9: the code lets a mark behind an isolate initiator or a PDI take its
    class, UAX #9 makes it ON. Where that shows, and why it does not show in the end. */
module MarkRule {
  import opened Wrappers
  import opened BidiTypes
  import opened LevelStacks
  import opened ExplicitLevels
  import opened IsolateNesting
  import opened LevelRuns
  import opened IsolatingRuns
  import opened WeakRules
  import opened NeutralRules
  import opened Brackets
  import opened BracketRules
  import opened TextChains
  import opened Pipeline
  import opened ParagraphSpec
  import opened SequenceEnds
  import opened ChainOutcomes

  // ----- what follows an initiator in a sequence -----

  /** Behind an isolate initiator a sequence ends or goes on with a PDI. */
  predicate InitiatorsFollowed(v: Classes) {
    forall k :: 0 <= k < |v| && IsIsoInit(v[k]) ==> NextSig(v, k + 1) == None || NextSig(v, k + 1) == Some(PDI)
  }

  lemma {:induction false} NextSigOfSum(a: Classes, b: Classes, k: nat)
    requires k <= |a|
    ensures NextSig(a + b, k) == if NextSig(a, k).Some? then NextSig(a, k) else NextSig(b, 0)
    decreases |a| - k
  {
    if k < |a| {
      NextSigOfSum(a, b, k + 1);
    } else {
      NextSigOfRest(a, b, 0);
    }
  }

  lemma {:induction false} NextSigOfRest(a: Classes, b: Classes, k: nat)
    requires k <= |b|
    ensures NextSig(a + b, |a| + k) == NextSig(b, k)
    decreases |b| - k
  {
    if k < |b| {
      NextSigOfRest(a, b, k + 1);
    }
  }

  /** The run of a sequence that begins at position start, as the rules see it. */
  lemma {:induction false} NextSigOfRun(types: Classes, levels: seq<Level>, start: nat, end: nat)
    requires Marked(types, levels) && start <= end <= |types|
    ensures FirstSignificant(types, levels, start, end) == NextSig(types[start..end], 0)
    decreases end - start
  {
    if start < end {
      var run, rest := types[start..end], types[start + 1..end];
      assert run == [types[start]] + rest;
      NextSigOfRest([types[start]], rest, 0);
      NextSigOfRun(types, levels, start + 1, end);
    }
  }

  /** One more run behind a sequence. */
  lemma FollowedByRun(v: Classes, run: Classes)
    requires InitiatorsFollowed(v) && (v != [] ==> NextSig(run, 0) == Some(PDI))
    requires forall k :: 0 <= k < |run| - 1 ==> !IsIsoInit(run[k])
    ensures InitiatorsFollowed(v + run)
  {
    var w := v + run;
    forall k | 0 <= k < |w| && IsIsoInit(w[k]) ensures NextSig(w, k + 1) == None || NextSig(w, k + 1) == Some(PDI) {
      if k < |v| {
        NextSigOfSum(v, run, k + 1);
      }
    }
  }

  lemma ViewOfRange(types: Classes, start: nat, end: nat)
    requires start <= end <= |types|
    ensures InRange(Range(start, end), |types|) && View(types, Range(start, end)) == types[start..end]
  {
  }

  lemma RunHoldsInitiatorLast(types: Classes, levels: seq<Level>, r: Run)
    requires Marked(types, levels) && IsRun(types, levels, r)
    ensures forall k :: 0 <= k < r.end - r.start - 1 ==> !IsIsoInit(types[r.start..r.end][k])
  {
    forall k | 0 <= k < r.end - r.start - 1 ensures !IsIsoInit(types[r.start..r.end][k]) {
      assert levels[r.start + k] == NO_LEVEL ==> IsRemovedClass(types[r.start + k]);
    }
  }

  lemma ViewOfSum(types: Classes, a: seq<nat>, b: seq<nat>)
    requires InRange(a + b, |types|)
    ensures InRange(a, |types|) && InRange(b, |types|)
    ensures View(types, a + b) == View(types, a) + View(types, b)
  {
    assert forall k :: 0 <= k < |a| ==> a[k] == (a + b)[k];
    assert forall k :: 0 <= k < |b| ==> b[k] == (a + b)[|a| + k];
  }

  /** What the rules see of a sequence has nothing but PDIs behind its initiators. */
  lemma {:induction false} SequenceFollowed(types: Classes, levels: seq<Level>, runs: seq<Run>, chain: seq<nat>)
    requires Marked(types, levels) && AreLevelRuns(types, levels, 0, runs) && InText(types, levels, runs)
    requires Refers(runs, chain) && RunsLinked(types, levels, runs, chain)
    requires InRange(Indices(runs, chain), |types|)
    ensures InitiatorsFollowed(View(types, Indices(runs, chain)))
    decreases |chain|
  {
    if chain != [] {
      var last := |chain| - 1;
      var front, r := chain[..last], runs[chain[last]];
      assert RunAt(types, levels, 0, runs, chain[last]);
      forall x | 0 < x < |front| ensures LinkAt(types, levels, runs, front, x) {
        assert LinkAt(types, levels, runs, chain, x);
      }
      ViewOfSum(types, Indices(runs, front), Range(r.start, r.end));
      SequenceFollowed(types, levels, runs, front);
      if last > 0 {
        assert LinkAt(types, levels, runs, chain, last);
      }
      AppendRun(types, levels, r, View(types, Indices(runs, front)), last > 0);
    }
  }

  lemma AppendRun(types: Classes, levels: seq<Level>, r: Run, v: Classes, linked: bool)
    requires Marked(types, levels) && IsRun(types, levels, r) && InitiatorsFollowed(v) && (v != [] ==> linked)
    requires linked ==> FirstSignificant(types, levels, r.start, r.end) == Some(PDI)
    ensures InRange(Range(r.start, r.end), |types|)
    ensures InitiatorsFollowed(v + View(types, Range(r.start, r.end)))
  {
    ViewOfRange(types, r.start, r.end);
    NextSigOfRun(types, levels, r.start, r.end);
    RunHoldsInitiatorLast(types, levels, r);
    FollowedByRun(v, types[r.start..r.end]);
  }

  // ----- W1 on one sequence -----

  /** A mark never attaches to an initiator. */
  lemma {:induction false} BaseIsNoInitiator(v: Classes, k: nat, sos: BidiClass)
    requires InitiatorsFollowed(v) && k <= |v| && NextSig(v, k) == Some(NSM) && !IsIsoInit(sos)
    ensures !IsIsoInit(BaseClass(v, k, sos))
    decreases k
  {
    if k > 0 && (v[k - 1].NSM? || IsRemovedClass(v[k - 1])) {
      BaseIsNoInitiator(v, k - 1, sos);
    }
  }

  /** A mark whose base is a PDI. */
  predicate MarksPdi(v: Classes, sos: BidiClass, k: nat) {
    k < |v| && v[k].NSM? && BaseClass(v, k, sos).PDI?
  }

  /** On a sequence the two versions of W1 differ exactly if some mark attaches to a PDI. */
  lemma W1DiffersExactly(v: Classes, sos: BidiClass)
    requires InitiatorsFollowed(v) && (sos.L? || sos.R?)
    ensures W1(v, sos) != UaxW1(v, sos) <==> exists k: nat :: MarksPdi(v, sos, k)
  {
    forall k | 0 <= k < |v| ensures W1At(v, k, sos) != UaxW1At(v, k, sos) <==> MarksPdi(v, sos, k) {
      if v[k].NSM? {
        BaseIsNoInitiator(v, k, sos);
      }
    }
    if W1(v, sos) != UaxW1(v, sos) {
      var k: nat :| k < |v| && W1(v, sos)[k] != UaxW1(v, sos)[k];
      assert MarksPdi(v, sos, k);
    }
    if k: nat :| MarksPdi(v, sos, k) {
      assert W1(v, sos)[k] != UaxW1(v, sos)[k];
    }
  }

  lemma SequencesFollowed(types: Classes, levels: seq<Level>, base: Level, c: nat)
    requires Marked(types, levels) && c < |TextSequences(types, levels, base)|
    ensures var chain := TextSequences(types, levels, base)[c];
            InRange(chain.indices, |types|) && InitiatorsFollowed(View(types, chain.indices))
  {
    TextRunsAre(types, levels, base);
    var runs := TextRuns(types, levels, base);
    var list := Chains(types, levels, runs, {}, 0)[c];
    ChainsLinked(types, levels, runs, {}, 0);
    assert RunsLinked(types, levels, runs, list);
    SequencesCoverText(types, levels, runs);
    SequencesOk(types, levels, base);
    assert ChainOk(TextSequences(types, levels, base), |types|, c);
    SequenceFollowed(types, levels, runs, list);
  }

  /** So it is for every sequence of a text. */
  lemma TextW1DiffersExactly(types: Classes, levels: seq<Level>, base: Level, c: nat)
    requires Marked(types, levels) && c < |TextSequences(types, levels, base)|
    ensures var chain := TextSequences(types, levels, base)[c];
            && InRange(chain.indices, |types|)
            && var v := View(types, chain.indices);
               W1(v, chain.sos) != UaxW1(v, chain.sos) <==> exists k: nat :: MarksPdi(v, chain.sos, k)
  {
    SequencesFollowed(types, levels, base, c);
    SequencesOk(types, levels, base);
    var chain := TextSequences(types, levels, base)[c];
    assert ChainOk(TextSequences(types, levels, base), |types|, c);
    W1DiffersExactly(View(types, chain.indices), chain.sos);
  }

  // ----- a mark behind an initiator -----

  lemma {:induction false} FirstSignificantIs(types: Classes, levels: seq<Level>, start: nat, end: nat, q: nat)
    requires |types| == |levels| && start <= q < end <= |types|
    requires levels[q] != NO_LEVEL && forall k :: start <= k < q ==> levels[k] == NO_LEVEL
    ensures FirstSignificant(types, levels, start, end) == Some(types[q])
    decreases q - start
  {
    if start < q {
      FirstSignificantIs(types, levels, start + 1, end, q);
    }
  }

  lemma {:induction false} BaseOfFirst(v: Classes, k: nat, sos: BidiClass)
    requires k <= |v| && forall j :: 0 <= j < k ==> IsRemovedClass(v[j])
    ensures BaseClass(v, k, sos) == sos
    decreases k
  {
    if k > 0 {
      BaseOfFirst(v, k - 1, sos);
    }
  }

  lemma SignificantIn(types: Classes, levels: seq<Level>, runs: seq<Run>, k: nat) returns (s: nat)
    requires Marked(types, levels) && AreLevelRuns(types, levels, 0, runs) && k < |runs|
    ensures runs[k].start <= s < runs[k].end <= |types| && !IsRemovedClass(types[s])
  {
    assert RunAt(types, levels, 0, runs, k);
    s :| runs[k].start <= s < runs[k].end && levels[s] != NO_LEVEL;
  }

  /** The first significant character behind an initiator begins a level run. */
  lemma RunBehindInitiator(types: Classes, levels: seq<Level>, runs: seq<Run>, p: nat, q: nat) returns (k: nat)
    requires Marked(types, levels) && AreLevelRuns(types, levels, 0, runs)
    requires p < q < |types| && IsIsoInit(types[p]) && !IsRemovedClass(types[q])
    requires forall j :: p < j < q ==> IsRemovedClass(types[j])
    ensures k < |runs| && runs[k].start == p + 1 && q < runs[k].end
  {
    k := RunContaining(types, levels, 0, runs, q);
    var r := RunContaining(types, levels, 0, runs, p);
    assert RunAt(types, levels, 0, runs, r) && RunAt(types, levels, 0, runs, k);
    assert runs[r].end == p + 1;
    if k < r {
      RunsAscend(types, levels, 0, runs, k, r);
    } else {
      var before := k - 1;
      var s := SignificantIn(types, levels, runs, before);
    }
  }

  /** A run that does not begin with a PDI begins its sequence. */
  lemma BeginsSequence(types: Classes, levels: seq<Level>, base: Level, k: nat) returns (c: nat)
    requires |types| == |levels| && k < |TextRuns(types, levels, base)|
    requires var r := TextRuns(types, levels, base)[k];
             && r.start < r.end <= |types|
             && FirstSignificant(types, levels, r.start, r.end) != Some(PDI)
    ensures c < |TextSequences(types, levels, base)|
    ensures var chain := TextSequences(types, levels, base)[c];
            && Refers(TextRuns(types, levels, base), chain.runs)
            && chain.runs != [] && chain.runs[0] == k
            && chain.indices == Indices(TextRuns(types, levels, base), chain.runs)
  {
    var runs := TextRuns(types, levels, base);
    TextRunsAre(types, levels, base);
    var lists := Chains(types, levels, runs, {}, 0);
    ChainsPartition(types, levels, runs, {}, 0);
    SequencesCoverText(types, levels, runs);
    ChainsLinked(types, levels, runs, {}, 0);
    assert Owned(lists, k);
    c :| 0 <= c < |lists| && k in lists[c];
    var x: nat :| x < |lists[c]| && lists[c][x] == k;
    assert lists[c] in lists;
    assert x > 0 ==> LinkAt(types, levels, runs, lists[c], x);
  }

  /** A mark that is the first significant character of its sequence takes sos. */
  lemma FirstMarkTakesSos(v: Classes, x: nat, sos: BidiClass)
    requires x < |v| && v[x].NSM? && (sos.L? || sos.R?) && forall j :: 0 <= j < x ==> IsRemovedClass(v[j])
    ensures W1At(v, x, sos) == UaxW1At(v, x, sos) == sos
  {
    BaseOfFirst(v, x, sos);
  }

  /** With nothing but removed characters before it, a mark behind an isolate initiator begins its
      own sequence and takes sos, in the code and by UAX #9. */
  lemma MarkBehindInitiator(types: Classes, levels: seq<Level>, base: Level, p: nat, q: nat) returns (c: nat, x: nat)
    requires Marked(types, levels) && p < q < |types| && IsIsoInit(types[p]) && types[q].NSM?
    requires forall j :: p < j < q ==> IsRemovedClass(types[j])
    ensures c < |TextSequences(types, levels, base)|
    ensures var chain := TextSequences(types, levels, base)[c];
            && InRange(chain.indices, |types|) && x < |chain.indices| && chain.indices[x] == q
            && var v := View(types, chain.indices);
               W1At(v, x, chain.sos) == UaxW1At(v, x, chain.sos) == chain.sos
  {
    c := SequenceBehindInitiator(types, levels, base, p, q);
    x := q - p - 1;
    SequencesOk(types, levels, base);
    var chain := TextSequences(types, levels, base)[c];
    assert ChainOk(TextSequences(types, levels, base), |types|, c);
    FirstMarkTakesSos(View(types, chain.indices), x, chain.sos);
  }

  lemma SequenceBehindInitiator(types: Classes, levels: seq<Level>, base: Level, p: nat, q: nat) returns (c: nat)
    requires Marked(types, levels) && p < q < |types| && IsIsoInit(types[p]) && types[q].NSM?
    requires forall j :: p < j < q ==> IsRemovedClass(types[j])
    ensures c < |TextSequences(types, levels, base)|
    ensures var indices := TextSequences(types, levels, base)[c].indices;
            |indices| >= q - p && forall j :: 0 <= j < q - p ==> indices[j] == p + 1 + j
  {
    TextRunsAre(types, levels, base);
    var runs := TextRuns(types, levels, base);
    var k := RunBehindInitiator(types, levels, runs, p, q);
    FirstSignificantIs(types, levels, p + 1, runs[k].end, q);
    c := BeginsSequence(types, levels, base, k);
    IndicesBegin(runs, TextSequences(types, levels, base)[c].runs);
  }

  // ----- the difference is gone after N2 -----

  /** The same classes, except that marks may be isolate controls in the one and ON in the other. */
  predicate Alike(nsm: seq<bool>, a: Classes, b: Classes) {
    && |nsm| == |a| == |b|
    && forall k :: 0 <= k < |a| ==> a[k] == b[k] || (nsm[k] && IsIsoControl(a[k]) && b[k].ON?)
  }

  lemma {:induction false} AlikeStrong(nsm: seq<bool>, a: Classes, b: Classes, k: nat, sos: BidiClass)
    requires Alike(nsm, a, b) && k <= |a|
    ensures LastStrong(a, k, sos) == LastStrong(b, k, sos) && LastDirection(a, k, sos) == LastDirection(b, k, sos)
    decreases k
  {
    if k > 0 {
      AlikeStrong(nsm, a, b, k - 1, sos);
    }
  }

  lemma {:induction false} AlikePrev(nsm: seq<bool>, a: Classes, b: Classes, k: nat, sos: BidiClass)
    requires Alike(nsm, a, b) && k <= |a|
    ensures PrevSide(a, k, sos) == PrevSide(b, k, sos)
    decreases k
  {
    if k > 0 {
      AlikePrev(nsm, a, b, k - 1, sos);
    }
  }

  lemma {:induction false} AlikeNext(nsm: seq<bool>, a: Classes, b: Classes, k: nat, eos: BidiClass)
    requires Alike(nsm, a, b) && k <= |a|
    ensures NextSide(a, k, eos) == NextSide(b, k, eos)
    decreases |a| - k
  {
    if k < |a| {
      AlikeNext(nsm, a, b, k + 1, eos);
    }
  }

  predicate SameNumber(x: Option<BidiClass>, y: Option<BidiClass>) {
    (x == Some(EN) <==> y == Some(EN)) && (x == Some(AN) <==> y == Some(AN))
  }

  lemma {:induction false} AlikePrevSig(nsm: seq<bool>, a: Classes, b: Classes, k: nat)
    requires Alike(nsm, a, b) && k <= |a|
    ensures SameNumber(PrevSig(a, k), PrevSig(b, k))
    decreases k
  {
    if k > 0 {
      AlikePrevSig(nsm, a, b, k - 1);
    }
  }

  lemma {:induction false} AlikeNextSig(nsm: seq<bool>, a: Classes, b: Classes, k: nat)
    requires Alike(nsm, a, b) && k <= |a|
    ensures SameNumber(NextSig(a, k), NextSig(b, k))
    decreases |a| - k
  {
    if k < |a| {
      AlikeNextSig(nsm, a, b, k + 1);
    }
  }

  lemma AlikeTouched(nsm: seq<bool>, a: Classes, b: Classes, k: nat)
    requires Alike(nsm, a, b) && k < |a|
    ensures Touched(a, k, |a|) <==> Touched(b, k, |b|)
  {
    forall m: nat, n: nat ensures Bridge(a, m, n) <==> Bridge(b, m, n) {
    }
  }

  predicate IsLaterPass(pass: Pass) {
    pass.PassW2? || pass.PassW3? || pass.PassW4? || pass.PassW5? || pass.PassW6? || pass.PassW7?
  }

  lemma AlikeWeakPass(nsm: seq<bool>, pass: Pass, chain: IsolatingRunSequence, a: Classes, b: Classes)
    requires Alike(nsm, a, b) && IsLaterPass(pass)
    ensures Alike(nsm, Rewrite(pass, chain, a), Rewrite(pass, chain, b))
  {
    var a', b' := Rewrite(pass, chain, a), Rewrite(pass, chain, b);
    forall k | 0 <= k < |a|
      ensures a'[k] == b'[k] || (nsm[k] && IsIsoControl(a'[k]) && b'[k].ON?)
    {
      AlikeStrong(nsm, a, b, k, chain.sos);
      AlikePrevSig(nsm, a, b, k);
      AlikeNextSig(nsm, a, b, k + 1);
      AlikeTouched(nsm, a, b, k);
    }
  }

  lemma AlikeNeutralPass(nsm: seq<bool>, pass: Pass, chain: IsolatingRunSequence, a: Classes, b: Classes)
    requires Alike(nsm, a, b) && (pass.PassN1? || pass.PassN2?)
    ensures Alike(nsm, Rewrite(pass, chain, a), Rewrite(pass, chain, b))
    ensures pass.PassN2? ==> Rewrite(pass, chain, a) == Rewrite(pass, chain, b)
  {
    var a', b' := Rewrite(pass, chain, a), Rewrite(pass, chain, b);
    forall k | 0 <= k < |a|
      ensures a'[k] == b'[k] || (pass.PassN1? && nsm[k] && IsIsoControl(a'[k]) && b'[k].ON?)
    {
      AlikePrev(nsm, a, b, k, chain.sos);
      AlikeNext(nsm, a, b, k + 1, chain.eos);
    }
  }

  lemma {:induction false} AlikePasses(nsm: seq<bool>, passes: seq<Pass>, chain: IsolatingRunSequence, a: Classes, b: Classes, n: nat)
    requires Alike(nsm, a, b) && n <= |passes|
    requires forall k :: 0 <= k < n ==> IsLaterPass(passes[k])
    ensures Alike(nsm, RewriteAll(passes, chain, a, n), RewriteAll(passes, chain, b, n))
    decreases n
  {
    if n > 0 {
      AlikePasses(nsm, passes, chain, a, b, n - 1);
      AlikeWeakPass(nsm, passes[n - 1], chain, RewriteAll(passes, chain, a, n - 1), RewriteAll(passes, chain, b, n - 1));
    }
  }

  lemma {:induction false} AlikeFixMarks(nsm: seq<bool>, a: Classes, b: Classes, from: nat, end: nat, bc: BidiClass)
    requires Alike(nsm, a, b) && from <= end <= |a|
    ensures Alike(nsm, FixMarks(a, nsm, from, end, bc), FixMarks(b, nsm, from, end, bc))
    decreases end - from
  {
    if from < end {
      if nsm[from] {
        AlikeFixMarks(nsm, a[from := bc], b[from := bc], from + 1, end, bc);
      } else if IsRemovedClass(a[from]) {
        AlikeFixMarks(nsm, a, b, from + 1, end, bc);
      }
    }
  }

  lemma AlikeEncloses(nsm: seq<bool>, a: Classes, b: Classes, from: nat, end: nat, d: Direction)
    requires Alike(nsm, a, b)
    ensures Encloses(a, from, end, d) <==> Encloses(b, from, end, d)
  {
    assert forall k :: 0 <= k < |a| ==> StrongDirection(a[k]) == StrongDirection(b[k]);
  }

  lemma AlikeSetPair(nsm: seq<bool>, a: Classes, b: Classes, pair: Pair, d: Direction)
    requires Alike(nsm, a, b) && PairIn(pair, |a|)
    ensures Alike(nsm, SetPair(a, nsm, pair, d), SetPair(b, nsm, pair, d))
  {
    var bc := d.AsBidiClass();
    var a', b' := a[pair.opening := bc][pair.closing := bc], b[pair.opening := bc][pair.closing := bc];
    AlikeFixMarks(nsm, a', b', pair.opening + 1, pair.closing, bc);
    AlikeFixMarks(nsm, FixMarks(a', nsm, pair.opening + 1, pair.closing, bc),
                  FixMarks(b', nsm, pair.opening + 1, pair.closing, bc), pair.closing + 1, |a|, bc);
  }

  lemma AlikePair(nsm: seq<bool>, a: Classes, b: Classes, pair: Pair, embedding: Direction, sos: BidiClass)
    requires Alike(nsm, a, b) && PairIn(pair, |a|)
    ensures Alike(nsm, ResolvePair(a, nsm, pair, embedding, sos), ResolvePair(b, nsm, pair, embedding, sos))
  {
    AlikePrev(nsm, a, b, pair.opening, sos);
    AlikeEncloses(nsm, a, b, pair.opening, pair.closing, embedding);
    AlikeEncloses(nsm, a, b, pair.opening, pair.closing, embedding.Opposite());
    assert PairDirection(a, pair, embedding, sos) == PairDirection(b, pair, embedding, sos);
    match PairDirection(a, pair, embedding, sos)
    case None =>
    case Some(d) => AlikeSetPair(nsm, a, b, pair, d);
  }

  lemma {:induction false} AlikePairs(nsm: seq<bool>, a: Classes, b: Classes, pairs: seq<Pair>, n: nat, embedding: Direction, sos: BidiClass)
    requires Alike(nsm, a, b) && PairsIn(pairs, |a|) && n <= |pairs|
    ensures Alike(nsm, ResolvePairs(a, nsm, pairs, n, embedding, sos), ResolvePairs(b, nsm, pairs, n, embedding, sos))
    decreases n
  {
    if n > 0 {
      AlikePairs(nsm, a, b, pairs, n - 1, embedding, sos);
      AlikePair(nsm, ResolvePairs(a, nsm, pairs, n - 1, embedding, sos), ResolvePairs(b, nsm, pairs, n - 1, embedding, sos),
                pairs[n - 1], embedding, sos);
    }
  }

  /** N0 pairs the same brackets in both, if no mark is a bracket. */
  lemma AlikeN0(nsm: seq<bool>, a: Classes, b: Classes, chars: seq<char>, table: BracketTable, level: Level, sos: BidiClass)
    requires Alike(nsm, a, b) && |chars| == |nsm| && MarksAreNoBrackets(nsm, chars, table)
    ensures match N0(a, nsm, chars, table, level, sos)
            case None => N0(b, nsm, chars, table, level, sos).None?
            case Some(r) => N0(b, nsm, chars, table, level, sos).Some? && Alike(nsm, r, N0(b, nsm, chars, table, level, sos).value)
  {
    var marks := MarksOf(a, chars, table);
    assert marks == MarksOf(b, chars, table);
    if s :| Pairing(marks, |marks|) == Some(s) {
      PairsOfChain(marks);
      AlikePairs(nsm, a, b, SortByOpening(s.pairs), |SortByOpening(s.pairs)|, DirectionOf(level), sos);
    }
  }

  // ----- the whole text -----

  const UAX_PASSES: seq<Pass> := [PassUaxW1, PassW2, PassW3, PassW4, PassW5, PassW6, PassW7]
  const LATER_PASSES: seq<Pass> := [PassW2, PassW3, PassW4, PassW5, PassW6, PassW7]

  /** The classes after W1 to N2 with the W1 of UAX #9. */
  ghost function UaxClasses(orig: Classes, chars: seq<char>, table: BracketTable, types: Classes,
                            chains: seq<IsolatingRunSequence>): (r: Classes)
    requires ChainsOk(chains, |types|) && |orig| == |types| && (chars == [] || |chars| == |types|)
    ensures |r| == |types|
  {
    var weak := RunPasses(UAX_PASSES, types, chains, |UAX_PASSES|);
    RunPasses(NEUTRAL_PASSES, AfterN0(orig, chars, table, weak, chains), chains, |NEUTRAL_PASSES|)
  }

  lemma {:induction false} FirstPass(first: Pass, chain: IsolatingRunSequence, v: Classes, n: nat)
    requires n <= |LATER_PASSES|
    ensures RewriteAll([first] + LATER_PASSES, chain, v, n + 1)
            == RewriteAll(LATER_PASSES, chain, Rewrite(first, chain, v), n)
    decreases n
  {
    if n > 0 {
      FirstPass(first, chain, v, n - 1);
    } else {
      assert RewriteAll([first] + LATER_PASSES, chain, v, 0) == v;
    }
  }

  /** A chain after the weak rules of the code and of UAX #9. */
  lemma AlikeWeak(nsm: seq<bool>, chain: IsolatingRunSequence, v: Classes)
    requires |nsm| == |v| && forall k :: 0 <= k < |v| && v[k].NSM? ==> nsm[k]
    ensures Alike(nsm, RewriteAll(WEAK_PASSES, chain, v, 7), RewriteAll(UAX_PASSES, chain, v, 7))
  {
    assert WEAK_PASSES == [PassW1] + LATER_PASSES && UAX_PASSES == [PassUaxW1] + LATER_PASSES;
    FirstPass(PassW1, chain, v, 6);
    FirstPass(PassUaxW1, chain, v, 6);
    AlikePasses(nsm, LATER_PASSES, chain, W1(v, chain.sos), UaxW1(v, chain.sos), 6);
  }

  lemma AlikeNeutral(nsm: seq<bool>, chain: IsolatingRunSequence, a: Classes, b: Classes)
    requires Alike(nsm, a, b)
    ensures NeutralPart(chain, a) == NeutralPart(chain, b)
  {
    AlikeNeutralPass(nsm, PassN1, chain, a, b);
    AlikeNeutralPass(nsm, PassN2, chain, Rewrite(PassN1, chain, a), Rewrite(PassN1, chain, b));
    forall v: Classes ensures NeutralPart(chain, v) == Rewrite(PassN2, chain, Rewrite(PassN1, chain, v)) {
      assert RewriteAll(NEUTRAL_PASSES, chain, v, 1) == Rewrite(PassN1, chain, v);
    }
  }

  /** The two texts N0 finds: the same but for marks on every chain. */
  ghost predicate AlikeOn(t: BracketText, u: BracketText, c: nat)
    requires Fit(t) && Fit(u) && t.chains == u.chains && t.orig == u.orig && |t.types| == |u.types| && c < |t.chains|
  {
    var a, b := Shown(t, c), Shown(u, c);
    Alike(OriginalMarks(t.orig, t.chains[c].indices), a, b)
  }

  /** No original nonspacing mark of the text is a bracket. */
  predicate NoMarkIsBracket(orig: Classes, chars: seq<char>, table: BracketTable)
    requires |orig| == |chars|
  {
    forall p :: 0 <= p < |orig| && orig[p].NSM? ==> chars[p] !in table
  }

  lemma AlikeOwnN0(t: BracketText, u: BracketText, c: nat)
    requires Fit(t) && Fit(u) && u == t.(types := u.types) && |t.types| == |u.types| && c < |t.chains| && AlikeOn(t, u, c)
    requires NoMarkIsBracket(t.orig, t.chars, t.table)
    ensures OwnN0(t, c).None? <==> OwnN0(u, c).None?
    ensures InRange(t.chains[c].indices, |t.types|)
    ensures OwnN0(t, c).Some? ==> Alike(OriginalMarks(t.orig, t.chains[c].indices), OwnN0(t, c).value, OwnN0(u, c).value)
  {
    var a, b := Shown(t, c), Shown(u, c);
    var indices := t.chains[c].indices;
    var nsm, chars := OriginalMarks(t.orig, indices), View(t.chars, indices);
    AlikeN0(nsm, a, b, chars, t.table, t.chains[c].level, t.chains[c].sos);
  }

  /** The text as N0 finds it with the W1 of UAX #9. */
  ghost function UaxBeforeN0(orig: Classes, chars: seq<char>, table: BracketTable, types: Classes,
                             chains: seq<IsolatingRunSequence>): (t: BracketText)
    requires ChainsOk(chains, |types|) && |orig| == |chars| == |types|
    ensures Fit(t)
  {
    BracketText(orig, chars, table, RunPasses(UAX_PASSES, types, chains, 7), chains)
  }

  lemma AlikeBeforeN0(orig: Classes, chars: seq<char>, table: BracketTable, types: Classes,
                      chains: seq<IsolatingRunSequence>, c: nat)
    requires ChainsOk(chains, |types|) && |orig| == |chars| == |types| && c < |chains|
    requires forall p :: 0 <= p < |types| && types[p].NSM? ==> orig[p].NSM?
    ensures AlikeOn(BeforeN0(orig, chars, table, types, chains), UaxBeforeN0(orig, chars, table, types, chains), c)
  {
    assert ChainOk(chains, |types|, c);
    PassesView(WEAK_PASSES, types, chains, 7, c);
    PassesView(UAX_PASSES, types, chains, 7, c);
    AlikeWeak(OriginalMarks(orig, chains[c].indices), chains[c], View(types, chains[c].indices));
  }

  /** Both versions leave the same classes on every chain. */
  lemma SameOnChain(t: BracketText, u: BracketText, c: nat)
    requires Fit(t) && Fit(u) && u == t.(types := u.types) && |t.types| == |u.types| && c < |t.chains| && t.chars != []
    requires forall d: nat :: d <= c ==> AlikeOn(t, u, d)
    requires NoMarkIsBracket(t.orig, t.chars, t.table)
    ensures InRange(t.chains[c].indices, |t.types|)
    ensures View(RunPasses(NEUTRAL_PASSES, AfterN0(t.orig, t.chars, t.table, t.types, t.chains), t.chains, 2), t.chains[c].indices)
         == View(RunPasses(NEUTRAL_PASSES, AfterN0(u.orig, u.chars, u.table, u.types, u.chains), u.chains, 2), t.chains[c].indices)
  {
    NeutralAfterN0(t, c);
    NeutralAfterN0(u, c);
    forall d: nat | d <= c ensures OwnN0(t, d).None? <==> OwnN0(u, d).None? {
      AlikeOwnN0(t, u, d);
    }
    assert OverflowIn(t, c + 1) <==> OverflowIn(u, c + 1);
    AlikeOwnN0(t, u, c);
    var nsm, overflow := OriginalMarks(t.orig, t.chains[c].indices), OverflowIn(t, c + 1);
    assert AlikeOn(t, u, c);
    assert !overflow ==> OwnN0(t, c).Some?;
    AlikeNeutral(nsm, t.chains[c], if overflow then Shown(t, c) else OwnN0(t, c).value,
                 if overflow then Shown(u, c) else OwnN0(u, c).value);
  }

  /** The same on every chain, also when there are no characters to look at. */
  lemma SameFinalOnChain(orig: Classes, chars: seq<char>, table: BracketTable, types: Classes,
                         chains: seq<IsolatingRunSequence>, c: nat)
    requires ChainsOk(chains, |types|) && |orig| == |types| && (chars == [] || |chars| == |types|) && c < |chains|
    requires forall p :: 0 <= p < |types| && types[p].NSM? ==> orig[p].NSM?
    requires chars == [] || NoMarkIsBracket(orig, chars, table)
    ensures InRange(chains[c].indices, |types|)
    ensures View(FinalClasses(orig, chars, table, types, chains), chains[c].indices)
         == View(UaxClasses(orig, chars, table, types, chains), chains[c].indices)
  {
    assert ChainOk(chains, |types|, c);
    if chars == [] {
      var seen := View(types, chains[c].indices);
      PassesView(WEAK_PASSES, types, chains, 7, c);
      PassesView(UAX_PASSES, types, chains, 7, c);
      AlikeWeak(OriginalMarks(orig, chains[c].indices), chains[c], seen);
      PassesView(NEUTRAL_PASSES, RunPasses(WEAK_PASSES, types, chains, 7), chains, 2, c);
      PassesView(NEUTRAL_PASSES, RunPasses(UAX_PASSES, types, chains, 7), chains, 2, c);
      AlikeNeutral(OriginalMarks(orig, chains[c].indices), chains[c],
                   RewriteAll(WEAK_PASSES, chains[c], seen, 7), RewriteAll(UAX_PASSES, chains[c], seen, 7));
    } else {
      forall d: nat | d <= c
        ensures AlikeOn(BeforeN0(orig, chars, table, types, chains), UaxBeforeN0(orig, chars, table, types, chains), d)
      {
        AlikeBeforeN0(orig, chars, table, types, chains, d);
      }
      SameOnChain(BeforeN0(orig, chars, table, types, chains), UaxBeforeN0(orig, chars, table, types, chains), c);
    }
  }

  lemma OutsideChains(orig: Classes, chars: seq<char>, table: BracketTable, types: Classes,
                      chains: seq<IsolatingRunSequence>, p: nat)
    requires ChainsOk(chains, |types|) && |orig| == |types| && (chars == [] || |chars| == |types|) && p < |types|
    requires forall c :: 0 <= c < |chains| ==> p !in chains[c].indices
    ensures FinalClasses(orig, chars, table, types, chains)[p] == UaxClasses(orig, chars, table, types, chains)[p] == types[p]
  {
    forall passes: seq<Pass> | |passes| == 7
      ensures var weak := RunPasses(passes, types, chains, 7);
              RunPasses(NEUTRAL_PASSES, AfterN0(orig, chars, table, weak, chains), chains, 2)[p] == types[p]
    {
      var weak := RunPasses(passes, types, chains, 7);
      PassesFrame(passes, types, chains, 7, p);
      if chars != [] {
        N0Frame(orig, chars, table, weak, chains, |chains|, p);
      }
      PassesFrame(NEUTRAL_PASSES, AfterN0(orig, chars, table, weak, chains), chains, 2, p);
    }
  }

  /** If no mark is a bracket, the two versions of W1 lead to the same classes after N2. */
  lemma MarkRuleIsUax(orig: Classes, chars: seq<char>, table: BracketTable, types: Classes, chains: seq<IsolatingRunSequence>)
    requires ChainsOk(chains, |types|) && |orig| == |types| && (chars == [] || |chars| == |types|)
    requires forall p :: 0 <= p < |types| && types[p].NSM? ==> orig[p].NSM?
    requires chars == [] || NoMarkIsBracket(orig, chars, table)
    ensures FinalClasses(orig, chars, table, types, chains) == UaxClasses(orig, chars, table, types, chains)
  {
    var a, b := FinalClasses(orig, chars, table, types, chains), UaxClasses(orig, chars, table, types, chains);
    forall p | 0 <= p < |types| ensures a[p] == b[p] {
      if c :| 0 <= c < |chains| && p in chains[c].indices {
        SameFinalOnChain(orig, chars, table, types, chains, c);
        var k :| 0 <= k < |chains[c].indices| && chains[c].indices[k] == p;
        assert View(a, chains[c].indices)[k] == View(b, chains[c].indices)[k];
      } else {
        OutsideChains(orig, chars, table, types, chains, p);
      }
    }
  }

  /** The classes of a paragraph with the W1 of UAX #9. */
  ghost function UaxResolved(orig: Classes, base: Level, chars: seq<char>, table: BracketTable): (r: Classes)
    requires Processed(orig, base) && (chars == [] || |chars| == |orig|)
    ensures |r| == |orig|
  {
    var types, levels := ExplicitClasses(orig, base), ExplicitLevelsOf(orig, base);
    SequencesOk(types, levels, base);
    UaxClasses(orig, chars, table, types, TextSequences(types, levels, base))
  }

  /** So for paragraphs the code's W1 gives what that of UAX #9 gives. */
  lemma ParagraphMarkRuleIsUax(orig: Classes, base: Level, chars: seq<char>, table: BracketTable)
    requires Processed(orig, base) && (chars == [] || |chars| == |orig|)
    requires chars == [] || NoMarkIsBracket(orig, chars, table)
    ensures ResolvedClasses(orig, base, chars, table) == UaxResolved(orig, base, chars, table)
  {
    var types, levels := ExplicitClasses(orig, base), ExplicitLevelsOf(orig, base);
    SequencesOk(types, levels, base);
    MarkRuleIsUax(orig, chars, table, types, TextSequences(types, levels, base));
  }

  // ----- an input on which they differ in between -----

  const PDI_MARK: Classes := [LRI, PDI, NSM]
  const ZEROES: seq<Level> := [0, 0, 0]

  lemma PdiMarkSteps()
    ensures StateAt(PDI_MARK, 0, MAX_DEPTH, 1) == Some(State([Entry(0, Neutral, false), Entry(2, Neutral, true)], 0, 0, 1))
    ensures StateAt(PDI_MARK, 0, MAX_DEPTH, 2) == Some(Initial(0)) && StateAt(PDI_MARK, 0, MAX_DEPTH, 3) == Some(Initial(0))
  {
    var s, t := Initial(0), State([Entry(0, Neutral, false), Entry(2, Neutral, true)], 0, 0, 1);
    assert StateAt(PDI_MARK, 0, MAX_DEPTH, 0) == Some(s);
    assert s.stack + [Entry(2, Neutral, true)] == t.stack && t.stack[..1] == s.stack;
    assert s.Top() == Entry(0, Neutral, false) && LeastGreater(0, false) == Some(2) && Opens(s, false);
    assert Step(s, LRI, false, MAX_DEPTH) == Some(t);
    assert PopThroughIsolate(t.stack) == Some(t.stack[..1]);
    assert Step(t, PDI, false, MAX_DEPTH) == Some(s);
  }

  lemma PdiMarkExplicit()
    ensures Processed(PDI_MARK, 0)
    ensures ExplicitClasses(PDI_MARK, 0) == PDI_MARK && ExplicitLevelsOf(PDI_MARK, 0) == ZEROES
  {
    PdiMarkSteps();
    assert StateAt(PDI_MARK, 0, MAX_DEPTH, 0) == Some(Initial(0));
    assert Initial(0).Top() == Entry(0, Neutral, false);
    assert ExplicitLevel(PDI_MARK, 0, MAX_DEPTH, 0) == 0 && ExplicitClass(PDI_MARK, 0, MAX_DEPTH, 0) == LRI;
    assert ExplicitLevel(PDI_MARK, 0, MAX_DEPTH, 1) == 0 && ExplicitClass(PDI_MARK, 0, MAX_DEPTH, 1) == PDI;
    assert ExplicitLevel(PDI_MARK, 0, MAX_DEPTH, 2) == 0 && ExplicitClass(PDI_MARK, 0, MAX_DEPTH, 2) == NSM;
  }

  /** An initiator and two other characters of its level. */
  lemma InitiatorApart(types: Classes, levels: seq<Level>)
    requires |types| == |levels| == 3 && levels[0] == levels[1] == levels[2] == 0
    requires IsIsoInit(types[0]) && !IsIsoInit(types[1])
    ensures AreLevelRuns(types, levels, 0, [Span(0, 1, 0), Span(1, 3, 0)])
  {
    var plain := [Span(0, 1, 0), Span(1, 3, 0)];
    assert RunAt(types, levels, 0, plain, 0);
    assert RunAt(types, levels, 0, plain, 1);
  }

  predicate TwoRuns(runs: seq<Run>) {
    && |runs| == 2 && runs[0].start == 0 && runs[0].end == runs[1].start == 1 && runs[1].end == 3
    && runs[0].level == runs[1].level == 0
  }

  lemma PdiMarkRuns()
    ensures TwoRuns(TextRuns(PDI_MARK, ZEROES, 0))
  {
    InitiatorApart(PDI_MARK, ZEROES);
    RunsAreLevelRuns(PDI_MARK, ZEROES, 0);
    LevelRunsSame(PDI_MARK, ZEROES, 0, [Span(0, 1, 0), Span(1, 3, 0)], RunsFrom(PDI_MARK, ZEROES, 0));
  }

  lemma PdiMarkChains(runs: seq<Run>)
    requires TwoRuns(runs) && InText(PDI_MARK, ZEROES, runs)
    ensures Chains(PDI_MARK, ZEROES, runs, {}, 0) == [[0, 1]]
  {
    assert FirstSignificant(PDI_MARK, ZEROES, 1, 3) == Some(PDI);
    assert Follow(PDI_MARK, ZEROES, runs, {}, 1, 0) == [1];
    assert ChainFrom(PDI_MARK, ZEROES, runs, {}, 0) == [0, 1];
    var taken := {} + Elements([0, 1]);
    assert 1 in [0, 1];
    assert Chains(PDI_MARK, ZEROES, runs, taken, 2) == [];
    assert Chains(PDI_MARK, ZEROES, runs, taken, 1) == [];
  }

  lemma PdiMarkIndices(runs: seq<Run>)
    requires TwoRuns(runs)
    ensures Indices(runs, [0, 1]) == [0, 1, 2]
  {
    assert [0, 1][..1] == [0] && [0][..0] == [];
    assert Indices(runs, [0]) == [] + Range(0, 1);
    assert Indices(runs, [0, 1]) == Indices(runs, [0]) + Range(1, 3);
  }

  lemma PdiMarkW1(sos: BidiClass)
    ensures W1(PDI_MARK, sos) == [LRI, PDI, PDI] && UaxW1(PDI_MARK, sos) == [LRI, PDI, ON]
  {
    assert BaseClass(PDI_MARK, 2, sos) == PDI;
  }

  lemma PdiMarkSequences()
    ensures var chains := TextSequences(PDI_MARK, ZEROES, 0); |chains| == 1 && chains[0].indices == [0, 1, 2]
  {
    var runs := TextRuns(PDI_MARK, ZEROES, 0);
    TextRunsAre(PDI_MARK, ZEROES, 0);
    PdiMarkRuns();
    PdiMarkChains(runs);
    PdiMarkIndices(runs);
  }

  /** A mark behind a PDI: the code makes it a PDI, UAX #9 makes it ON. */
  lemma PdiMarkDiffers()
    ensures Processed(PDI_MARK, 0)
    ensures var chains := TextSequences(ExplicitClasses(PDI_MARK, 0), ExplicitLevelsOf(PDI_MARK, 0), 0);
            && |chains| == 1 && chains[0].indices == [0, 1, 2]
            && W1(PDI_MARK, chains[0].sos) == [LRI, PDI, PDI] && UaxW1(PDI_MARK, chains[0].sos) == [LRI, PDI, ON]
  {
    PdiMarkExplicit();
    PdiMarkSequences();
    PdiMarkW1(TextSequences(PDI_MARK, ZEROES, 0)[0].sos);
  }
}
