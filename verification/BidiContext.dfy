/** The bidi context: a paragraph's classes, levels and runs, which every rule rewrites in
    place. Each method is proved against the functions of ParagraphSpec and below. */
module BidiContexts {
  import opened Sequences
  import opened Wrappers
  import opened BidiTypes
  import opened LevelStacks
  import opened EmbeddingStates
  import X = ExplicitLevels
  import opened LevelRuns
  import opened IsolatingRuns
  import opened WeakRules
  import opened NeutralRules
  import opened Brackets
  import opened BracketRules
  import opened TextChains
  import opened ChainScans
  import opened Pipeline
  import opened ParagraphSpec
  import opened LineLevels
  import opened LineOrder
  import R = ReorderedRuns

  /** The runs the code makes of a display order: they list it up to some position, and all of it
      exactly if the line starts the paragraph or shows nothing. */
  predicate ListedRuns(line: seq<Level>, start: nat, order: seq<int>, r: Option<seq<R.ReorderedRun>>) {
    match r
    case None => !R.InLine(line, order)
    case Some(runs) =>
      && R.InLine(line, order) && runs == R.RunsOf(R.Kept(R.LookedUp(line, order)), order, 0)
      && R.AllIndices(runs) <= order && (R.AllIndices(runs) == order <==> start == 0 || order == [])
  }

  /** What character idx does to the vectors, given the state before and after it. */
  predicate Assigned(base: Level, types: Classes, levels: seq<Level>, idx: nat, before: X.State, after: X.State,
                     types': Classes, levels': seq<Level>)
    requires idx < |types| == |levels|
    requires before.stack != [] && after.stack != []
  {
    var bc := types[idx];
    if IsRemovedClass(bc) then types' == types && levels' == levels
    else if bc.B? then types' == types && levels' == levels[idx := base]
    else
      var e := if bc.PDI? then after.Top() else before.Top();
      levels' == levels[idx := e.level] && types' == types[idx := ApplyOverride(e.over, bc)]
  }

  predicate ExplicitAt(orig: Classes, base: Level, types: Classes, levels: seq<Level>, p: nat)
    requires 0 <= base <= 1 && p < |orig| == |types| == |levels|
  {
    && X.StateAt(orig, base, MAX_DEPTH, p + 1).Some?
    && types[p] == X.ExplicitClass(orig, base, MAX_DEPTH, p)
    && (IsRemovedClass(orig[p]) || levels[p] == X.ExplicitLevel(orig, base, MAX_DEPTH, p))
  }

  /** The vectors after the first n characters; the level of a removed character is still
      whatever an earlier use of the context left there. */
  ghost predicate ExplicitUpTo(orig: Classes, base: Level, types: Classes, levels: seq<Level>, n: nat)
    requires 0 <= base <= 1
  {
    && n <= |orig| == |types| == |levels|
    && (forall p {:trigger ExplicitAt(orig, base, types, levels, p)} :: 0 <= p < n ==> ExplicitAt(orig, base, types, levels, p))
    && types[n..] == orig[n..]
  }

  lemma SameInitiator(orig: Classes, types: Classes, idx: nat)
    requires idx < |orig| == |types| && types[idx..] == orig[idx..]
    ensures types[idx] == orig[idx] && X.OpensOdd(types, idx) == X.OpensOdd(orig, idx)
  {
    assert types[idx] == types[idx..][0];
    assert types[idx + 1..] == types[idx..][1..];
    assert orig[idx + 1..] == orig[idx..][1..];
  }

  lemma ExplicitNext(orig: Classes, base: Level, types: Classes, levels: seq<Level>, idx: nat,
                     before: X.State, after: X.State, types': Classes, levels': seq<Level>)
    requires 0 <= base <= 1 && idx < |orig| && ExplicitUpTo(orig, base, types, levels, idx)
    requires X.StateAt(orig, base, MAX_DEPTH, idx) == Some(before) && types[idx] == orig[idx]
    requires X.Step(before, orig[idx], X.OpensOdd(orig, idx), MAX_DEPTH) == Some(after) && X.Live(after)
    requires Assigned(base, types, levels, idx, before, after, types', levels')
    ensures X.StateAt(orig, base, MAX_DEPTH, idx + 1) == Some(after)
    ensures ExplicitUpTo(orig, base, types', levels', idx + 1)
  {
    assert X.StateAt(orig, base, MAX_DEPTH, idx + 1) == Some(after);
    forall p | 0 <= p < idx + 1 ensures ExplicitAt(orig, base, types', levels', p) {
      if p < idx {
        assert ExplicitAt(orig, base, types, levels, p);
      }
    }
    assert types'[idx + 1..] == types[idx..][1..] == orig[idx..][1..] == orig[idx + 1..];
  }

  /** Run k is as it was found, and carries a sequence number exactly if it is taken. */
  predicate NumberedAt(runs: seq<Run>, plain: seq<Run>, taken: set<nat>, k: nat)
    requires k < |runs| == |plain|
  {
    runs[k].(seqId := 0) == plain[k] && (runs[k].seqId != 0 <==> k in taken)
  }

  ghost predicate Numbered(runs: seq<Run>, plain: seq<Run>, taken: set<nat>) {
    && |runs| == |plain|
    && forall k {:trigger NumberedAt(runs, plain, taken, k)} :: 0 <= k < |runs| ==> NumberedAt(runs, plain, taken, k)
  }

  /** A sequence as the look-ahead builds it, before sos, eos and the positions. */
  function Started(plain: seq<Run>, chain: seq<nat>): IsolatingRunSequence
    requires Refers(plain, chain) && chain != []
  {
    IsolatingRunSequence(chain, TotalLen(plain, chain), plain[chain[0]].level, ON, ON, [])
  }

  lemma StartedJoins(plain: seq<Run>, chain: seq<nat>, idx: nat)
    requires Refers(plain, chain) && chain != [] && idx < |plain|
    ensures Refers(plain, chain + [idx])
    ensures Started(plain, chain + [idx])
            == Started(plain, chain).(runs := chain + [idx], len := TotalLen(plain, chain) + plain[idx].len)
  {
    assert (chain + [idx])[..|chain|] == chain;
  }

  lemma NumberedNext(runs: seq<Run>, plain: seq<Run>, taken: set<nat>, chain: seq<nat>, idx: nat, seqId: nat)
    requires Numbered(runs, plain, taken + Elements(chain)) && idx < |runs| && seqId > 0
    ensures Numbered(runs[idx := runs[idx].(seqId := seqId)], plain, taken + Elements(chain + [idx]))
  {
    var runs' := runs[idx := runs[idx].(seqId := seqId)];
    forall k | 0 <= k < |runs'| ensures NumberedAt(runs', plain, taken + Elements(chain + [idx]), k) {
      assert NumberedAt(runs, plain, taken + Elements(chain), k);
      assert k in Elements(chain + [idx]) <==> k in Elements(chain) || k == idx by {
        if k in chain {
          var x :| 0 <= x < |chain| && chain[x] == k;
          assert (chain + [idx])[x] == k;
        }
        assert (chain + [idx])[|chain|] == idx;
      }
    }
  }

  /** Whether the code joins run idx to a sequence of this level. */
  predicate Accepts(types: Classes, levels: seq<Level>, run: Run, level: Level)
    requires |types| == |levels| && run.start <= run.end <= |types|
  {
    run.seqId == 0 && run.level == level && FirstSignificant(types, levels, run.start, run.end) == Some(PDI)
  }

  /** One turn of the look-ahead follows the specification of the joined runs. */
  lemma LookAheadStep(types: Classes, levels: seq<Level>, plain: seq<Run>, taken: set<nat>, runs: seq<Run>,
                      chain: seq<nat>, idx: nat, level: Level)
    requires InText(types, levels, plain) && idx < |plain| && Numbered(runs, plain, taken + Elements(chain))
    requires forall x :: 0 <= x < |chain| ==> chain[x] < idx
    ensures |runs| == |plain| && runs[idx].start < runs[idx].end <= |types| && runs[idx].len == plain[idx].len
    ensures runs[idx].end == plain[idx].end
    ensures chain + Follow(types, levels, plain, taken, idx, level)
            == if Accepts(types, levels, runs[idx], level)
               then (chain + [idx]) + (if EndsInInitiator(types, plain[idx])
                                       then Follow(types, levels, plain, taken, idx + 1, level) else [])
               else chain + Follow(types, levels, plain, taken, idx + 1, level)
  {
    assert NumberedAt(runs, plain, taken + Elements(chain), idx);
    assert idx !in Elements(chain);
    var rest := if EndsInInitiator(types, plain[idx]) then Follow(types, levels, plain, taken, idx + 1, level) else [];
    assert chain + ([idx] + rest) == (chain + [idx]) + rest;
  }

  /** The state of the look-ahead before run idx: the chain so far, and what is still to come. */
  ghost predicate LookingAhead(types: Classes, levels: seq<Level>, plain: seq<Run>, taken: set<nat>, first: IsolatingRunSequence,
                               whole: seq<nat>, runs: seq<Run>, chain: seq<nat>, isoRun: IsolatingRunSequence, idx: nat)
  {
    && InText(types, levels, plain) && idx <= |plain|
    && Joining(plain, taken, first, runs, chain, isoRun, idx)
    && whole == chain + Follow(types, levels, plain, taken, idx, first.level)
  }

  ghost predicate Joining(plain: seq<Run>, taken: set<nat>, first: IsolatingRunSequence,
                          runs: seq<Run>, chain: seq<nat>, isoRun: IsolatingRunSequence, idx: nat)
  {
    && |first.runs| == 1
    && Numbered(runs, plain, taken + Elements(chain)) && Refers(plain, chain) && chain != []
    && chain[0] == first.runs[0] && (forall x :: 0 <= x < |chain| ==> chain[x] < idx)
    && isoRun == first.(runs := chain, len := TotalLen(plain, chain))
  }

  lemma LookAheadSkips(types: Classes, levels: seq<Level>, plain: seq<Run>, taken: set<nat>, first: IsolatingRunSequence,
                       whole: seq<nat>, runs: seq<Run>, chain: seq<nat>, isoRun: IsolatingRunSequence, idx: nat, next: nat)
    requires LookingAhead(types, levels, plain, taken, first, whole, runs, chain, isoRun, idx)
    requires idx < |plain| && next == idx + 1
    ensures |runs| == |plain| && runs[idx].start < runs[idx].end <= |types|
    ensures !Accepts(types, levels, runs[idx], first.level) ==>
      LookingAhead(types, levels, plain, taken, first, whole, runs, chain, isoRun, next)
  {
    LookAheadStep(types, levels, plain, taken, runs, chain, idx, first.level);
  }

  lemma JoiningNext(plain: seq<Run>, taken: set<nat>, first: IsolatingRunSequence,
                    runs: seq<Run>, chain: seq<nat>, isoRun: IsolatingRunSequence, idx: nat, next: nat, seqId: nat)
    requires Joining(plain, taken, first, runs, chain, isoRun, idx)
    requires idx < |plain| == |runs| && next == idx + 1 && seqId > 0 && runs[idx].len == plain[idx].len
    requires first == Started(plain, first.runs)
    ensures Joining(plain, taken, first, runs[idx := runs[idx].(seqId := seqId)], chain + [idx],
                    isoRun.(runs := isoRun.runs + [idx], len := isoRun.len + runs[idx].len), next)
  {
    StartedJoins(plain, chain, idx);
    NumberedNext(runs, plain, taken, chain, idx, seqId);
  }

  lemma LookAheadJoins(types: Classes, levels: seq<Level>, plain: seq<Run>, taken: set<nat>, first: IsolatingRunSequence,
                       whole: seq<nat>, runs: seq<Run>, chain: seq<nat>, isoRun: IsolatingRunSequence, idx: nat, next: nat,
                       seqId: nat)
    requires LookingAhead(types, levels, plain, taken, first, whole, runs, chain, isoRun, idx)
    requires idx < |plain| && next == idx + 1 && seqId > 0 && first == Started(plain, first.runs)
    ensures |runs| == |plain| && runs[idx].start < runs[idx].end <= |types| && runs[idx].end == plain[idx].end
    ensures Accepts(types, levels, runs[idx], first.level) ==>
      var runs' := runs[idx := runs[idx].(seqId := seqId)];
      var isoRun' := isoRun.(runs := isoRun.runs + [idx], len := isoRun.len + runs[idx].len);
      if EndsInInitiator(types, plain[idx])
      then LookingAhead(types, levels, plain, taken, first, whole, runs', chain + [idx], isoRun', next)
      else Joining(plain, taken, first, runs', chain + [idx], isoRun', next) && whole == chain + [idx]
  {
    LookAheadStep(types, levels, plain, taken, runs, chain, idx, first.level);
    JoiningNext(plain, taken, first, runs, chain, isoRun, idx, next, seqId);
  }

  lemma NumberedStart(runs: seq<Run>, plain: seq<Run>, taken: set<nat>, idx: nat, seqId: nat)
    requires Numbered(runs, plain, taken) && idx < |runs| && seqId > 0
    requires forall k :: 0 <= k < |plain| ==> plain[k].start <= plain[k].end
    ensures Numbered(runs[idx := runs[idx].(seqId := seqId)], plain, taken + Elements([idx]))
    ensures Refers(plain, [idx])
    ensures var r := runs[idx];
            Started(plain, [idx]) == IsolatingRunSequence([idx], r.len, r.level, ON, ON, [])
  {
    var runs' := runs[idx := runs[idx].(seqId := seqId)];
    forall k | 0 <= k < |runs'| ensures NumberedAt(runs', plain, taken + Elements([idx]), k) {
      assert NumberedAt(runs, plain, taken, k);
    }
    assert NumberedAt(runs, plain, taken, idx);
    assert TotalLen(plain, [idx][..0]) == 0;
  }

  lemma PlainUnnumbered(types: Classes, levels: seq<Level>, base: Level)
    requires |types| == |levels|
    ensures Numbered(TextRuns(types, levels, base), TextRuns(types, levels, base), {})
  {
    var plain := TextRuns(types, levels, base);
    RunsUnnumbered(types, levels, 0);
    forall k | 0 <= k < |plain| ensures NumberedAt(plain, plain, {}, k) {
      assert plain[k].seqId == RunsFrom(types, levels, 0)[k].seqId;
    }
  }

  /** The sequences started so far are those of the given chains. */
  ghost predicate StartedAll(plain: seq<Run>, lists: seq<seq<nat>>, isoRuns: seq<IsolatingRunSequence>) {
    && |isoRuns| == |lists|
    && forall c :: 0 <= c < |lists| ==>
         Refers(plain, lists[c]) && lists[c] != [] && isoRuns[c] == Started(plain, lists[c])
  }

  /** The two scans of W5 together reach every terminator next to k. */
  lemma SpreadBothWays(v: Classes, k: nat, v': Classes)
    requires k < |v| == |v'|
    requires forall j :: 0 <= j < |v| ==> v'[j] == if Reached(v, j, k) then EN else v[j]
    ensures Spread(v, k, v')
  {
  }

  /** The class of position k of a chain may change, but not from or to a removed class. */
  lemma MarkedStep(types: Classes, levels: seq<Level>, p: nat, bc: BidiClass)
    requires Marked(types, levels) && p < |types| && !IsRemovedClass(types[p]) && !IsRemovedClass(bc)
    ensures Marked(types[p := bc], levels)
  {
  }

  lemma NoPairs(types: Classes, indices: seq<nat>)
    requires InRange(indices, |types|) && Ascending(indices)
    ensures Scatter(types, indices, View(types, indices)) == types
  {
    ShowsItself(types, indices);
  }

  lemma {:induction false} N0Halts(orig: Classes, chars: seq<char>, table: BracketTable, types: Classes,
                                   chains: seq<IsolatingRunSequence>, j: nat, k: nat)
    requires ChainsOk(chains, |types|) && j <= k <= |chains| && |orig| == |chars| == |types|
    requires RunN0(orig, chars, table, types, chains, j).halted
    ensures RunN0(orig, chars, table, types, chains, k) == RunN0(orig, chars, table, types, chains, j)
  {
    if j < k {
      N0Halts(orig, chars, table, types, chains, j, k - 1);
    }
  }

  lemma PassAfter(passes: seq<Pass>, types: Classes, chains: seq<IsolatingRunSequence>, n: nat, before: Classes, after: Classes)
    requires ChainsOk(chains, |types|) && n < |passes| && before == RunPasses(passes, types, chains, n)
    requires after == RunPass(passes[n], before, chains, |chains|)
    ensures after == RunPasses(passes, types, chains, n + 1)
  {
  }

  /** What was a nonspacing mark in the original text is not a removed character. */
  predicate MarksStay(nsm: seq<bool>, v: Classes) {
    |nsm| == |v| && forall k :: 0 <= k < |v| && nsm[k] ==> !IsRemovedClass(v[k])
  }

  lemma MarksStayAtFirst(orig: Classes, types: Classes, levels: seq<Level>, indices: seq<nat>)
    requires Marked(orig, levels) && Marked(types, levels) && InRange(indices, |types|)
    ensures MarksStay(OriginalMarks(orig, indices), View(types, indices))
  {
  }

  /** One position of FixMarks. */
  lemma FixMarksStep(v: Classes, nsm: seq<bool>, k: nat, next: nat, end: nat, bc: BidiClass)
    requires MarksStay(nsm, v) && k < end <= |v| && next == k + 1 && !IsRemovedClass(bc)
    ensures FixMarks(v, nsm, k, end, bc) == if nsm[k] then FixMarks(v[k := bc], nsm, next, end, bc)
                                            else if IsRemovedClass(v[k]) then FixMarks(v, nsm, next, end, bc)
                                            else v
    ensures MarksStay(nsm, v[k := bc])
  {
  }

  /** The run found at position pos, behind those found before. */
  lemma RunsFromStep(types: Classes, levels: seq<Level>, pos: nat, end: nat, level: Level, runs: seq<Run>)
    requires |types| == |levels| && pos < |types| && (level, end) == SpanFrom(types, levels, pos, NO_LEVEL)
    ensures runs + RunsFrom(types, levels, pos)
         == runs + (if level == NO_LEVEL then [] else [Run(pos, end, end - pos, 0, level, ON, ON)]) + RunsFrom(types, levels, end)
  {
    var now := if level == NO_LEVEL then [] else [Run(pos, end, end - pos, 0, level, ON, ON)];
    Associative(runs, now, RunsFrom(types, levels, end));
  }

  /** No bracket of a pair is a removed character. */
  predicate BracketsStand(v: Classes, pairs: seq<Pair>) {
    && PairsIn(pairs, |v|)
    && forall i :: 0 <= i < |pairs| ==> !IsRemovedClass(v[pairs[i].opening]) && !IsRemovedClass(v[pairs[i].closing])
  }

  lemma BracketsStandNext(v: Classes, nsm: seq<bool>, pairs: seq<Pair>, i: nat, embedding: Direction, sos: BidiClass)
    requires MarksStay(nsm, v) && BracketsStand(v, pairs) && i < |pairs|
    ensures BracketsStand(ResolvePair(v, nsm, pairs[i], embedding, sos), pairs)
  {
    ResolvePairStrengthens(v, nsm, pairs[i], embedding, sos);
  }

  lemma NeutralPassesAre(types: Classes, chains: seq<IsolatingRunSequence>)
    requires ChainsOk(chains, |types|)
    ensures RunPasses(NEUTRAL_PASSES, types, chains, |NEUTRAL_PASSES|)
            == RunPass(PassN2, RunPass(PassN1, types, chains, |chains|), chains, |chains|)
  {
    assert RunPasses(NEUTRAL_PASSES, types, chains, 1) == RunPass(PassN1, types, chains, |chains|);
  }

  /** After X9 nothing is left of what the context held before. */
  lemma ExplicitIsWhole(orig: Classes, base: Level, types: Classes, levels: seq<Level>, levels': seq<Level>)
    requires Processed(orig, base) && ExplicitUpTo(orig, base, types, levels, |orig|) && |levels'| == |levels|
    requires forall p :: 0 <= p < |levels| ==> levels'[p] == if IsRemovedClass(types[p]) then NO_LEVEL else levels[p]
    ensures types == ExplicitClasses(orig, base) && levels' == ExplicitLevelsOf(orig, base)
  {
    forall p | 0 <= p < |orig|
      ensures types[p] == ExplicitClasses(orig, base)[p] && levels'[p] == ExplicitLevelsOf(orig, base)[p]
    {
      assert ExplicitAt(orig, base, types, levels, p);
    }
  }

  /** The levels of a resolved paragraph mark the removed characters and stay in bounds. */
  lemma ResolvedBounds(orig: Classes, base: Level, chars: seq<char>, table: BracketTable)
    requires Processed(orig, base) && (chars == [] || |chars| == |orig|)
    ensures var levels := ResolvedLevels(orig, base, chars, table);
            Marked(orig, levels) && forall p :: 0 <= p < |levels| ==> NO_LEVEL <= levels[p] <= MAX_DEPTH + 1
  {
    var levels := ResolvedLevels(orig, base, chars, table);
    forall p | 0 <= p < |levels|
      ensures levels[p] == NO_LEVEL <==> IsRemovedClass(orig[p])
      ensures NO_LEVEL <= levels[p] <= MAX_DEPTH + 1
    {
      ParagraphResolved(orig, base, chars, table, p);
    }
  }

  /** The forward scan of W5 up to position i. */
  predicate SpreadUpTo(v: Classes, k: nat, i: nat, v': Classes) {
    && k < i <= |v| == |v'| && Bridge(v, k, i)
    && (forall j :: k < j < i ==> v'[j] == if v[j].ET? then EN else v[j])
    && (forall j :: 0 <= j < |v| && !(k < j < i) ==> v'[j] == v[j])
  }

  lemma SpreadOn(v: Classes, k: nat, i: nat, next: nat, v': Classes)
    requires SpreadUpTo(v, k, i, v') && i < |v| && next == i + 1 && (v[i].ET? || IsRemovedClass(v[i]))
    ensures SpreadUpTo(v, k, next, if v[i].ET? then v'[i := EN] else v')
  {
  }

  /** It has reached what it can. */
  lemma SpreadEnds(v: Classes, k: nat, i: nat, v': Classes)
    requires SpreadUpTo(v, k, i, v') && (i == |v| || !(v[i].ET? || IsRemovedClass(v[i])))
    ensures forall j :: 0 <= j < |v| ==> v'[j] == if k < j && Reached(v, j, k) then EN else v[j]
  {
    if i < |v| {
      BridgeStops(v, k, i);
    }
    forall j | k < j < i ensures Bridge(v, k, j) && Bridge(v, j, k) {
    }
  }

  lemma BridgeStops(v: Classes, k: nat, i: nat)
    requires k < i < |v| && !v[i].ET? && !IsRemovedClass(v[i])
    ensures forall j: nat :: i < j < |v| ==> !Bridge(v, k, j)
  {
  }

  class BidiContext {
    var origCharTypes: Classes
    var charTypes: Classes
    var levels: seq<Level>
    var baseLevel: Level
    var runs: seq<Run>
    /** The two generated tables: the class of a character and its bracket entry. */
    const classOf: char -> BidiClass
    const table: BracketTable

    constructor (classOf: char -> BidiClass, table: BracketTable)
      ensures this.classOf == classOf && this.table == table
      ensures origCharTypes == [] && levels == [] && baseLevel == 0
    {
      origCharTypes, charTypes, levels, baseLevel, runs := [], [], [], 0, [];
      this.classOf := classOf;
      this.table := table;
    }

    // ----- X1 to X8 -----

    /** The character gets the level of entry e, and its override. */
    method Assign(idx: nat, e: Entry)
      requires idx < |charTypes| == |levels|
      modifies this`charTypes, this`levels
      ensures levels == old(levels)[idx := e.level]
      ensures charTypes == old(charTypes)[idx := ApplyOverride(e.over, old(charTypes)[idx])]
    {
      levels := levels[idx := e.level];
      charTypes := charTypes[idx := ApplyOverride(e.over, charTypes[idx])];
    }

    /** X5a to X5c: the initiator belongs to the level outside its isolate. */
    method InitiateIsolate(state: EmbeddingState, idx: nat, odd: bool)
      requires state.Valid() && X.Live(state.Current()) && this !in state.Repr && idx < |charTypes| == |levels|
      modifies this`charTypes, this`levels, state.Repr
      ensures state.Valid() && state.Current() == X.OpenIsolate(old(state.Current()), odd, MAX_DEPTH)
      ensures var e := old(state.Current()).Top();
              && levels == old(levels)[idx := e.level]
              && charTypes == old(charTypes)[idx := ApplyOverride(e.over, old(charTypes)[idx])]
    {
      var top := state.Top();
      Assign(idx, top);
      state.OpenIsolate(odd);
    }

    /** X6a: the PDI belongs to the level outside the isolate it closes. */
    method TerminateIsolate(state: EmbeddingState, idx: nat) returns (ok: bool)
      requires state.Valid() && X.Live(state.Current()) && this !in state.Repr && idx < |charTypes| == |levels|
      modifies this`charTypes, this`levels, state.Repr
      ensures state.Valid() && ok == X.CloseIsolate(old(state.Current())).Some?
      ensures ok ==> X.CloseIsolate(old(state.Current())) == Some(state.Current()) && X.Live(state.Current())
      ensures ok ==> var e := state.Current().Top();
                     && levels == old(levels)[idx := e.level]
                     && charTypes == old(charTypes)[idx := ApplyOverride(e.over, old(charTypes)[idx])]
    {
      X.StepLive(state.Current(), PDI, false, MAX_DEPTH);
      ok := state.CloseIsolate();
      if ok {
        var top := state.Top();
        Assign(idx, top);
      }
    }

    /** The arms of the embeddings and overrides. */
    method EmbedStep(state: EmbeddingState, idx: nat)
      requires state.Valid() && X.Live(state.Current()) && this !in state.Repr
      requires idx < |charTypes| && X.IsEmbedding(charTypes[idx])
      modifies state.Repr
      ensures state.Valid()
      ensures Some(state.Current()) == X.Step(old(state.Current()), charTypes[idx], X.OpensOdd(charTypes, idx), MAX_DEPTH)
    {
      var bc := charTypes[idx];
      var over := if bc.RLO? then ForceR else if bc.LRO? then ForceL else Neutral;
      state.Embed(bc.RLE? || bc.RLO?, over);
    }

    /** The arms of the isolate initiators. */
    method IsolateStep(state: EmbeddingState, idx: nat)
      requires state.Valid() && X.Live(state.Current()) && this !in state.Repr
      requires idx < |charTypes| == |levels| && IsIsoInit(charTypes[idx])
      modifies this`charTypes, this`levels, state.Repr
      ensures state.Valid()
      ensures Some(state.Current())
           == X.Step(old(state.Current()), old(charTypes)[idx], X.OpensOdd(old(charTypes), idx), MAX_DEPTH)
      ensures var e := old(state.Current()).Top();
              && levels == old(levels)[idx := e.level]
              && charTypes == old(charTypes)[idx := ApplyOverride(e.over, old(charTypes)[idx])]
    {
      var odd := charTypes[idx].RLI?;
      if charTypes[idx].FSI? {
        var level := ComputeParagraphLevel(charTypes[idx + 1..], true, LTR);
        odd := level == 1;
      }
      InitiateIsolate(state, idx, odd);
    }

    /** One turn of the loop over characters. */
    method ExplicitStep(state: EmbeddingState, idx: nat) returns (ok: bool)
      requires state.Valid() && X.Live(state.Current()) && this !in state.Repr
      requires idx < |charTypes| == |levels|
      modifies this`charTypes, this`levels, state.Repr
      ensures state.Valid()
      ensures ok == X.Step(old(state.Current()), old(charTypes)[idx], X.OpensOdd(old(charTypes), idx), MAX_DEPTH).Some?
      ensures ok ==> X.Step(old(state.Current()), old(charTypes)[idx], X.OpensOdd(old(charTypes), idx), MAX_DEPTH)
                     == Some(state.Current())
      ensures ok ==> X.Live(state.Current())
      ensures ok ==> Assigned(baseLevel, old(charTypes), old(levels), idx, old(state.Current()), state.Current(), charTypes, levels)
    {
      var bc := charTypes[idx];
      var top := state.Top();
      X.StepLive(state.Current(), bc, X.OpensOdd(charTypes, idx), MAX_DEPTH);
      match bc {
        case RLE | LRE | RLO | LRO => EmbedStep(state, idx);
        case RLI | LRI | FSI => IsolateStep(state, idx);
        case PDI =>
          ok := TerminateIsolate(state, idx);
          return;
        case PDF => state.PopFormat();
        case BN =>
        case B => levels := levels[idx := baseLevel];
        case _ => Assign(idx, top);
      }
      return true;
    }

    /** Rules X1 to X8. False where the source would index below the bottom of its stack. */
    method ExplicitEmbeddingLevels() returns (ok: bool)
      requires 0 <= baseLevel <= 1
      modifies this`charTypes, this`levels
      ensures ok <==> X.Completes(old(charTypes), baseLevel, MAX_DEPTH)
      ensures ok ==> ExplicitUpTo(old(charTypes), baseLevel, charTypes, levels, |old(charTypes)|)
    {
      var state := new EmbeddingState(baseLevel);
      var len := |charTypes|;
      levels := if |levels| >= len then levels[..len] else levels + seq(len - |levels|, _ => 0);
      ghost var orig := charTypes;
      for idx := 0 to len
        invariant state.Valid() && fresh(state.Repr)
        invariant ExplicitUpTo(orig, baseLevel, charTypes, levels, idx)
        invariant X.StateAt(orig, baseLevel, MAX_DEPTH, idx) == Some(state.Current())
      {
        ghost var before, types, levels' := state.Current(), charTypes, levels;
        SameInitiator(orig, charTypes, idx);
        ok := ExplicitStep(state, idx);
        if !ok {
          X.StepFails(orig, baseLevel, MAX_DEPTH, idx, idx + 1, before);
          return false;
        }
        ExplicitNext(orig, baseLevel, types, levels', idx, before, state.Current(), charTypes, levels);
      }
      return true;
    }

    /** Rule X9: removed characters take NO_LEVEL. */
    method DeleteFormatCharacters()
      requires |charTypes| == |levels|
      modifies this`levels
      ensures |levels| == |old(levels)|
      ensures forall p :: 0 <= p < |levels| ==>
                levels[p] == if IsRemovedClass(charTypes[p]) then NO_LEVEL else old(levels)[p]
    {
      for p := 0 to |charTypes|
        invariant |levels| == |old(levels)|
        invariant forall q :: p <= q < |levels| ==> levels[q] == old(levels)[q]
        invariant forall q :: 0 <= q < p ==>
                    levels[q] == if IsRemovedClass(charTypes[q]) then NO_LEVEL else old(levels)[q]
      {
        if IsRemovedClass(charTypes[p]) {
          levels := levels[p := NO_LEVEL];
        }
      }
    }

    // ----- X10 -----

    /** The first run from `start` on: its level, NO_LEVEL if all of it is removed, and length. */
    method SpanOneRun(start: nat) returns (level: Level, len: nat)
      requires start < |charTypes| == |levels|
      ensures (level, start + len) == SpanFrom(charTypes, levels, start, NO_LEVEL) && len > 0
    {
      level := NO_LEVEL;
      var pos := start;
      while pos < |charTypes|
        invariant start <= pos <= |charTypes|
        invariant SpanFrom(charTypes, levels, pos, level) == SpanFrom(charTypes, levels, start, NO_LEVEL)
      {
        if levels[pos] != NO_LEVEL {
          if level != NO_LEVEL && levels[pos] != level {
            break;
          }
          level := levels[pos];
          if IsIsoInit(charTypes[pos]) {
            pos := pos + 1;
            return level, pos - start;
          }
        }
        pos := pos + 1;
      }
      len := pos - start;
    }

    method IdentifyRuns()
      requires |charTypes| == |levels|
      modifies this`runs
      ensures runs == TextRuns(charTypes, levels, baseLevel)
    {
      var idx := 0;
      runs := [];
      while idx < |charTypes|
        invariant idx <= |charTypes|
        invariant runs + RunsFrom(charTypes, levels, idx) == RunsFrom(charTypes, levels, 0)
      {
        var level, len := SpanOneRun(idx);
        RunsFromStep(charTypes, levels, idx, idx + len, level, runs);
        if level != NO_LEVEL {
          var run := Run(idx, idx + len, len, 0, level, ON, ON);
          runs := runs + [run];
        }
        idx := idx + len;
      }
      assert runs == RunsFrom(charTypes, levels, 0);
      CalculateSorEor();
    }

    method CalculateSorEor()
      modifies this`runs
      ensures runs == WithSorEor(baseLevel, old(runs))
    {
      var priorRunLevel := baseLevel;
      for k := 0 to |runs|
        invariant |runs| == |old(runs)|
        invariant priorRunLevel == if k == 0 then baseLevel else old(runs)[k - 1].level
        invariant forall j :: 0 <= j < k ==> runs[j] == Bordered(baseLevel, old(runs), j)
        invariant forall j :: k <= j < |runs| ==> runs[j] == old(runs)[j]
      {
        var nextRunLevel := if k + 1 < |runs| then runs[k + 1].level else baseLevel;
        var run := runs[k];
        runs := runs[k := run.(sor := ClassOfLevel(MaxLevel(priorRunLevel, run.level)),
                                eor := ClassOfLevel(MaxLevel(nextRunLevel, run.level)))];
        priorRunLevel := run.level;
      }
    }

    method FirstSignificantBidiClass(run: Run) returns (bc: Option<BidiClass>)
      requires |charTypes| == |levels| && run.start <= run.end <= |charTypes|
      ensures bc == FirstSignificant(charTypes, levels, run.start, run.end)
    {
      for idx := run.start to run.end
        invariant FirstSignificant(charTypes, levels, idx, run.end) == FirstSignificant(charTypes, levels, run.start, run.end)
      {
        if levels[idx] != NO_LEVEL {
          return Some(charTypes[idx]);
        }
      }
      return None;
    }

    /** One turn of the look-ahead: joins the run if it is the next of the sequence, and tells
        whether to go on. */
    method LookAheadTurn(first: IsolatingRunSequence, idx: nat, seqId: nat, soFar: IsolatingRunSequence,
                         ghost plain: seq<Run>, ghost taken: set<nat>, ghost whole: seq<nat>, ghost chain: seq<nat>)
      returns (more: bool, isoRun: IsolatingRunSequence, ghost chain': seq<nat>)
      requires LookingAhead(charTypes, levels, plain, taken, first, whole, runs, chain, soFar, idx)
      requires idx < |plain| && seqId > 0 && |first.runs| == 1 && Refers(plain, first.runs) && first == Started(plain, first.runs)
      modifies this`runs
      ensures more ==> LookingAhead(charTypes, levels, plain, taken, first, whole, runs, chain', isoRun, idx + 1)
      ensures !more ==> Joining(plain, taken, first, runs, chain', isoRun, idx + 1) && whole == chain'
    {
      LookAheadSkips(charTypes, levels, plain, taken, first, whole, runs, chain, soFar, idx, idx + 1);
      var run := runs[idx];
      var bc := FirstSignificantBidiClass(run);
      if run.seqId == 0 && run.level == first.level && bc == Some(PDI) {
        LookAheadJoins(charTypes, levels, plain, taken, first, whole, runs, chain, soFar, idx, idx + 1, seqId);
        chain' := chain + [idx];
        isoRun := soFar.(runs := soFar.runs + [idx], len := soFar.len + run.len);
        runs := runs[idx := run.(seqId := seqId)];
        more := IsIsoInit(charTypes[run.end - 1]);
      } else {
        more, isoRun, chain' := true, soFar, chain;
      }
    }

    /** The look-ahead from a run that ends in an isolate initiator: joins later runs of its
        level that begin with a PDI until one does not end in an initiator. */
    method LookAhead(first: IsolatingRunSequence, seqId: nat, ghost plain: seq<Run>, ghost taken: set<nat>)
      returns (isoRun: IsolatingRunSequence)
      requires InText(charTypes, levels, plain) && seqId > 0 && |first.runs| == 1 && first.runs[0] < |plain|
      requires first == Started(plain, first.runs)
      requires EndsInInitiator(charTypes, plain[first.runs[0]])
      requires Numbered(runs, plain, taken + Elements(first.runs))
      modifies this`runs
      ensures var chain := ChainFrom(charTypes, levels, plain, taken, first.runs[0]);
              && Refers(plain, chain) && isoRun == Started(plain, chain)
              && Numbered(runs, plain, taken + Elements(chain))
    {
      ghost var types, lvls := charTypes, levels;
      ghost var whole := ChainFrom(types, lvls, plain, taken, first.runs[0]);
      ghost var chain: seq<nat> := first.runs;
      isoRun := first;
      var idx: nat := first.runs[0] + 1;
      while idx < |runs|
        invariant charTypes == types && levels == lvls
        invariant LookingAhead(types, lvls, plain, taken, first, whole, runs, chain, isoRun, idx)
      {
        var more;
        more, isoRun, chain := LookAheadTurn(first, idx, seqId, isoRun, plain, taken, whole, chain);
        if !more {
          return;
        }
        idx := idx + 1;
      }
      NothingAfter(chain);
    }

    /** Starts a sequence at a run that no sequence has yet, and follows it. */
    method StartSequence(runIdx: nat, seqId: nat, ghost plain: seq<Run>, ghost taken: set<nat>)
      returns (isoRun: IsolatingRunSequence)
      requires InText(charTypes, levels, plain) && seqId > 0 && runIdx < |plain|
      requires Numbered(runs, plain, taken) && runIdx !in taken
      modifies this`runs
      ensures var chain := ChainFrom(charTypes, levels, plain, taken, runIdx);
              && Refers(plain, chain) && isoRun == Started(plain, chain)
              && Numbered(runs, plain, taken + Elements(chain))
    {
      assert NumberedAt(runs, plain, taken, runIdx);
      NumberedStart(runs, plain, taken, runIdx, seqId);
      var run := runs[runIdx];
      isoRun := IsolatingRunSequence([runIdx], run.len, run.level, ON, ON, []);
      runs := runs[runIdx := run.(seqId := seqId)];
      if IsIsoInit(charTypes[run.end - 1]) {
        isoRun := LookAhead(isoRun, seqId, plain, taken);
      }
    }

    /** Rule X10: the isolating run sequences, before sos, eos and positions. */
    method StartSequences(ghost plain: seq<Run>) returns (isoRuns: seq<IsolatingRunSequence>, ghost lists: seq<seq<nat>>)
      requires InText(charTypes, levels, plain) && Numbered(runs, plain, {})
      modifies this`runs
      ensures lists == Chains(charTypes, levels, plain, {}, 0) && StartedAll(plain, lists, isoRuns)
      ensures exists taken :: Numbered(runs, plain, taken)
    {
      ghost var types, lvls := charTypes, levels;
      var seqId: nat := 0;
      isoRuns, lists := [], [];
      ghost var taken: set<nat> := {};
      for runIdx := 0 to |runs|
        invariant charTypes == types && levels == lvls
        invariant Numbered(runs, plain, taken) && StartedAll(plain, lists, isoRuns)
        invariant lists + Chains(types, lvls, plain, taken, runIdx) == Chains(types, lvls, plain, {}, 0)
      {
        assert NumberedAt(runs, plain, taken, runIdx);
        if runs[runIdx].seqId == 0 {
          seqId := seqId + 1;
          ghost var chain := ChainFrom(types, lvls, plain, taken, runIdx);
          ghost var rest := Chains(types, lvls, plain, taken + Elements(chain), runIdx + 1);
          assert lists + ([chain] + rest) == (lists + [chain]) + rest;
          var isoRun := StartSequence(runIdx, seqId, plain, taken);
          isoRuns := isoRuns + [isoRun];
          lists := lists + [chain];
          taken := taken + Elements(chain);
        }
      }
    }

    /** X10: sos and eos of every sequence, from the borders of its first and last run. */
    method CalculateSosEos(isoRuns: seq<IsolatingRunSequence>, ghost plain: seq<Run>, ghost lists: seq<seq<nat>>)
      returns (r: seq<IsolatingRunSequence>)
      requires InText(charTypes, levels, plain) && StartedAll(plain, lists, isoRuns)
      requires exists taken :: Numbered(runs, plain, taken)
      ensures |r| == |lists|
      ensures forall c :: 0 <= c < |r| ==>
                Refers(plain, lists[c]) && lists[c] != [] && r[c] == SequenceOf(charTypes, baseLevel, plain, lists[c]).(indices := [])
    {
      r := isoRuns;
      ghost var taken :| Numbered(runs, plain, taken);
      for c := 0 to |isoRuns|
        invariant |r| == |isoRuns|
        invariant forall d :: c <= d < |r| ==> r[d] == isoRuns[d]
        invariant forall d :: 0 <= d < c ==>
                    r[d] == SequenceOf(charTypes, baseLevel, plain, lists[d]).(indices := [])
      {
        var isoRun := r[c];
        var first, last := isoRun.runs[0], isoRun.runs[|isoRun.runs| - 1];
        assert NumberedAt(runs, plain, taken, first) && NumberedAt(runs, plain, taken, last);
        var sos, eos := runs[first].sor, runs[last].eor;
        if IsIsoInit(charTypes[runs[last].end - 1]) {
          eos := ClassOfLevel(MaxLevel(baseLevel, isoRun.level));
        }
        r := r[c := isoRun.(sos := sos, eos := eos)];
      }
    }

    /** The positions of every sequence, run by run. */
    method BuildTextChains(isoRuns: seq<IsolatingRunSequence>, ghost plain: seq<Run>)
      returns (r: seq<IsolatingRunSequence>)
      requires exists taken :: Numbered(runs, plain, taken)
      requires forall c :: 0 <= c < |isoRuns| ==> Refers(plain, isoRuns[c].runs) && isoRuns[c].indices == []
      ensures |r| == |isoRuns|
      ensures forall c :: 0 <= c < |r| ==> r[c] == isoRuns[c].(indices := Indices(plain, isoRuns[c].runs))
    {
      r := isoRuns;
      ghost var taken :| Numbered(runs, plain, taken);
      for c := 0 to |isoRuns|
        invariant |r| == |isoRuns|
        invariant forall d :: c <= d < |r| ==> r[d] == isoRuns[d]
        invariant forall d :: 0 <= d < c ==> r[d] == isoRuns[d].(indices := Indices(plain, isoRuns[d].runs))
      {
        var chain := isoRuns[c].runs;
        var indices := [];
        for x := 0 to |chain|
          invariant indices == Indices(plain, chain[..x])
        {
          assert chain[..x + 1][..x] == chain[..x];
          assert NumberedAt(runs, plain, taken, chain[x]);
          indices := indices + Range(runs[chain[x]].start, runs[chain[x]].end);
        }
        assert chain[..|chain|] == chain;
        r := r[c := isoRuns[c].(indices := indices)];
      }
    }

    method IdentifyIsolatingRunSequences() returns (isoRuns: seq<IsolatingRunSequence>)
      requires |charTypes| == |levels| && runs == TextRuns(charTypes, levels, baseLevel)
      modifies this`runs
      ensures isoRuns == TextSequences(charTypes, levels, baseLevel)
    {
      ghost var plain := runs;
      TextRunsAre(charTypes, levels, baseLevel);
      PlainUnnumbered(charTypes, levels, baseLevel);
      var started, lists := StartSequences(plain);
      var bordered := CalculateSosEos(started, plain, lists);
      isoRuns := BuildTextChains(bordered, plain);
    }

    // ----- W1 to W7 -----

    ghost predicate Ready(isoRuns: seq<IsolatingRunSequence>)
      reads this
    {
      ChainsOk(isoRuns, |charTypes|) && Marked(charTypes, levels)
    }

    predicate Fits(chain: IsolatingRunSequence)
      reads this
    {
      && Ascending(chain.indices) && InRange(chain.indices, |charTypes|)
      && (chain.sos.L? || chain.sos.R?) && (chain.eos.L? || chain.eos.R?)
      && Marked(charTypes, levels)
    }

    /** Position k of the chain takes class bc; v is what the chain sees. */
    method SetClass(chain: IsolatingRunSequence, k: nat, bc: BidiClass, ghost before: Classes, ghost v: Classes)
      requires Fits(chain) && k < |chain.indices| && Shows(before, charTypes, chain.indices, v)
      requires !IsRemovedClass(v[k]) && !IsRemovedClass(bc)
      modifies this`charTypes
      ensures Fits(chain) && Shows(before, charTypes, chain.indices, v[k := bc])
    {
      ShowsStep(before, charTypes, chain.indices, v, k, bc);
      MarkedStep(charTypes, levels, chain.indices[k], bc);
      charTypes := charTypes[chain.indices[k] := bc];
    }

    method SetClassIfChanged(chain: IsolatingRunSequence, k: nat, bc: BidiClass, ghost before: Classes, ghost v: Classes)
      requires Fits(chain) && k < |chain.indices| && Shows(before, charTypes, chain.indices, v)
      requires MayBecome(v[k], bc)
      modifies this`charTypes
      ensures Fits(chain) && Shows(before, charTypes, chain.indices, v[k := bc])
    {
      ShowsView(before, charTypes, chain.indices, v);
      if charTypes[chain.indices[k]] != bc {
        SetClass(chain, k, bc, before, v);
      } else {
        assert v[k := bc] == v;
      }
    }

    /** Rule W1. */
    method ResolveCombiningMarks(isoRuns: seq<IsolatingRunSequence>)
      requires Ready(isoRuns)
      modifies this`charTypes
      ensures Ready(isoRuns) && charTypes == RunPass(PassW1, old(charTypes), isoRuns, |isoRuns|)
    {
      for c := 0 to |isoRuns|
        invariant |charTypes| == |old(charTypes)| && Ready(isoRuns)
        invariant charTypes == RunPass(PassW1, old(charTypes), isoRuns, c)
      {
        RunPassStep(PassW1, old(charTypes), isoRuns, c, c + 1, charTypes);
        CombiningMarksIn(isoRuns[c]);
      }
    }

    /** One turn of W1: `prior` is the class a mark here takes. */
    method CombiningMarkAt(chain: IsolatingRunSequence, k: nat, prior: BidiClass, ghost before: Classes, ghost t: Classes, ghost v: Classes)
      returns (next: BidiClass, ghost v': Classes)
      requires Fits(chain) && k < |chain.indices| == |t| && Shows(before, charTypes, chain.indices, v)
      requires |v| == |t| && v[k] == t[k] && prior == BaseClass(t, k, chain.sos)
      modifies this`charTypes
      ensures Fits(chain) && Shows(before, charTypes, chain.indices, v')
      ensures v' == v[k := Rewrite(PassW1, chain, t)[k]] && next == BaseClass(t, k + 1, chain.sos)
    {
      ShowsView(before, charTypes, chain.indices, v);
      W1Mixed(chain, t, k);
      v', next := v, prior;
      var idx := chain.indices[k];
      if charTypes[idx].NSM? {
        SetClassIfChanged(chain, k, prior, before, v);
        v' := v[k := prior];
      } else if levels[idx] != NO_LEVEL {
        next := charTypes[idx];
      }
    }

    method CombiningMarksIn(chain: IsolatingRunSequence)
      requires Fits(chain)
      modifies this`charTypes
      ensures Fits(chain)
      ensures charTypes == Scatter(old(charTypes), chain.indices, Rewrite(PassW1, chain, View(old(charTypes), chain.indices)))
    {
      ghost var before, t := charTypes, View(charTypes, chain.indices);
      ghost var r, v := Rewrite(PassW1, chain, t), t;
      ShowsItself(before, chain.indices);
      var priorBc := chain.sos;
      for k := 0 to |chain.indices|
        invariant Fits(chain) && Shows(before, charTypes, chain.indices, v) && Mixed(r, t, v, k)
        invariant priorBc == BaseClass(t, k, chain.sos)
      {
        priorBc, v := CombiningMarkAt(chain, k, priorBc, before, t, v);
      }
      assert v == r;
    }

    /** Rule W2. */
    method ResolveEuropeanNumbers(isoRuns: seq<IsolatingRunSequence>)
      requires Ready(isoRuns)
      modifies this`charTypes
      ensures Ready(isoRuns) && charTypes == RunPass(PassW2, old(charTypes), isoRuns, |isoRuns|)
    {
      for c := 0 to |isoRuns|
        invariant |charTypes| == |old(charTypes)| && Ready(isoRuns)
        invariant charTypes == RunPass(PassW2, old(charTypes), isoRuns, c)
      {
        RunPassStep(PassW2, old(charTypes), isoRuns, c, c + 1, charTypes);
        EuropeanNumbersIn(isoRuns[c]);
      }
    }

    /** The class W2 gives position k, seen from the classes as they are. */
    method EuropeanNumberClass(chain: IsolatingRunSequence, k: nat) returns (bc: BidiClass)
      requires Fits(chain) && k < |chain.indices|
      ensures bc == W2At(View(charTypes, chain.indices), k, chain.sos)
    {
      ghost var v := View(charTypes, chain.indices);
      bc := charTypes[chain.indices[k]];
      assert v[k] == bc;
      if bc.EN? {
        var firstStrong := FirstStrongBefore(charTypes, chain.indices, k, chain.sos);
        if firstStrong.AL? {
          return AN;
        }
      }
    }

    method EuropeanNumbersIn(chain: IsolatingRunSequence)
      requires Fits(chain)
      modifies this`charTypes
      ensures Fits(chain)
      ensures charTypes == Scatter(old(charTypes), chain.indices, Rewrite(PassW2, chain, View(old(charTypes), chain.indices)))
    {
      ghost var before, t := charTypes, View(charTypes, chain.indices);
      ghost var r, v := Rewrite(PassW2, chain, t), t;
      ShowsItself(before, chain.indices);
      for k := 0 to |chain.indices|
        invariant Fits(chain) && Shows(before, charTypes, chain.indices, v) && Mixed(r, t, v, k)
      {
        ShowsView(before, charTypes, chain.indices, v);
        W2Mixed(chain, t, v, k);
        var bc := EuropeanNumberClass(chain, k);
        SetClassIfChanged(chain, k, bc, before, v);
        v := v[k := bc];
      }
      assert v == r;
    }

    /** Rule W3. */
    method ResolveArabicLetters(isoRuns: seq<IsolatingRunSequence>)
      requires Ready(isoRuns)
      modifies this`charTypes
      ensures Ready(isoRuns) && charTypes == RunPass(PassW3, old(charTypes), isoRuns, |isoRuns|)
    {
      for c := 0 to |isoRuns|
        invariant |charTypes| == |old(charTypes)| && Ready(isoRuns)
        invariant charTypes == RunPass(PassW3, old(charTypes), isoRuns, c)
      {
        RunPassStep(PassW3, old(charTypes), isoRuns, c, c + 1, charTypes);
        ArabicLettersIn(isoRuns[c]);
      }
    }

    method ArabicLettersIn(chain: IsolatingRunSequence)
      requires Fits(chain)
      modifies this`charTypes
      ensures Fits(chain)
      ensures charTypes == Scatter(old(charTypes), chain.indices, Rewrite(PassW3, chain, View(old(charTypes), chain.indices)))
    {
      ghost var before, t := charTypes, View(charTypes, chain.indices);
      ghost var v := t;
      ShowsItself(before, chain.indices);
      for k := 0 to |chain.indices|
        invariant Fits(chain) && Shows(before, charTypes, chain.indices, v)
        invariant forall j :: 0 <= j < k ==> v[j] == W3At(t, j)
        invariant forall j :: k <= j < |t| ==> v[j] == t[j]
      {
        ShowsView(before, charTypes, chain.indices, v);
        if charTypes[chain.indices[k]].AL? {
          SetClass(chain, k, R, before, v);
          v := v[k := R];
        }
      }
      assert v == Rewrite(PassW3, chain, t);
    }

    /** Rule W4. */
    method ResolveSeparators(isoRuns: seq<IsolatingRunSequence>)
      requires Ready(isoRuns)
      modifies this`charTypes
      ensures Ready(isoRuns) && charTypes == RunPass(PassW4, old(charTypes), isoRuns, |isoRuns|)
    {
      for c := 0 to |isoRuns|
        invariant |charTypes| == |old(charTypes)| && Ready(isoRuns)
        invariant charTypes == RunPass(PassW4, old(charTypes), isoRuns, c)
      {
        RunPassStep(PassW4, old(charTypes), isoRuns, c, c + 1, charTypes);
        SeparatorsIn(isoRuns[c]);
      }
    }

    /** The class W4 gives position k, seen from the classes as they are. */
    method SeparatorClass(chain: IsolatingRunSequence, k: nat) returns (bc: BidiClass)
      requires Fits(chain) && k < |chain.indices|
      ensures bc == W4At(View(charTypes, chain.indices), k)
    {
      ghost var v := View(charTypes, chain.indices);
      bc := charTypes[chain.indices[k]];
      assert v[k] == bc;
      if bc.ES? {
        var betweenNumbers := IsInContext(charTypes, levels, chain.indices, k, EN);
        if betweenNumbers {
          return EN;
        }
      } else if bc.CS? {
        var betweenNumbers := IsInContext(charTypes, levels, chain.indices, k, EN);
        if betweenNumbers {
          return EN;
        }
        var betweenArabic := IsInContext(charTypes, levels, chain.indices, k, AN);
        if betweenArabic {
          return AN;
        }
      }
    }

    method SeparatorsIn(chain: IsolatingRunSequence)
      requires Fits(chain)
      modifies this`charTypes
      ensures Fits(chain)
      ensures charTypes == Scatter(old(charTypes), chain.indices, Rewrite(PassW4, chain, View(old(charTypes), chain.indices)))
    {
      ghost var before, t := charTypes, View(charTypes, chain.indices);
      ghost var r, v := Rewrite(PassW4, chain, t), t;
      ShowsItself(before, chain.indices);
      for k := 0 to |chain.indices|
        invariant Fits(chain) && Shows(before, charTypes, chain.indices, v) && Mixed(r, t, v, k)
      {
        ShowsView(before, charTypes, chain.indices, v);
        W4Mixed(chain, t, v, k);
        var bc := SeparatorClass(chain, k);
        SetClassIfChanged(chain, k, bc, before, v);
        v := v[k := bc];
      }
      assert v == r;
    }

    /** Rule W5. */
    method ResolveTerminators(isoRuns: seq<IsolatingRunSequence>)
      requires Ready(isoRuns)
      modifies this`charTypes
      ensures Ready(isoRuns) && charTypes == RunPass(PassW5, old(charTypes), isoRuns, |isoRuns|)
    {
      for c := 0 to |isoRuns|
        invariant |charTypes| == |old(charTypes)| && Ready(isoRuns)
        invariant charTypes == RunPass(PassW5, old(charTypes), isoRuns, c)
      {
        RunPassStep(PassW5, old(charTypes), isoRuns, c, c + 1, charTypes);
        TerminatorsIn(isoRuns[c]);
      }
    }

    method TerminatorsIn(chain: IsolatingRunSequence)
      requires Fits(chain)
      modifies this`charTypes
      ensures Fits(chain)
      ensures charTypes == Scatter(old(charTypes), chain.indices, Rewrite(PassW5, chain, View(old(charTypes), chain.indices)))
    {
      ghost var before, t := charTypes, View(charTypes, chain.indices);
      ghost var v := t;
      ShowsItself(before, chain.indices);
      for k := 0 to |chain.indices|
        invariant Fits(chain) && Shows(before, charTypes, chain.indices, v)
        invariant W5UpTo(t, v, k)
      {
        ghost var v0 := v;
        ShowsView(before, charTypes, chain.indices, v);
        if charTypes[chain.indices[k]].EN? {
          v := TerminatorsBefore(chain, k, before, v);
          v := TerminatorsAfter(chain, k, before, v);
          SpreadBothWays(v0, k, v);
        }
        W5Step(t, v0, k, v);
      }
      assert v == Rewrite(PassW5, chain, t);
    }

    /** The backward scan of W5. */
    method TerminatorsBefore(chain: IsolatingRunSequence, k: nat, ghost before: Classes, ghost v: Classes)
      returns (ghost v': Classes)
      requires Fits(chain) && k < |chain.indices| && Shows(before, charTypes, chain.indices, v)
      modifies this`charTypes
      ensures Fits(chain) && Shows(before, charTypes, chain.indices, v')
      ensures forall j :: 0 <= j < |v| ==> v'[j] == if j < k && Reached(v, j, k) then EN else v[j]
    {
      v' := v;
      var i := k;
      while i > 0
        invariant 0 <= i <= k && Fits(chain) && Shows(before, charTypes, chain.indices, v')
        invariant forall j :: i <= j < k ==> v[j].ET? || IsRemovedClass(v[j])
        invariant forall j :: i <= j < k ==> v'[j] == if v[j].ET? then EN else v[j]
        invariant forall j :: 0 <= j < i || k <= j < |v| ==> v'[j] == v[j]
      {
        i := i - 1;
        ShowsView(before, charTypes, chain.indices, v');
        var idx := chain.indices[i];
        if charTypes[idx].ET? {
          SetClass(chain, i, EN, before, v');
          v' := v'[i := EN];
        } else if levels[idx] != NO_LEVEL {
          assert forall j :: 0 <= j < i ==> !Bridge(v, j, k);
          break;
        }
      }
    }

    /** The forward scan of W5. */
    method TerminatorsAfter(chain: IsolatingRunSequence, k: nat, ghost before: Classes, ghost v: Classes)
      returns (ghost v': Classes)
      requires Fits(chain) && k < |chain.indices| && Shows(before, charTypes, chain.indices, v)
      modifies this`charTypes
      ensures Fits(chain) && Shows(before, charTypes, chain.indices, v')
      ensures forall j :: 0 <= j < |v| ==> v'[j] == if k < j && Reached(v, j, k) then EN else v[j]
    {
      v' := v;
      var i := k + 1;
      while i < |chain.indices|
        invariant Fits(chain) && Shows(before, charTypes, chain.indices, v') && SpreadUpTo(v, k, i, v')
      {
        ShowsView(before, charTypes, chain.indices, v');
        var idx := chain.indices[i];
        if charTypes[idx].ET? {
          SetClass(chain, i, EN, before, v');
          SpreadOn(v, k, i, i + 1, v');
          v' := v'[i := EN];
        } else if levels[idx] != NO_LEVEL {
          break;
        } else {
          SpreadOn(v, k, i, i + 1, v');
        }
        i := i + 1;
      }
      SpreadEnds(v, k, i, v');
    }

    /** Rule W6. */
    method ResolveEsCsEt(isoRuns: seq<IsolatingRunSequence>)
      requires Ready(isoRuns)
      modifies this`charTypes
      ensures Ready(isoRuns) && charTypes == RunPass(PassW6, old(charTypes), isoRuns, |isoRuns|)
    {
      for c := 0 to |isoRuns|
        invariant |charTypes| == |old(charTypes)| && Ready(isoRuns)
        invariant charTypes == RunPass(PassW6, old(charTypes), isoRuns, c)
      {
        RunPassStep(PassW6, old(charTypes), isoRuns, c, c + 1, charTypes);
        EsCsEtIn(isoRuns[c]);
      }
    }

    method EsCsEtIn(chain: IsolatingRunSequence)
      requires Fits(chain)
      modifies this`charTypes
      ensures Fits(chain)
      ensures charTypes == Scatter(old(charTypes), chain.indices, Rewrite(PassW6, chain, View(old(charTypes), chain.indices)))
    {
      ghost var before, t := charTypes, View(charTypes, chain.indices);
      ghost var v := t;
      ShowsItself(before, chain.indices);
      for k := 0 to |chain.indices|
        invariant Fits(chain) && Shows(before, charTypes, chain.indices, v)
        invariant forall j :: 0 <= j < k ==> v[j] == W6At(t, j)
        invariant forall j :: k <= j < |t| ==> v[j] == t[j]
      {
        ShowsView(before, charTypes, chain.indices, v);
        var bc := charTypes[chain.indices[k]];
        if bc.ES? || bc.CS? || bc.ET? {
          SetClass(chain, k, ON, before, v);
          v := v[k := ON];
        }
      }
      assert v == Rewrite(PassW6, chain, t);
    }

    /** Rule W7, from the end of each chain. */
    method ResolveEn(isoRuns: seq<IsolatingRunSequence>)
      requires Ready(isoRuns)
      modifies this`charTypes
      ensures Ready(isoRuns) && charTypes == RunPass(PassW7, old(charTypes), isoRuns, |isoRuns|)
    {
      for c := 0 to |isoRuns|
        invariant |charTypes| == |old(charTypes)| && Ready(isoRuns)
        invariant charTypes == RunPass(PassW7, old(charTypes), isoRuns, c)
      {
        RunPassStep(PassW7, old(charTypes), isoRuns, c, c + 1, charTypes);
        EnIn(isoRuns[c]);
      }
    }

    /** The class W7 gives position k, seen from the classes as they are. */
    method EnClass(chain: IsolatingRunSequence, k: nat) returns (bc: BidiClass)
      requires Fits(chain) && k < |chain.indices|
      ensures bc == W7At(View(charTypes, chain.indices), k, chain.sos)
    {
      ghost var v := View(charTypes, chain.indices);
      bc := charTypes[chain.indices[k]];
      assert v[k] == bc;
      if bc.EN? {
        var firstStrong := FirstDirectionBefore(charTypes, chain.indices, k, chain.sos);
        if firstStrong.L? {
          return L;
        }
      }
    }

    method EnIn(chain: IsolatingRunSequence)
      requires Fits(chain)
      modifies this`charTypes
      ensures Fits(chain)
      ensures charTypes == Scatter(old(charTypes), chain.indices, Rewrite(PassW7, chain, View(old(charTypes), chain.indices)))
    {
      ghost var before, t := charTypes, View(charTypes, chain.indices);
      ghost var r, v := Rewrite(PassW7, chain, t), t;
      ShowsItself(before, chain.indices);
      for k := |chain.indices| downto 0
        invariant Fits(chain) && Shows(before, charTypes, chain.indices, v) && Mixed(t, r, v, k)
      {
        ShowsView(before, charTypes, chain.indices, v);
        W7Mixed(chain, t, v, k);
        var bc := EnClass(chain, k);
        SetClassIfChanged(chain, k, bc, before, v);
        v := v[k := bc];
      }
      assert v == r;
    }

    // ----- N1, N2 -----

    /** Rule N1, from the end of each chain. */
    method ResolveNeutralsByContext(isoRuns: seq<IsolatingRunSequence>)
      requires Ready(isoRuns)
      modifies this`charTypes
      ensures Ready(isoRuns) && charTypes == RunPass(PassN1, old(charTypes), isoRuns, |isoRuns|)
    {
      for c := 0 to |isoRuns|
        invariant |charTypes| == |old(charTypes)| && Ready(isoRuns)
        invariant charTypes == RunPass(PassN1, old(charTypes), isoRuns, c)
      {
        RunPassStep(PassN1, old(charTypes), isoRuns, c, c + 1, charTypes);
        NeutralsByContextIn(isoRuns[c]);
      }
    }

    /** The class N1 gives position k, seen from the classes as they are. */
    method NeutralClass(chain: IsolatingRunSequence, k: nat) returns (bc: BidiClass)
      requires Fits(chain) && k < |chain.indices|
      ensures bc == N1At(View(charTypes, chain.indices), k, chain.sos, chain.eos)
    {
      ghost var v := View(charTypes, chain.indices);
      bc := charTypes[chain.indices[k]];
      assert v[k] == bc;
      if !IsNeutral(bc) {
        return;
      }
      var priorLeft := IsPriorContextLeft(charTypes, levels, chain.indices, k, chain.sos);
      var followingLeft := IsFollowingContextLeft(charTypes, levels, chain.indices, k, chain.eos);
      if priorLeft && followingLeft {
        return L;
      }
      var priorRight := IsPriorContextRight(charTypes, levels, chain.indices, k, chain.sos);
      var followingRight := IsFollowingContextRight(charTypes, levels, chain.indices, k, chain.eos);
      if priorRight && followingRight {
        return R;
      }
    }

    method NeutralsByContextIn(chain: IsolatingRunSequence)
      requires Fits(chain)
      modifies this`charTypes
      ensures Fits(chain)
      ensures charTypes == Scatter(old(charTypes), chain.indices, Rewrite(PassN1, chain, View(old(charTypes), chain.indices)))
    {
      ghost var before, t := charTypes, View(charTypes, chain.indices);
      ghost var r, v := Rewrite(PassN1, chain, t), t;
      ShowsItself(before, chain.indices);
      for k := |chain.indices| downto 0
        invariant Fits(chain) && Shows(before, charTypes, chain.indices, v) && Mixed(t, r, v, k)
      {
        ShowsView(before, charTypes, chain.indices, v);
        N1Mixed(chain, t, v, k);
        var bc := NeutralClass(chain, k);
        SetClassIfChanged(chain, k, bc, before, v);
        v := v[k := bc];
      }
      assert v == r;
    }

    /** Rule N2. */
    method ResolveNeutralsByLevel(isoRuns: seq<IsolatingRunSequence>)
      requires Ready(isoRuns)
      requires forall c :: 0 <= c < |isoRuns| ==> IndicesAt(levels, isoRuns[c].indices, isoRuns[c].level)
      modifies this`charTypes
      ensures Ready(isoRuns) && charTypes == RunPass(PassN2, old(charTypes), isoRuns, |isoRuns|)
    {
      for c := 0 to |isoRuns|
        invariant |charTypes| == |old(charTypes)| && Ready(isoRuns)
        invariant charTypes == RunPass(PassN2, old(charTypes), isoRuns, c)
      {
        RunPassStep(PassN2, old(charTypes), isoRuns, c, c + 1, charTypes);
        NeutralsByLevelIn(isoRuns[c]);
      }
    }

    method NeutralsByLevelIn(chain: IsolatingRunSequence)
      requires Fits(chain) && IndicesAt(levels, chain.indices, chain.level)
      modifies this`charTypes
      ensures Fits(chain)
      ensures charTypes == Scatter(old(charTypes), chain.indices, Rewrite(PassN2, chain, View(old(charTypes), chain.indices)))
    {
      ghost var before, t := charTypes, View(charTypes, chain.indices);
      ghost var r, v := Rewrite(PassN2, chain, t), t;
      ShowsItself(before, chain.indices);
      for k := |chain.indices| downto 0
        invariant Fits(chain) && Shows(before, charTypes, chain.indices, v) && Mixed(t, r, v, k)
      {
        ShowsView(before, charTypes, chain.indices, v);
        var idx := chain.indices[k];
        if IsNeutral(charTypes[idx]) {
          SetClass(chain, k, ClassOfLevel(levels[idx]), before, v);
          v := v[k := ClassOfLevel(levels[idx])];
        }
      }
      assert v == r;
    }

    // ----- N0 -----

    /** The marks of a chain: what its positions mean to the bracket pairing. */
    ghost function Marks(chain: IsolatingRunSequence, paragraph: seq<char>): seq<Mark>
      requires InRange(chain.indices, |charTypes|) && |paragraph| == |charTypes|
      reads this
    {
      MarksOf(View(charTypes, chain.indices), View(paragraph, chain.indices), table)
    }

    /** BD16 for one chain. False on overflow. */
    method FindPairs(chain: IsolatingRunSequence, paragraph: seq<char>, stack: BracketStack) returns (ok: bool)
      requires InRange(chain.indices, |charTypes|) && |paragraph| == |charTypes| && stack.Valid() && this !in stack.Repr
      modifies stack.Repr
      ensures stack.Valid()
      ensures ok <==> Pairing(Marks(chain, paragraph), |chain.indices|).Some?
      ensures ok ==> Pairing(Marks(chain, paragraph), |chain.indices|) == Some(stack.State())
    {
      ghost var marks := Marks(chain, paragraph);
      stack.Clear();
      for k := 0 to |chain.indices|
        invariant stack.Valid() && Pairing(marks, k) == Some(stack.State())
      {
        var cidx := chain.indices[k];
        var c := paragraph[cidx];
        assert marks[k] == MarkOf(charTypes[cidx], c, table);
        if c in table {
          if charTypes[cidx].ON? {
            if table[c].1 == Open {
              var pushed := stack.Push(table[c].0, k);
              if !pushed {
                PairingStops(marks, k + 1, |marks|);
                return false;
              }
            } else {
              var _ := stack.SeekMatchingOpenBracket(c, k);
            }
          }
        }
      }
      return true;
    }

    /** One position behind a bracket: a mark is set, and anything else that counts ends the loop. */
    method FixMark(chain: IsolatingRunSequence, k: nat, ghost next: nat, end: nat, bc: BidiClass, ghost before: Classes,
                   ghost v: Classes, ghost nsm: seq<bool>)
      returns (more: bool, ghost v': Classes)
      requires Fits(chain) && |origCharTypes| == |charTypes| && nsm == OriginalMarks(origCharTypes, chain.indices)
      requires k < end <= |chain.indices| && next == k + 1
      requires Shows(before, charTypes, chain.indices, v) && !IsRemovedClass(bc) && MarksStay(nsm, v)
      modifies this`charTypes
      ensures Fits(chain) && |charTypes| == |old(charTypes)|
      ensures Shows(before, charTypes, chain.indices, v') && MarksStay(nsm, v')
      ensures FixMarks(v, nsm, k, end, bc) == if more then FixMarks(v', nsm, next, end, bc) else v'
    {
      ShowsView(before, charTypes, chain.indices, v);
      FixMarksStep(v, nsm, k, next, end, bc);
      var cidx := chain.indices[k];
      assert nsm[k] == origCharTypes[cidx].NSM?;
      if origCharTypes[cidx].NSM? {
        SetClass(chain, k, bc, before, v);
        more, v' := true, v[k := bc];
      } else {
        more, v' := levels[cidx] == NO_LEVEL, v;
      }
    }

    /** The nonspacing marks that follow a bracket. */
    method FixMarksIn(chain: IsolatingRunSequence, from: nat, end: nat, bc: BidiClass, ghost before: Classes, ghost v: Classes,
                      ghost nsm: seq<bool>)
      returns (ghost v': Classes)
      requires Fits(chain) && |origCharTypes| == |charTypes| && nsm == OriginalMarks(origCharTypes, chain.indices)
      requires from <= end <= |chain.indices|
      requires Shows(before, charTypes, chain.indices, v) && !IsRemovedClass(bc) && MarksStay(nsm, v)
      modifies this`charTypes
      ensures Fits(chain) && Shows(before, charTypes, chain.indices, v') && MarksStay(nsm, v')
      ensures v' == FixMarks(v, nsm, from, end, bc)
    {
      v' := v;
      for k := from to end
        invariant Fits(chain) && |charTypes| == |origCharTypes|
        invariant Shows(before, charTypes, chain.indices, v') && MarksStay(nsm, v')
        invariant FixMarks(v', nsm, k, end, bc) == FixMarks(v, nsm, from, end, bc)
      {
        var more;
        more, v' := FixMark(chain, k, k + 1, end, bc, before, v', nsm);
        if !more {
          return;
        }
      }
    }

    method SetBrackets(pair: Pair, chain: IsolatingRunSequence, bc: BidiClass, ghost before: Classes, ghost v: Classes)
      requires Fits(chain) && PairIn(pair, |chain.indices|) && Shows(before, charTypes, chain.indices, v)
      requires !IsRemovedClass(v[pair.opening]) && !IsRemovedClass(v[pair.closing]) && !IsRemovedClass(bc)
      modifies this`charTypes
      ensures Fits(chain) && Shows(before, charTypes, chain.indices, v[pair.opening := bc][pair.closing := bc])
    {
      SetClass(chain, pair.opening, bc, before, v);
      SetClass(chain, pair.closing, bc, before, v[pair.opening := bc]);
    }

    /** Sets both brackets of a pair, and the marks behind each. */
    method SetBracketPairBc(pair: Pair, chain: IsolatingRunSequence, direction: Direction, ghost before: Classes, ghost v: Classes,
                            ghost nsm: seq<bool>)
      returns (ghost v': Classes)
      requires Fits(chain) && |origCharTypes| == |charTypes| && nsm == OriginalMarks(origCharTypes, chain.indices)
      requires PairIn(pair, |chain.indices|)
      requires Shows(before, charTypes, chain.indices, v) && MarksStay(nsm, v)
      requires !IsRemovedClass(v[pair.opening]) && !IsRemovedClass(v[pair.closing])
      modifies this`charTypes
      ensures Fits(chain) && Shows(before, charTypes, chain.indices, v') && MarksStay(nsm, v')
      ensures v' == SetPair(v, nsm, pair, direction)
    {
      var bc := direction.AsBidiClass();
      SetBrackets(pair, chain, bc, before, v);
      v' := FixBothMarks(pair, chain, bc, before, v[pair.opening := bc][pair.closing := bc], nsm);
    }

    /** The nonspacing marks that follow the two brackets of a pair. */
    method FixBothMarks(pair: Pair, chain: IsolatingRunSequence, bc: BidiClass, ghost before: Classes, ghost v: Classes,
                        ghost nsm: seq<bool>)
      returns (ghost v': Classes)
      requires Fits(chain) && |origCharTypes| == |charTypes| && nsm == OriginalMarks(origCharTypes, chain.indices)
      requires PairIn(pair, |chain.indices|) && !IsRemovedClass(bc)
      requires Shows(before, charTypes, chain.indices, v) && MarksStay(nsm, v)
      modifies this`charTypes
      ensures Fits(chain) && Shows(before, charTypes, chain.indices, v') && MarksStay(nsm, v')
      ensures v' == FixMarks(FixMarks(v, nsm, pair.opening + 1, pair.closing, bc), nsm, pair.closing + 1, |v|, bc)
    {
      v' := FixMarksIn(chain, pair.opening + 1, pair.closing, bc, before, v, nsm);
      v' := FixMarksIn(chain, pair.closing + 1, |chain.indices|, bc, before, v', nsm);
    }

    /** The strong classes between two brackets: whether the embedding direction or its
        opposite occurs. The scan stops at the embedding direction. */
    method StrongBetween(pair: Pair, chain: IsolatingRunSequence, embedding: Direction) returns (embeds: bool, opposes: bool)
      requires InRange(chain.indices, |charTypes|) && PairIn(pair, |chain.indices|)
      ensures embeds <==> Encloses(View(charTypes, chain.indices), pair.opening, pair.closing, embedding)
      ensures !embeds ==>
                (opposes <==> Encloses(View(charTypes, chain.indices), pair.opening, pair.closing, embedding.Opposite()))
    {
      ghost var v := View(charTypes, chain.indices);
      opposes := false;
      for k := pair.opening + 1 to pair.closing
        invariant forall j :: pair.opening < j < k ==> StrongDirection(v[j]) != Some(embedding)
        invariant opposes <==> exists j :: pair.opening < j < k && StrongDirection(v[j]) == Some(embedding.Opposite())
      {
        var direction := StrongDirection(charTypes[chain.indices[k]]);
        assert direction == StrongDirection(v[k]);
        if direction == Some(embedding) {
          return true, opposes;
        } else if direction == Some(embedding.Opposite()) {
          opposes := true;
        }
      }
      embeds := false;
    }

    /** Rule N0 for one pair. */
    method ResolveOnePair(pair: Pair, chain: IsolatingRunSequence, ghost before: Classes, ghost v: Classes, ghost nsm: seq<bool>)
      returns (ghost v': Classes)
      requires Fits(chain) && |origCharTypes| == |charTypes| && nsm == OriginalMarks(origCharTypes, chain.indices)
      requires PairIn(pair, |chain.indices|)
      requires Shows(before, charTypes, chain.indices, v) && MarksStay(nsm, v)
      requires !IsRemovedClass(v[pair.opening]) && !IsRemovedClass(v[pair.closing])
      modifies this`charTypes
      ensures Fits(chain) && Shows(before, charTypes, chain.indices, v') && MarksStay(nsm, v')
      ensures v' == ResolvePair(v, nsm, pair, DirectionOf(chain.level), chain.sos)
    {
      ShowsView(before, charTypes, chain.indices, v);
      v' := v;
      var embedding := DirectionOf(chain.level);
      var embeds, opposes := StrongBetween(pair, chain, embedding);
      if embeds {
        v' := SetBracketPairBc(pair, chain, embedding, before, v, nsm);
      } else if opposes {
        var opposite := embedding.Opposite();
        var inContext;
        if opposite == LTR {
          inContext := IsPriorContextLeft(charTypes, levels, chain.indices, pair.opening, chain.sos);
        } else {
          inContext := IsPriorContextRight(charTypes, levels, chain.indices, pair.opening, chain.sos);
        }
        if inContext {
          v' := SetBracketPairBc(pair, chain, opposite, before, v, nsm);
        } else {
          v' := SetBracketPairBc(pair, chain, embedding, before, v, nsm);
        }
      }
    }

    /** What holds before pair i is resolved: v is what the chain shows. */
    ghost predicate ResolvingPairs(chain: IsolatingRunSequence, pairs: seq<Pair>, i: nat, before: Classes, t: Classes, v: Classes)
      reads this
    {
      && Fits(chain) && |origCharTypes| == |charTypes| && |before| == |charTypes|
      && |t| == |v| == |chain.indices| && PairsIn(pairs, |t|) && i <= |pairs|
      && Shows(before, charTypes, chain.indices, v)
      && MarksStay(OriginalMarks(origCharTypes, chain.indices), v)
      && BracketsStand(v, pairs)
      && v == ResolvePairs(t, OriginalMarks(origCharTypes, chain.indices), pairs, i, DirectionOf(chain.level), chain.sos)
    }

    method ResolveNextPair(chain: IsolatingRunSequence, pairs: seq<Pair>, i: nat, ghost before: Classes, ghost t: Classes, ghost v: Classes)
      returns (ghost v': Classes)
      requires i < |pairs| && ResolvingPairs(chain, pairs, i, before, t, v)
      modifies this`charTypes
      ensures ResolvingPairs(chain, pairs, i + 1, before, t, v')
    {
      ghost var nsm := OriginalMarks(origCharTypes, chain.indices);
      BracketsStandNext(v, nsm, pairs, i, DirectionOf(chain.level), chain.sos);
      ResolvePairsStep(t, nsm, pairs, i, i + 1, DirectionOf(chain.level), chain.sos, v);
      v' := ResolveOnePair(pairs[i], chain, before, v, nsm);
    }

    /** Rule N0 for the pairs of one chain, in the order of their opening brackets. */
    method ResolvePairsIn(chain: IsolatingRunSequence, pairs: seq<Pair>)
      requires Fits(chain) && Marked(origCharTypes, levels)
      requires BracketsStand(View(charTypes, chain.indices), pairs)
      modifies this`charTypes
      ensures Fits(chain)
      ensures charTypes == Scatter(old(charTypes), chain.indices,
                ResolvePairs(View(old(charTypes), chain.indices), OriginalMarks(origCharTypes, chain.indices),
                             pairs, |pairs|, DirectionOf(chain.level), chain.sos))
    {
      ghost var before, t := charTypes, View(charTypes, chain.indices);
      ghost var v := t;
      ShowsItself(before, chain.indices);
      MarksStayAtFirst(origCharTypes, charTypes, levels, chain.indices);
      for i := 0 to |pairs|
        invariant ResolvingPairs(chain, pairs, i, before, t, v)
      {
        v := ResolveNextPair(chain, pairs, i, before, t, v);
      }
    }

    /** Rule N0 for one chain. False on overflow, which leaves the chain as it is. */
    method BracketsIn(chain: IsolatingRunSequence, paragraph: seq<char>, stack: BracketStack) returns (ok: bool)
      requires Fits(chain) && Marked(origCharTypes, levels) && |paragraph| == |charTypes|
      requires stack.Valid() && this !in stack.Repr
      modifies this`charTypes, stack.Repr
      ensures stack.Valid() && Fits(chain)
      ensures var r := N0(View(old(charTypes), chain.indices), OriginalMarks(origCharTypes, chain.indices),
                          View(paragraph, chain.indices), table, chain.level, chain.sos);
              && ok == r.Some?
              && charTypes == if ok then Scatter(old(charTypes), chain.indices, r.value) else old(charTypes)
    {
      ghost var marks := Marks(chain, paragraph);
      ok := FindPairs(chain, paragraph, stack);
      if !ok {
        return;
      }
      PairsOfChain(marks);
      if stack.pairs == [] {
        NoPairs(charTypes, chain.indices);
        return;
      }
      var pairs := SortByOpening(stack.pairs);
      forall i | 0 <= i < |pairs| ensures marks[pairs[i].opening] != NoMark && marks[pairs[i].closing] != NoMark {
        PairMarks(marks, i);
      }
      ResolvePairsIn(chain, pairs);
    }

    /** Rule N0. Without the characters there is nothing to do; an overflow ends the rule. */
    method ResolvePairedBrackets(isoRuns: seq<IsolatingRunSequence>, paragraph: seq<char>)
      requires Ready(isoRuns) && Marked(origCharTypes, levels)
      requires paragraph == [] || |paragraph| == |charTypes|
      modifies this`charTypes
      ensures Ready(isoRuns)
      ensures charTypes == AfterN0(origCharTypes, paragraph, table, old(charTypes), isoRuns)
    {
      if paragraph == [] {
        return;
      }
      var stack := new BracketStack();
      for c := 0 to |isoRuns|
        invariant Ready(isoRuns) && stack.Valid() && fresh(stack.Repr) && |charTypes| == |old(charTypes)|
        invariant RunN0(origCharTypes, paragraph, table, old(charTypes), isoRuns, c) == N0State(charTypes, false)
      {
        RunN0Step(origCharTypes, paragraph, table, old(charTypes), isoRuns, c, c + 1, charTypes);
        var ok := BracketsIn(isoRuns[c], paragraph, stack);
        if !ok {
          N0Halts(origCharTypes, paragraph, table, old(charTypes), isoRuns, c + 1, |isoRuns|);
          return;
        }
      }
    }

    // ----- I1, I2 -----

    method ResolveImplicitLevels()
      requires |charTypes| == |levels|
      modifies this`levels
      ensures |levels| == |old(levels)|
      ensures forall p :: 0 <= p < |levels| ==> levels[p] == ImplicitLevel(old(levels)[p], charTypes[p])
    {
      for p := 0 to |levels|
        invariant |levels| == |old(levels)|
        invariant forall q :: 0 <= q < p ==> levels[q] == ImplicitLevel(old(levels)[q], charTypes[q])
        invariant forall q :: p <= q < |levels| ==> levels[q] == old(levels)[q]
      {
        var level := levels[p];
        if level != NO_LEVEL {
          match DirectionOf(level) {
            case LTR =>
              if charTypes[p].R? {
                levels := levels[p := level + 1];
              } else if charTypes[p].AN? || charTypes[p].EN? {
                levels := levels[p := level + 2];
              }
            case RTL =>
              if charTypes[p].L? || charTypes[p].AN? || charTypes[p].EN? {
                levels := levels[p := level + 1];
              }
          }
        }
      }
    }

    // ----- the whole algorithm -----

    /** W1 to N2 over the given sequences. */
    method ResolveClasses(isoRuns: seq<IsolatingRunSequence>, paragraph: seq<char>)
      requires Ready(isoRuns) && Marked(origCharTypes, levels)
      requires paragraph == [] || |paragraph| == |charTypes|
      requires forall c :: 0 <= c < |isoRuns| ==> IndicesAt(levels, isoRuns[c].indices, isoRuns[c].level)
      modifies this`charTypes
      ensures charTypes == FinalClasses(origCharTypes, paragraph, table, old(charTypes), isoRuns)
    {
      ResolveWeak(isoRuns);
      ResolvePairedBrackets(isoRuns, paragraph);
      ghost var n0 := charTypes;
      ResolveNeutralsByContext(isoRuns);
      ResolveNeutralsByLevel(isoRuns);
      NeutralPassesAre(n0, isoRuns);
    }

    method ResolveWeak(isoRuns: seq<IsolatingRunSequence>)
      requires Ready(isoRuns)
      modifies this`charTypes
      ensures Ready(isoRuns)
      ensures charTypes == RunPasses(WEAK_PASSES, old(charTypes), isoRuns, |WEAK_PASSES|)
    {
      ghost var t := charTypes;
      ResolveLetters(isoRuns, t);
      ResolveNumberContext(isoRuns, t);
      ResolveRemainingNumbers(isoRuns, t);
    }

    /** W1 to W3. */
    method ResolveLetters(isoRuns: seq<IsolatingRunSequence>, ghost t: Classes)
      requires Ready(isoRuns) && t == charTypes
      modifies this`charTypes
      ensures Ready(isoRuns) && |charTypes| == |t| && charTypes == RunPasses(WEAK_PASSES, t, isoRuns, 3)
    {
      ResolveCombiningMarks(isoRuns);
      PassAfter(WEAK_PASSES, t, isoRuns, 0, t, charTypes);
      ghost var w1 := charTypes;
      ResolveEuropeanNumbers(isoRuns);
      PassAfter(WEAK_PASSES, t, isoRuns, 1, w1, charTypes);
      ghost var w2 := charTypes;
      ResolveArabicLetters(isoRuns);
      PassAfter(WEAK_PASSES, t, isoRuns, 2, w2, charTypes);
    }

    /** W4 and W5. */
    method ResolveNumberContext(isoRuns: seq<IsolatingRunSequence>, ghost t: Classes)
      requires Ready(isoRuns) && |charTypes| == |t| && charTypes == RunPasses(WEAK_PASSES, t, isoRuns, 3)
      modifies this`charTypes
      ensures Ready(isoRuns) && |charTypes| == |t| && charTypes == RunPasses(WEAK_PASSES, t, isoRuns, 5)
    {
      ghost var w3 := charTypes;
      ResolveSeparators(isoRuns);
      PassAfter(WEAK_PASSES, t, isoRuns, 3, w3, charTypes);
      ghost var w4 := charTypes;
      ResolveTerminators(isoRuns);
      PassAfter(WEAK_PASSES, t, isoRuns, 4, w4, charTypes);
    }

    /** W6 and W7. */
    method ResolveRemainingNumbers(isoRuns: seq<IsolatingRunSequence>, ghost t: Classes)
      requires Ready(isoRuns) && |charTypes| == |t| && charTypes == RunPasses(WEAK_PASSES, t, isoRuns, 5)
      modifies this`charTypes
      ensures Ready(isoRuns) && |charTypes| == |t| && charTypes == RunPasses(WEAK_PASSES, t, isoRuns, 7)
    {
      ghost var w5 := charTypes;
      ResolveEsCsEt(isoRuns);
      PassAfter(WEAK_PASSES, t, isoRuns, 5, w5, charTypes);
      ghost var w6 := charTypes;
      ResolveEn(isoRuns);
      PassAfter(WEAK_PASSES, t, isoRuns, 6, w6, charTypes);
    }

    /** The context holds a resolved paragraph whose characters were `chars`. */
    ghost predicate Resolved(chars: seq<char>)
      reads this
    {
      && Processed(origCharTypes, baseLevel) && (chars == [] || |chars| == |origCharTypes|)
      && charTypes == ResolvedClasses(origCharTypes, baseLevel, chars, table)
      && levels == ResolvedLevels(origCharTypes, baseLevel, chars, table)
    }

    /** X1 to X9: the vectors become functions of the original classes and the paragraph
        level alone, whatever the context held before. */
    method ResolveExplicit() returns (ok: bool)
      requires 0 <= baseLevel <= 1
      modifies this`charTypes, this`levels
      ensures ok <==> Processed(old(charTypes), baseLevel)
      ensures ok ==> charTypes == ExplicitClasses(old(charTypes), baseLevel)
      ensures ok ==> levels == ExplicitLevelsOf(old(charTypes), baseLevel)
    {
      ghost var orig := charTypes;
      CompletesIsProcessed(orig, baseLevel);
      ok := ExplicitEmbeddingLevels();
      if ok {
        ghost var levels' := levels;
        DeleteFormatCharacters();
        ExplicitIsWhole(orig, baseLevel, charTypes, levels', levels);
      }
    }

    /** P2, P3 and all rules from X1 to I2. False where the source panics in X6a. */
    method Resolve(hint: ParagraphDirectionHint, paragraph: seq<char>) returns (ok: bool)
      requires paragraph == [] || |paragraph| == |origCharTypes|
      modifies this
      ensures origCharTypes == old(origCharTypes) && baseLevel == HintLevel(origCharTypes, hint)
      ensures ok <==> X.Completes(origCharTypes, baseLevel, MAX_DEPTH)
      ensures ok ==> Resolved(paragraph)
    {
      charTypes := origCharTypes;
      match hint {
        case LeftToRight => baseLevel := 0;
        case RightToLeft => baseLevel := 1;
        case AutoLeftToRight => baseLevel := ComputeParagraphLevel(charTypes, false, LTR);
        case AutoRightToLeft => baseLevel := ComputeParagraphLevel(charTypes, false, RTL);
      }
      CompletesIsProcessed(origCharTypes, baseLevel);
      ok := ResolveExplicit();
      if ok {
        ResolveText(paragraph);
      }
    }

    /** X10 to I2. */
    method ResolveText(paragraph: seq<char>)
      requires Processed(origCharTypes, baseLevel) && (paragraph == [] || |paragraph| == |origCharTypes|)
      requires charTypes == ExplicitClasses(origCharTypes, baseLevel)
      requires levels == ExplicitLevelsOf(origCharTypes, baseLevel)
      modifies this`charTypes, this`levels, this`runs
      ensures Resolved(paragraph)
    {
      ExplicitMarked(origCharTypes, baseLevel);
      SequencesAreFit(charTypes, levels, baseLevel);
      IdentifyRuns();
      var isoRuns := IdentifyIsolatingRunSequences();
      ResolveClasses(isoRuns, paragraph);
      ResolveImplicitLevels();
    }

    method ResolveParagraph(paragraph: seq<char>, hint: ParagraphDirectionHint) returns (ok: bool)
      modifies this
      ensures origCharTypes == seq(|paragraph|, k requires 0 <= k < |paragraph| => classOf(paragraph[k]))
      ensures baseLevel == HintLevel(origCharTypes, hint)
      ensures ok <==> X.Completes(origCharTypes, baseLevel, MAX_DEPTH)
      ensures ok ==> Resolved(paragraph)
    {
      origCharTypes := seq(|paragraph|, k requires 0 <= k < |paragraph| => classOf(paragraph[k]));
      ok := Resolve(hint, paragraph);
    }

    method SetCharTypes(types: Classes, hint: ParagraphDirectionHint) returns (ok: bool)
      modifies this
      ensures origCharTypes == types && baseLevel == HintLevel(types, hint)
      ensures ok <==> X.Completes(types, baseLevel, MAX_DEPTH)
      ensures ok ==> Resolved([])
    {
      origCharTypes := types;
      ok := Resolve(hint, []);
    }

    // ----- lines -----

    /** L1 and L2 for the line start..end of a resolved paragraph. */
    method ReorderLine(start: nat, end: nat, ghost chars: seq<char>) returns (line: seq<Level>, order: seq<int>)
      requires Resolved(chars) && start <= end <= |origCharTypes|
      ensures line == L1(origCharTypes, levels, baseLevel, start, end)
      ensures FollowsReversals(line, LowestOdd(line), start, order)
      ensures InClosedForm(line, start, order) <==> HasOddLevel(line) || !HasAdjacentTop(line)
    {
      ResolvedBounds(origCharTypes, baseLevel, chars, table);
      line := ResetWhitespaceLevels(origCharTypes, levels, baseLevel, start, end);
      L1Bounds(origCharTypes, levels, baseLevel, start, end, MAX_DEPTH + 1);
      order := ReverseLevels(start, line);
      ClosedFormExact(line, start, order);
    }

    /** The runs of a line in display order. For a line at the start of the paragraph that L2
        orders as it should, they read off that order and each is a stretch of one level. For a
        later one they fail if a character is shown behind the length of the line, and otherwise
        list only the beginning of the order. */
    method ReorderedRuns(start: nat, end: nat, ghost chars: seq<char>) returns (r: Option<seq<R.ReorderedRun>>)
      requires Resolved(chars) && start <= end <= |origCharTypes|
      ensures var line := L1(origCharTypes, levels, baseLevel, start, end);
              r.None? <==> exists v :: Shown(line, v) && v + start >= |line|
      ensures var line := L1(origCharTypes, levels, baseLevel, start, end);
              exists order :: FollowsReversals(line, LowestOdd(line), start, order) && ListedRuns(line, start, order, r)
      ensures var line := L1(origCharTypes, levels, baseLevel, start, end);
              start == 0 && (HasOddLevel(line) || !HasAdjacentTop(line)) ==>
              && r.Some?
              && InClosedForm(line, 0, R.AllIndices(r.value))
              && R.RightRuns(line, R.AllIndices(r.value), r.value)
    {
      var line, order := ReorderLine(start, end, chars);
      r := R.ComputeReorderedRuns(line, order);
      R.InLineExactly(line, start, order);
      if r.Some? {
        R.RunsListPrefix(line, start, order);
      }
      assert ListedRuns(line, start, order, r);
      if start == 0 && (HasOddLevel(line) || !HasAdjacentTop(line)) {
        R.ReorderedRunsAre(line, order);
      }
    }

    /** The runs of the whole paragraph, in logical order. */
    method Runs() returns (iter: RunIter)
      ensures fresh(iter) && iter.Valid() && iter.pos == 0 && iter.levels == levels && iter.offset == 0
    {
      iter := new RunIter(levels, 0);
    }

    /** The runs of one line, after L1. */
    method LineRuns(start: nat, end: nat, ghost chars: seq<char>) returns (iter: RunIter)
      requires Resolved(chars) && start <= end <= |origCharTypes|
      ensures fresh(iter) && iter.Valid() && iter.pos == 0 && iter.offset == start
      ensures iter.levels == L1(origCharTypes, levels, baseLevel, start, end)
    {
      ResolvedBounds(origCharTypes, baseLevel, chars, table);
      var line := ResetWhitespaceLevels(origCharTypes, levels, baseLevel, start, end);
      iter := new RunIter(line, start);
    }
  }
}
