/** BD13 for the classes of the text itself: an override hides an isolate initiator from the code,
    and where that splits a sequence. */
module OverriddenIsolates {
  import opened Wrappers
  import opened BidiTypes
  import opened LevelStacks
  import opened ExplicitLevels
  import opened IsolateNesting
  import opened LevelRuns
  import opened IsolatingRuns
  import opened IsolateMatching
  import opened ParagraphSpec

  /** The last character of run r that is not removed is i. */
  predicate Ends(p: Paragraph, r: nat, i: nat)
    requires |p.types| == |p.levels| && r < |p.runs|
  {
    && p.runs[r].start <= i < p.runs[r].end <= |p.types|
    && p.levels[i] != NO_LEVEL
    && forall q :: i < q < p.runs[r].end ==> p.levels[q] == NO_LEVEL
  }

  /** BD13 as it reads: run r ends in an isolate initiator of the text and run s begins with the
      PDI that matches it. */
  ghost predicate Bd13Joined(p: Paragraph, r: nat, s: nat)
    requires |p.types| == |p.levels|
  {
    && r < s < |p.runs|
    && exists i: nat, j: nat :: Ends(p, r, i) && Begins(p, s, j) && Matches(p.orig, i, j)
  }

  ghost predicate NoneBd13Joined(p: Paragraph, r: nat)
    requires |p.types| == |p.levels|
  {
    forall s: nat :: !Bd13Joined(p, r, s)
  }

  ghost predicate FollowsText(p: Paragraph, r: nat, rest: seq<nat>)
    requires |p.types| == |p.levels|
    decreases |rest|
  {
    if rest == [] then NoneBd13Joined(p, r)
    else Bd13Joined(p, r, rest[0]) && FollowsText(p, rest[0], rest[1..])
  }

  /** Every sequence is one of BD13. */
  ghost predicate AllFollowText(p: Paragraph, chains: seq<seq<nat>>)
    requires |p.types| == |p.levels|
  {
    forall c :: 0 <= c < |chains| ==> chains[c] != [] && FollowsText(p, chains[c][0], chains[c][1..])
  }

  /** An initiator that an override has rewritten, with something between it and its PDI. */
  ghost predicate OverriddenAt(p: Paragraph, i: nat)
    requires |p.types| == |p.levels| == |p.orig|
  {
    && i < |p.orig| && IsIsoInit(p.orig[i]) && !IsIsoInit(p.types[i])
    && exists j: nat, q: nat :: Matches(p.orig, i, j) && i < q < j && p.levels[q] != NO_LEVEL
  }

  // ----- initiators of the text -----

  /** Without overflow every initiator opens its isolate, also under an override. */
  lemma TextInitiatorOpens(p: Paragraph, i: nat)
    requires WellNested(p) && i < |p.orig| && IsIsoInit(p.orig[i])
    ensures p.levels[i] != NO_LEVEL && StateAt(p.orig, p.base, p.cap, i).Some?
    ensures Opens(StateAt(p.orig, p.base, p.cap, i).value, OpensOdd(p.orig, i))
  {
    assert ResolvedAt(p, i);
    ExplicitLevelBounds(p.orig, p.base, p.cap, i);
    var s, s' := StateAt(p.orig, p.base, p.cap, i), StateAt(p.orig, p.base, p.cap, i + 1);
    assert s.value.overflowIsolate == 0 && s'.value.overflowIsolate == 0;
    assert s' == Step(s.value, p.orig[i], OpensOdd(p.orig, i), p.cap);
  }

  lemma OpenContents(p: Paragraph, i: nat, q: nat)
    requires WellNested(p) && i < q < |p.orig| && OpenUntil(p.orig, i, q + 1) && IsIsoInit(p.orig[i])
    requires p.levels[q] != NO_LEVEL && !p.orig[q].B?
    ensures p.levels[q] > p.levels[i]
  {
    TextInitiatorOpens(p, i);
    assert ResolvedAt(p, i);
    assert ResolvedAt(p, q);
    IsolateContents(p.orig, p.base, p.cap, i, q);
  }

  lemma TextInnerLevel(p: Paragraph, i: nat, j: nat, q: nat)
    requires WellNested(p) && Matches(p.orig, i, j) && i < q < j && p.levels[q] != NO_LEVEL
    ensures p.levels[q] > p.levels[i]
  {
    OpenUntilPrefix(p.orig, i, q + 1, j);
    OpenContents(p, i, q);
  }

  lemma TextMatchedEnds(p: Paragraph, i: nat, j: nat)
    requires WellNested(p) && Matches(p.orig, i, j)
    ensures p.levels[j] == p.levels[i] != NO_LEVEL
  {
    TextInitiatorOpens(p, i);
    assert ResolvedAt(p, i);
    assert ResolvedAt(p, j);
    IsolateEndsAgree(p.orig, p.base, p.cap, i, j);
  }

  // ----- the code's joins and those of BD13 -----

  lemma JoinedIsBd13(p: Paragraph, r: nat, s: nat)
    requires WellNested(p) && Joined(p, r, s)
    ensures Bd13Joined(p, r, s)
  {
    var i := p.runs[r].end - 1;
    InitiatorOpens(p, i);
    assert RunAt(p.types, p.levels, 0, p.runs, r);
    assert Ends(p, r, i);
  }

  /** A run that ends in an initiator of the text, not rewritten, ends in it for the code too. */
  lemma EndsInKept(p: Paragraph, r: nat, i: nat)
    requires WellNested(p) && r < |p.runs| && Ends(p, r, i) && IsIsoInit(p.types[i])
    ensures p.runs[r].end - 1 == i
  {
    assert RunAt(p.types, p.levels, 0, p.runs, r);
  }

  /** If an initiator ends a run although nothing stands before its PDI, it was not rewritten. */
  lemma EmptyIsolateKept(p: Paragraph, r: nat, i: nat, j: nat)
    requires WellNested(p) && r < |p.runs| && Ends(p, r, i)
    requires Matches(p.orig, i, j) && forall q :: i < q < j ==> p.levels[q] == NO_LEVEL
    ensures IsIsoInit(p.types[i])
  {
    TextMatchedEnds(p, i, j);
    var run := p.runs[r];
    assert RunAt(p.types, p.levels, 0, p.runs, r);
    assert run.end <= j;
    assert IsBoundary(p.types, p.levels, run);
  }

  lemma Bd13IsJoined(p: Paragraph, r: nat, s: nat)
    requires WellNested(p) && Bd13Joined(p, r, s) && forall i: nat :: !OverriddenAt(p, i)
    ensures Joined(p, r, s)
  {
    var i: nat, j: nat :| Ends(p, r, i) && Begins(p, s, j) && Matches(p.orig, i, j);
    if forall q :: i < q < j ==> p.levels[q] == NO_LEVEL {
      EmptyIsolateKept(p, r, i, j);
    }
    assert !OverriddenAt(p, i);
    EndsInKept(p, r, i);
  }

  lemma {:induction false} FollowsSame(p: Paragraph, r: nat, rest: seq<nat>)
    requires WellNested(p) && FollowsBD13(p, r, rest) && forall i: nat :: !OverriddenAt(p, i)
    ensures FollowsText(p, r, rest)
    decreases |rest|
  {
    if rest == [] {
      forall s: nat ensures !Bd13Joined(p, r, s) {
        if Bd13Joined(p, r, s) {
          Bd13IsJoined(p, r, s);
        }
      }
    } else {
      JoinedIsBd13(p, r, rest[0]);
      FollowsSame(p, rest[0], rest[1..]);
    }
  }

  /** A rewritten initiator with contents ends a run of its own level; the run of its PDI begins
      with the PDI. */
  lemma OverriddenRuns(p: Paragraph, i: nat) returns (r: nat, s: nat)
    requires WellNested(p) && OverriddenAt(p, i)
    ensures Bd13Joined(p, r, s) && Ends(p, r, i)
  {
    var j: nat, q: nat :| Matches(p.orig, i, j) && i < q < j && p.levels[q] != NO_LEVEL;
    TextMatchedEnds(p, i, j);
    TextInnerLevel(p, i, j, q);
    r := RunContaining(p.types, p.levels, 0, p.runs, i);
    s := RunContaining(p.types, p.levels, 0, p.runs, j);
    assert RunAt(p.types, p.levels, 0, p.runs, r) && RunAt(p.types, p.levels, 0, p.runs, s);
    assert p.runs[r].end <= q < p.runs[s].start;
    if s < r {
      RunsAscend(p.types, p.levels, 0, p.runs, s, r);
    }
    forall x | i < x < p.runs[r].end ensures p.levels[x] == NO_LEVEL {
      if p.levels[x] != NO_LEVEL {
        TextInnerLevel(p, i, j, x);
      }
    }
    forall x | p.runs[s].start <= x < j ensures p.levels[x] == NO_LEVEL {
      if p.levels[x] != NO_LEVEL {
        TextInnerLevel(p, i, j, x);
      }
    }
    assert Ends(p, r, i) && Begins(p, s, j);
  }

  /** In a sequence of BD13 a run that is joined to another is followed. */
  lemma {:induction false} FollowedInChain(p: Paragraph, chain: seq<nat>, x: nat, s: nat)
    requires |p.types| == |p.levels| && chain != [] && FollowsText(p, chain[0], chain[1..])
    requires x < |chain| && Bd13Joined(p, chain[x], s)
    ensures x + 1 < |chain|
    decreases x
  {
    if x > 0 {
      assert chain[1..][0] == chain[1] && chain[1..][1..] == chain[2..];
      FollowedInChain(p, chain[1..], x - 1, s);
    }
  }

  lemma RewrittenEnd(p: Paragraph, r: nat, i: nat)
    requires WellNested(p) && r < |p.runs| && Ends(p, r, i) && !IsIsoInit(p.types[i])
    ensures !EndsInInitiator(p.types, p.runs[r])
  {
    var last := p.runs[r].end - 1;
    if IsIsoInit(p.types[last]) {
      InitiatorOpens(p, last);
    }
  }

  lemma SplitInChain(p: Paragraph, chain: seq<nat>, x: nat, s: nat)
    requires InText(p.types, p.levels, p.runs) && RunsLinked(p.types, p.levels, p.runs, chain) && x < |chain|
    requires Bd13Joined(p, chain[x], s) && !EndsInInitiator(p.types, p.runs[chain[x]])
    ensures !FollowsText(p, chain[0], chain[1..])
  {
    assert x + 1 < |chain| ==> LinkAt(p.types, p.levels, p.runs, chain, x + 1);
    if FollowsText(p, chain[0], chain[1..]) {
      FollowedInChain(p, chain, x, s);
    }
  }

  /** So the code splits the sequence there. */
  lemma OverriddenSplits(p: Paragraph, i: nat)
    requires WellNested(p) && InText(p.types, p.levels, p.runs) && OverriddenAt(p, i)
    ensures !AllFollowText(p, Chains(p.types, p.levels, p.runs, {}, 0))
  {
    var r, s := OverriddenRuns(p, i);
    RewrittenEnd(p, r, i);
    var chains := Chains(p.types, p.levels, p.runs, {}, 0);
    ChainsPartition(p.types, p.levels, p.runs, {}, 0);
    ChainsLinked(p.types, p.levels, p.runs, {}, 0);
    assert Owned(chains, r);
    var c :| 0 <= c < |chains| && r in chains[c];
    var x: nat :| x < |chains[c]| && chains[c][x] == r;
    assert chains[c] in chains;
    SplitInChain(p, chains[c], x, s);
  }

  /** The sequences are those of BD13 for the text itself if and only if no override has rewritten
      an initiator with something between it and its PDI. */
  lemma TextBD13Exactly(p: Paragraph)
    requires WellNested(p) && InText(p.types, p.levels, p.runs)
    ensures AllFollowText(p, Chains(p.types, p.levels, p.runs, {}, 0)) <==> forall i: nat :: !OverriddenAt(p, i)
  {
    var chains := Chains(p.types, p.levels, p.runs, {}, 0);
    if forall i: nat :: !OverriddenAt(p, i) {
      SequencesAreBD13(p);
      forall c | 0 <= c < |chains| ensures chains[c] != [] && FollowsText(p, chains[c][0], chains[c][1..]) {
        FollowsSame(p, chains[c][0], chains[c][1..]);
      }
    }
    if i: nat :| OverriddenAt(p, i) {
      OverriddenSplits(p, i);
    }
  }

  /** So it is for the code: for every paragraph that drops no push, overflows no isolate and has a
      paragraph separator only at its end. */
  lemma SourceBD13Exactly(orig: seq<BidiClass>, base: Level)
    requires 0 <= base <= 1 && FitsSourceStack(orig, base) && Processed(orig, base)
    requires forall k :: 0 <= k <= |orig| ==> StateAt(orig, base, MAX_DEPTH, k).value.overflowIsolate == 0
    requires forall k :: 0 <= k < |orig| - 1 ==> !orig[k].B?
    ensures var p := AfterX9(orig, base);
            AllFollowText(p, RunLists(p.types, p.levels, base)) <==> forall i: nat :: !OverriddenAt(p, i)
  {
    var p := AfterX9(orig, base);
    SourceSequencesAreBD13(orig, base);
    RunListsAre(p.types, p.levels, base);
    TextBD13Exactly(p);
  }

  // ----- an input -----

  /** An isolate under an override. */
  const HIDDEN: seq<BidiClass> := [RLO, RLI, L, PDI]

  function Outside(): State {
    State([Entry(0, Neutral, false), Entry(1, ForceR, false)], 0, 0, 0)
  }

  function Within(): State {
    State([Entry(0, Neutral, false), Entry(1, ForceR, false), Entry(3, Neutral, true)], 0, 0, 1)
  }

  lemma HiddenSteps()
    ensures Step(Initial(0), RLO, true, MAX_DEPTH) == Some(Outside())
    ensures Step(Outside(), RLI, true, MAX_DEPTH) == Some(Within())
    ensures Step(Within(), L, false, MAX_DEPTH) == Some(Within())
    ensures Step(Within(), PDI, false, MAX_DEPTH) == Some(Outside())
  {
    assert Initial(0).Top() == Entry(0, Neutral, false) && LeastGreater(0, true) == Some(1);
    assert Initial(0).stack + [Entry(1, ForceR, false)] == Outside().stack;
    assert Outside().Top() == Entry(1, ForceR, false) && LeastGreater(1, true) == Some(3);
    assert Outside().stack + [Entry(3, Neutral, true)] == Within().stack;
    assert Within().stack[..2] == Outside().stack;
    assert PopThroughIsolate(Within().stack) == Some(Within().stack[..2]);
  }

  function HiddenState(k: nat): State {
    if k == 0 then Initial(0) else if k == 1 || k == 4 then Outside() else Within()
  }

  lemma HiddenStates(k: nat, next: nat)
    requires k < 4 && next == k + 1 && StateAt(HIDDEN, 0, MAX_DEPTH, k) == Some(HiddenState(k))
    ensures StateAt(HIDDEN, 0, MAX_DEPTH, next) == Some(HiddenState(next))
  {
    HiddenSteps();
    assert HIDDEN[0] == RLO && HIDDEN[1] == RLI && HIDDEN[2] == L && HIDDEN[3] == PDI;
    assert Step(HiddenState(k), HIDDEN[k], OpensOdd(HIDDEN, k), MAX_DEPTH) == Some(HiddenState(next));
  }

  lemma HiddenRun()
    ensures forall k :: 0 <= k <= 4 ==> StateAt(HIDDEN, 0, MAX_DEPTH, k) == Some(HiddenState(k))
  {
    assert StateAt(HIDDEN, 0, MAX_DEPTH, 0) == Some(HiddenState(0));
    HiddenStates(0, 1);
    HiddenStates(1, 2);
    HiddenStates(2, 3);
    HiddenStates(3, 4);
  }

  lemma HiddenMatches()
    ensures Matches(HIDDEN, 1, 3)
  {
    assert Nesting(HIDDEN, 1, 1) == 0;
    assert Nesting(HIDDEN, 1, 2) == 1;
    assert Nesting(HIDDEN, 1, 3) == 1;
    assert OpenUntil(HIDDEN, 1, 2);
  }

  lemma {:induction false} FewInitiators(types: seq<BidiClass>, k: nat)
    requires k <= |types|
    ensures CountInitiators(types, k) <= k
    decreases k
  {
    if k > 0 {
      FewInitiators(types, k - 1);
    }
  }

  lemma HiddenOverridden()
    ensures Processed(HIDDEN, 0) && OverriddenAt(AfterX9(HIDDEN, 0), 1)
  {
    HiddenRun();
    HiddenMatches();
    var p := AfterX9(HIDDEN, 0);
    assert p.types[1] == R && p.levels[2] == 3;
    assert Matches(p.orig, 1, 3) && 1 < 2 < 3;
  }

  /** The code gives the initiator and its PDI to different sequences. */
  lemma HiddenSplits()
    ensures Processed(HIDDEN, 0)
    ensures var p := AfterX9(HIDDEN, 0); OverriddenAt(p, 1) && !AllFollowText(p, RunLists(p.types, p.levels, 0))
  {
    HiddenOverridden();
    HiddenRun();
    FewInitiators(HIDDEN, |HIDDEN|);
    FewInitiatorsFit(HIDDEN, 0);
    SourceBD13Exactly(HIDDEN, 0);
  }
}
