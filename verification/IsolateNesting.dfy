/** What rules X1 to X8 promise: the stack invariant over every step, when no push is
    dropped, and that an isolate leaves no trace after its matching PDI. */
module IsolateNesting {
  import opened Wrappers
  import opened BidiTypes
  import opened LevelStacks
  import opened ExplicitLevels

  /** The stack size section 3.3.2 of UAX #9 asks for: max_depth + 2. */
  const UAX_DEPTH := MAX_DEPTH + 2

  /** `cap` slots are enough for every level from `base` to MAX_DEPTH. */
  predicate Roomy(base: Level, cap: nat) {
    0 <= base <= 1 && base + cap >= MAX_DEPTH + 1
  }

  // ----- the stack invariant -----

  lemma {:induction false} DepthBound(s: State, base: Level, i: nat)
    requires WellFormed(s, base) && i < |s.stack|
    ensures base + i <= s.stack[i].level
  {
    if i > 0 {
      DepthBound(s, base, i - 1);
    }
  }

  lemma PushWellFormed(s: State, e: Entry, s': State, base: Level)
    requires WellFormed(s, base) && s.Top().level < e.level <= MAX_DEPTH
    requires s'.stack == s.stack + [e]
    ensures WellFormed(s', base)
  {
  }

  lemma PrefixWellFormed(s: State, s': State, base: Level)
    requires WellFormed(s, base) && s'.stack != [] && s'.stack <= s.stack
    ensures WellFormed(s', base)
  {
  }

  lemma StepWellFormed(s: State, bc: BidiClass, odd: bool, cap: nat, base: Level)
    requires WellFormed(s, base)
    ensures var r := Step(s, bc, odd, cap); r.Some? ==> WellFormed(r.value, base)
  {
    var r := Step(s, bc, odd, cap);
    if r.Some? {
      var s' := r.value;
      StepGrows(s, bc, odd, cap);
      if |s'.stack| > |s.stack| {
        PushWellFormed(s, s'.Top(), s', base);
      } else {
        PrefixWellFormed(s, s', base);
      }
    }
  }

  /** One step pushes one entry of a greater level or leaves a prefix of the stack. */
  lemma StepGrows(s: State, bc: BidiClass, odd: bool, cap: nat)
    requires Live(s) && Step(s, bc, odd, cap).Some?
    ensures var s' := Step(s, bc, odd, cap).value;
            && s'.stack != []
            && if |s'.stack| > |s.stack| then
                 s'.stack == s.stack + [s'.Top()] && s.Top().level < s'.Top().level <= MAX_DEPTH
               else s'.stack <= s.stack
  {
    PopThroughIsolateIs(s.stack);
  }

  /** Whatever the capacity, every state reached satisfies the invariant of the stack. */
  lemma {:induction false} StateWellFormed(types: seq<BidiClass>, base: Level, cap: nat, k: nat)
    requires k <= |types| && 0 <= base <= 1 && StateAt(types, base, cap, k).Some?
    ensures WellFormed(StateAt(types, base, cap, k).value, base)
  {
    if k > 0 {
      StateWellFormed(types, base, cap, k - 1);
      StepWellFormed(StateAt(types, base, cap, k - 1).value, types[k - 1], OpensOdd(types, k - 1), cap, base);
    }
  }

  lemma {:induction false} NoIsolates(stack: seq<Entry>, i: nat)
    requires i <= |stack| && forall j :: i <= j < |stack| ==> !stack[j].isolate
    ensures CountIsolates(stack) == CountIsolates(stack[..i])
  {
    if i < |stack| {
      NoIsolates(stack[..|stack| - 1], i);
      assert stack[..|stack| - 1][..i] == stack[..i];
    } else {
      assert stack[..i] == stack;
    }
  }

  lemma CountPushed(stack: seq<Entry>, e: Entry)
    ensures CountIsolates(stack + [e]) == CountIsolates(stack) + if e.isolate then 1 else 0
  {
    assert (stack + [e])[..|stack|] == stack;
  }

  lemma CountPopped(stack: seq<Entry>)
    ensures var r := PopThroughIsolate(stack);
            if r.Some? then CountIsolates(r.value) == CountIsolates(stack) - 1
            else CountIsolates(stack) == 0
  {
    PopThroughIsolateIs(stack);
    var r := PopThroughIsolate(stack);
    if r.Some? {
      var n := |r.value|;
      NoIsolates(stack, n + 1);
      assert stack[..n + 1][..n] == r.value;
    } else {
      NoIsolates(stack, 0);
    }
  }

  /** A push that opens never finds the stack full. */
  lemma PushKeepsCount(s: State, odd: bool, over: Override, isolate: bool, cap: nat, base: Level)
    requires Roomy(base, cap) && WellFormed(s, base)
    ensures Opens(s, odd) ==>
              && |s.stack| < cap
              && var e := Entry(LeastGreater(s.Top().level, odd).value, over, isolate);
                 CountIsolates(s.stack + [e]) == CountIsolates(s.stack) + if isolate then 1 else 0
  {
    DepthBound(s, base, |s.stack| - 1);
    if Opens(s, odd) {
      CountPushed(s.stack, Entry(LeastGreater(s.Top().level, odd).value, over, isolate));
    }
  }

  lemma EmbedRoomy(s: State, odd: bool, over: Override, cap: nat, base: Level)
    requires Roomy(base, cap) && WellFormed(s, base) && CountIsolates(s.stack) == s.validIsolate
    ensures CountIsolates(Embed(s, odd, over, cap).stack) == s.validIsolate
  {
    PushKeepsCount(s, odd, over, false, cap, base);
  }

  lemma OpenRoomy(s: State, odd: bool, cap: nat, base: Level)
    requires Roomy(base, cap) && WellFormed(s, base) && CountIsolates(s.stack) == s.validIsolate
    ensures var r := OpenIsolate(s, odd, cap); CountIsolates(r.stack) == r.validIsolate
  {
    PushKeepsCount(s, odd, Neutral, true, cap, base);
  }

  lemma CloseRoomy(s: State)
    requires CountIsolates(s.stack) == s.validIsolate
    ensures var r := CloseIsolate(s); r.Some? && CountIsolates(r.value.stack) == r.value.validIsolate
  {
    CountPopped(s.stack);
  }

  lemma FormatRoomy(s: State)
    requires s.stack != [] && CountIsolates(s.stack) == s.validIsolate
    ensures CountIsolates(PopFormat(s).stack) == s.validIsolate
  {
  }

  /** With enough slots, one step keeps `validIsolate` equal to the isolate entries on
      the stack, so X6a always finds the entry it looks for. */
  lemma StepRoomy(s: State, bc: BidiClass, odd: bool, cap: nat, base: Level)
    requires Roomy(base, cap) && WellFormed(s, base) && CountIsolates(s.stack) == s.validIsolate
    ensures var r := Step(s, bc, odd, cap);
            r.Some? && CountIsolates(r.value.stack) == r.value.validIsolate
  {
    if IsEmbedding(bc) {
      EmbedRoomy(s, odd, OverrideOf(bc), cap, base);
    } else if IsIsoInit(bc) {
      OpenRoomy(s, odd, cap, base);
    } else if bc.PDI? {
      CloseRoomy(s);
    } else if bc.PDF? {
      FormatRoomy(s);
    }
  }

  lemma StateRoomyNext(types: seq<BidiClass>, base: Level, cap: nat, k: nat)
    requires Roomy(base, cap) && k < |types|
    requires var r := StateAt(types, base, cap, k);
             r.Some? && CountIsolates(r.value.stack) == r.value.validIsolate
    ensures var r := StateAt(types, base, cap, k + 1);
            r.Some? && CountIsolates(r.value.stack) == r.value.validIsolate
  {
    StateWellFormed(types, base, cap, k);
    StepRoomy(StateAt(types, base, cap, k).value, types[k], OpensOdd(types, k), cap, base);
  }

  lemma {:induction false} StateRoomy(types: seq<BidiClass>, base: Level, cap: nat, k: nat)
    requires Roomy(base, cap) && k <= |types|
    ensures var r := StateAt(types, base, cap, k);
            r.Some? && CountIsolates(r.value.stack) == r.value.validIsolate
  {
    if k == 0 {
      assert [Entry(base, Neutral, false)][..0] == [];
    } else {
      StateRoomy(types, base, cap, k - 1);
      StateRoomyNext(types, base, cap, k - 1);
    }
  }

  /** The invariant at every position: strictly increasing levels above the bottom entry,
      depth at most top level - base + 1, validIsolate exact, and no failure. */
  lemma StackInvariant(types: seq<BidiClass>, base: Level, cap: nat, k: nat)
    requires Roomy(base, cap) && k <= |types|
    ensures var r := StateAt(types, base, cap, k);
            && r.Some? && WellFormed(r.value, base)
            && CountIsolates(r.value.stack) == r.value.validIsolate
            && |r.value.stack| <= r.value.Top().level - base + 1
            && |r.value.stack| <= cap
  {
    StateRoomy(types, base, cap, k);
    StateWellFormed(types, base, cap, k);
    var s := StateAt(types, base, cap, k).value;
    DepthBound(s, base, |s.stack| - 1);
  }

  /** Every level assigned by X1 to X8 lies between the paragraph level and MAX_DEPTH. */
  lemma ExplicitLevelBounds(types: seq<BidiClass>, base: Level, cap: nat, k: nat)
    requires k < |types| && 0 <= base <= 1 && StateAt(types, base, cap, k + 1).Some?
    ensures var l := ExplicitLevel(types, base, cap, k);
            if IsRemovedClass(types[k]) then l == NO_LEVEL else base <= l <= MAX_DEPTH
  {
    var s, s' := StateAt(types, base, cap, k).value, StateAt(types, base, cap, k + 1).value;
    StateWellFormed(types, base, cap, k);
    StateWellFormed(types, base, cap, k + 1);
    DepthBound(s, base, |s.stack| - 1);
    DepthBound(s', base, |s'.stack| - 1);
  }

  // ----- capacity: what the 125 slots of the source change -----

  /** No push of the paragraph needs a 126th slot. */
  ghost predicate FitsSourceStack(types: seq<BidiClass>, base: Level)
    requires 0 <= base <= 1
  {
    forall k :: 0 <= k <= |types| ==>
      var r := StateAt(types, base, UAX_DEPTH, k); r.Some? && |r.value.stack| <= MAX_DEPTH
  }

  /** The source's 125-slot stack goes through exactly the states of the UAX #9 stack
      if and only if the paragraph never nests all the levels 0 to 125. */
  lemma CapacityExact(types: seq<BidiClass>, base: Level)
    requires 0 <= base <= 1
    ensures FitsSourceStack(types, base) <==>
            forall k :: 0 <= k <= |types| ==>
              StateAt(types, base, MAX_DEPTH, k) == StateAt(types, base, UAX_DEPTH, k)
  {
    if FitsSourceStack(types, base) {
      forall k | 0 <= k <= |types|
        ensures StateAt(types, base, MAX_DEPTH, k) == StateAt(types, base, UAX_DEPTH, k)
      {
        SameStates(types, base, k);
      }
    } else {
      forall k | 0 <= k <= |types| ensures StateAt(types, base, UAX_DEPTH, k).Some? {
        StackInvariant(types, base, UAX_DEPTH, k);
      }
      var k :| 0 <= k <= |types| && |StateAt(types, base, UAX_DEPTH, k).value.stack| > MAX_DEPTH;
      if StateAt(types, base, MAX_DEPTH, k).Some? {
        SourceDepth(types, base, k);
      }
      assert StateAt(types, base, MAX_DEPTH, k) != StateAt(types, base, UAX_DEPTH, k);
    }
  }

  /** A paragraph that fits is processed to its end. */
  lemma FittingCompletes(types: seq<BidiClass>, base: Level)
    requires 0 <= base <= 1 && FitsSourceStack(types, base)
    ensures Completes(types, base, MAX_DEPTH)
  {
    CapacityExact(types, base);
    assert StateAt(types, base, MAX_DEPTH, |types|) == StateAt(types, base, UAX_DEPTH, |types|);
  }

  /** Character k is a PDI for which an isolate is counted as open, none as overflowed, although
      the stack holds no isolate entry: its push was dropped. */
  predicate PopsDroppedIsolate(types: seq<BidiClass>, base: Level, cap: nat, k: nat)
    requires 0 <= base <= 1
  {
    && k < |types| && types[k].PDI?
    && match StateAt(types, base, cap, k)
       case None => false
       case Some(s) => s.overflowIsolate == 0 && s.validIsolate > 0 && CountIsolates(s.stack) == 0
  }

  lemma StepFailsExactly(s: State, bc: BidiClass, odd: bool, cap: nat)
    requires Live(s)
    ensures Step(s, bc, odd, cap).None? <==>
            bc.PDI? && s.overflowIsolate == 0 && s.validIsolate > 0 && CountIsolates(s.stack) == 0
  {
    CountPopped(s.stack);
  }

  lemma {:induction false} FirstFailure(types: seq<BidiClass>, base: Level, cap: nat, n: nat) returns (k: nat)
    requires 0 <= base <= 1 && n <= |types| && StateAt(types, base, cap, n).None?
    ensures k < n && PopsDroppedIsolate(types, base, cap, k)
    decreases n
  {
    var j := n - 1;
    if StateAt(types, base, cap, j).None? {
      k := FirstFailure(types, base, cap, j);
    } else {
      k := j;
      StepFailsExactly(StateAt(types, base, cap, j).value, types[j], OpensOdd(types, j), cap);
    }
  }

  /** The code runs off its stack exactly at a PDI that is to close an isolate whose push was
      dropped. */
  lemma FailsExactly(types: seq<BidiClass>, base: Level, cap: nat)
    requires 0 <= base <= 1
    ensures !Completes(types, base, cap) <==> exists k: nat :: PopsDroppedIsolate(types, base, cap, k)
  {
    if !Completes(types, base, cap) {
      var k := FirstFailure(types, base, cap, |types|);
    }
    if k: nat :| PopsDroppedIsolate(types, base, cap, k) {
      var s := StateAt(types, base, cap, k).value;
      StepFailsExactly(s, types[k], OpensOdd(types, k), cap);
      StepFails(types, base, cap, k, k + 1, s);
    }
  }

  /** A step whose result has at most MAX_DEPTH entries does not notice the capacity. */
  lemma StepSameCapacity(s: State, bc: BidiClass, odd: bool, base: Level)
    requires WellFormed(s, base) && |s.stack| <= MAX_DEPTH
    requires Step(s, bc, odd, UAX_DEPTH).Some?
    requires |Step(s, bc, odd, UAX_DEPTH).value.stack| <= MAX_DEPTH
    ensures Step(s, bc, odd, MAX_DEPTH) == Step(s, bc, odd, UAX_DEPTH)
  {
  }

  lemma SameStatesNext(types: seq<BidiClass>, base: Level, k: nat)
    requires k < |types| && 0 <= base <= 1 && FitsSourceStack(types, base)
    requires StateAt(types, base, MAX_DEPTH, k) == StateAt(types, base, UAX_DEPTH, k)
    ensures StateAt(types, base, MAX_DEPTH, k + 1) == StateAt(types, base, UAX_DEPTH, k + 1)
  {
    var r, r' := StateAt(types, base, UAX_DEPTH, k), StateAt(types, base, UAX_DEPTH, k + 1);
    assert |r.value.stack| <= MAX_DEPTH && |r'.value.stack| <= MAX_DEPTH;
    StateWellFormed(types, base, UAX_DEPTH, k);
    StepSameCapacity(r.value, types[k], OpensOdd(types, k), base);
  }

  lemma {:induction false} SameStates(types: seq<BidiClass>, base: Level, k: nat)
    requires k <= |types| && 0 <= base <= 1 && FitsSourceStack(types, base)
    ensures StateAt(types, base, MAX_DEPTH, k) == StateAt(types, base, UAX_DEPTH, k)
  {
    if k > 0 {
      SameStates(types, base, k - 1);
      SameStatesNext(types, base, k - 1);
    }
  }

  lemma {:induction false} SourceDepth(types: seq<BidiClass>, base: Level, k: nat)
    requires k <= |types| && 0 <= base <= 1 && StateAt(types, base, MAX_DEPTH, k).Some?
    ensures |StateAt(types, base, MAX_DEPTH, k).value.stack| <= MAX_DEPTH
  {
    if k > 0 {
      SourceDepth(types, base, k - 1);
    }
  }

  /** No push of the paragraph is dropped: there are slots for all levels, or the paragraph fits
      the source's stack. */
  ghost predicate KeepsPushes(types: seq<BidiClass>, base: Level, cap: nat) {
    0 <= base <= 1 && (Roomy(base, cap) || (cap == MAX_DEPTH && FitsSourceStack(types, base)))
  }

  /** A capacity with slots for all levels. */
  function WideCap(base: Level, cap: nat): nat {
    if Roomy(base, cap) then cap else UAX_DEPTH
  }

  lemma WideStates(types: seq<BidiClass>, base: Level, cap: nat, k: nat)
    requires KeepsPushes(types, base, cap) && k <= |types|
    ensures Roomy(base, WideCap(base, cap)) && StateAt(types, base, cap, k).Some?
    ensures StateAt(types, base, cap, k) == StateAt(types, base, WideCap(base, cap), k)
  {
    if !Roomy(base, cap) {
      SameStates(types, base, k);
    }
    StateRoomy(types, base, WideCap(base, cap), k);
  }

  /** A right-to-left paragraph always fits. */
  lemma RtlParagraphFits(types: seq<BidiClass>)
    ensures FitsSourceStack(types, 1)
  {
    forall k | 0 <= k <= |types|
      ensures var r := StateAt(types, 1, UAX_DEPTH, k); r.Some? && |r.value.stack| <= MAX_DEPTH
    {
      StackInvariant(types, 1, UAX_DEPTH, k);
    }
  }

  function CountInitiators(types: seq<BidiClass>, k: nat): nat
    requires k <= |types|
  {
    if k == 0 then 0
    else
      var t := types[k - 1];
      CountInitiators(types, k - 1) + if IsIsoInit(t) || IsEmbedding(t) then 1 else 0
  }

  lemma {:induction false} CountMonotone(types: seq<BidiClass>, j: nat, k: nat)
    requires j <= k <= |types|
    ensures CountInitiators(types, j) <= CountInitiators(types, k)
  {
    if j < k {
      CountMonotone(types, j, k - 1);
    }
  }

  lemma {:induction false} DepthByInitiators(types: seq<BidiClass>, base: Level, k: nat)
    requires k <= |types| && 0 <= base <= 1
    ensures var r := StateAt(types, base, UAX_DEPTH, k);
            r.Some? && |r.value.stack| <= 1 + CountInitiators(types, k)
    decreases k
  {
    StackInvariant(types, base, UAX_DEPTH, k);
    if k > 0 {
      DepthByInitiators(types, base, k - 1);
    }
  }

  /** A paragraph with fewer than 125 explicit initiators fits, whatever its level. */
  lemma FewInitiatorsFit(types: seq<BidiClass>, base: Level)
    requires 0 <= base <= 1 && CountInitiators(types, |types|) < MAX_DEPTH
    ensures FitsSourceStack(types, base)
  {
    forall k | 0 <= k <= |types|
      ensures var r := StateAt(types, base, UAX_DEPTH, k); r.Some? && |r.value.stack| <= MAX_DEPTH
    {
      DepthByInitiators(types, base, k);
      CountMonotone(types, k, |types|);
    }
  }

  /** n embeddings that take the levels 1, 2, 3, ... in turn. */
  function Staircase(n: nat): (types: seq<BidiClass>)
    ensures |types| == n
  {
    seq(n, i => if i % 2 == 0 then RLE else LRE)
  }

  /** The state after k embeddings of the staircase. */
  predicate OnStair(s: State, k: nat) {
    && Live(s) && |s.stack| == k + 1 && s.Top() == Entry(k, Neutral, false)
    && s.overflowIsolate == s.overflowEmbedding == s.validIsolate == 0
    && forall i :: 0 <= i <= k ==> !s.stack[i].isolate
  }

  lemma StairStep(s: State, k: nat, bc: BidiClass)
    requires OnStair(s, k) && k + 1 < MAX_DEPTH && bc == if k % 2 == 0 then RLE else LRE
    ensures var r := Step(s, bc, bc.RLE?, MAX_DEPTH); r.Some? && OnStair(r.value, k + 1)
  {
    assert LeastGreater(k, bc.RLE?) == Some(k + 1);
  }

  lemma {:induction false} StaircaseStates(tail: seq<BidiClass>, n: nat, k: nat)
    requires k <= n < MAX_DEPTH
    ensures var r := StateAt(Staircase(n) + tail, 0, MAX_DEPTH, k); r.Some? && OnStair(r.value, k)
    decreases k
  {
    if k > 0 {
      var types, j := Staircase(n) + tail, k - 1;
      StaircaseStates(tail, n, j);
      assert types[j] == if j % 2 == 0 then RLE else LRE;
      StairStep(StateAt(types, 0, MAX_DEPTH, j).value, j, types[j]);
    }
  }

  /** On the full stack an isolate is counted but not pushed, and closing it fails. */
  lemma DroppedPush(s: State)
    requires OnStair(s, 124)
    ensures var s' := s.(validIsolate := 1); OpenIsolate(s, true, MAX_DEPTH) == s' && CloseIsolate(s') == None
  {
    assert LeastGreater(124, true) == Some(125);
    PopThroughIsolateIs(s.stack);
  }

  /** Why the capacity matters: at level 0, 124 nested embeddings fill the source's stack,
      the push of the next isolate is dropped though it is counted, and the PDI that
      closes it empties the stack. The UAX #9 stack completes the same text. */
  lemma DroppedIsolateEmptiesStack()
    ensures !Completes(Staircase(124) + [RLI, PDI], 0, MAX_DEPTH)
    ensures Completes(Staircase(124) + [RLI, PDI], 0, UAX_DEPTH)
  {
    var types := Staircase(124) + [RLI, PDI];
    StaircaseStates([RLI, PDI], 124, 124);
    var s := StateAt(types, 0, MAX_DEPTH, 124).value;
    assert types[124] == RLI && types[125] == PDI;
    DroppedPush(s);
    assert StateAt(types, 0, MAX_DEPTH, 125) == Some(s.(validIsolate := 1));
    StepFails(types, 0, MAX_DEPTH, 125, 126, s.(validIsolate := 1));
    StackInvariant(types, 0, UAX_DEPTH, 126);
  }

  // ----- BD9: matching an isolate initiator with its PDI -----

  /** The isolates opened minus those closed by the characters i..k. */
  function Nesting(types: seq<BidiClass>, i: nat, k: nat): int
    requires i <= k <= |types|
    decreases k
  {
    if k == i then 0
    else Nesting(types, i, k - 1)
         + if IsIsoInit(types[k - 1]) then 1 else if types[k - 1].PDI? then -1 else 0
  }

  /** The isolate that character i initiates is still open just before position k:
      the count has stayed positive since. */
  predicate OpenUntil(types: seq<BidiClass>, i: nat, k: nat)
    decreases k
  {
    && i < k <= |types|
    && IsIsoInit(types[i])
    && Nesting(types, i, k) >= 1
    && (k == i + 1 || OpenUntil(types, i, k - 1))
  }

  /** BD9: j is the PDI that matches the isolate initiator i. */
  predicate Matches(types: seq<BidiClass>, i: nat, j: nat) {
    OpenUntil(types, i, j) && j < |types| && types[j].PDI? && Nesting(types, i, j) == 1
  }

  lemma {:induction false} OpenUntilPrefix(types: seq<BidiClass>, i: nat, q: nat, k: nat)
    requires OpenUntil(types, i, k) && i < q <= k
    ensures OpenUntil(types, i, q)
    decreases k
  {
    if q < k {
      OpenUntilPrefix(types, i, q, k - 1);
    }
  }

  /** The level of the entry that initiator i pushes. */
  function OpenedLevel(types: seq<BidiClass>, base: Level, cap: nat, i: nat): Level
    requires 0 <= base <= 1 && i < |types| && StateAt(types, base, cap, i).Some?
    requires Opens(StateAt(types, base, cap, i).value, OpensOdd(types, i))
  {
    LeastGreater(StateAt(types, base, cap, i).value.Top().level, OpensOdd(types, i)).value
  }

  /** The entry that an initiator met in state s0 pushes. */
  function Opened(s0: State, odd: bool): Entry
    requires s0.stack != [] && 0 <= s0.Top().level <= MAX_DEPTH && Opens(s0, odd)
  {
    Entry(LeastGreater(s0.Top().level, odd).value, Neutral, true)
  }

  /** How a state inside an isolate relates to the state s0 before its initiator, while
      n isolates (it included) are open. */
  predicate Inside(s0: State, odd: bool, n: int, s: State)
    requires s0.stack != [] && 0 <= s0.Top().level <= MAX_DEPTH
  {
    if Opens(s0, odd) then
      && s0.stack + [Opened(s0, odd)] <= s.stack
      && s.validIsolate > s0.validIsolate
      && s.validIsolate - s0.validIsolate + s.overflowIsolate == n
    else
      && s.stack == s0.stack
      && s.overflowEmbedding == s0.overflowEmbedding
      && s.validIsolate == s0.validIsolate
      && s.overflowIsolate == s0.overflowIsolate + n
  }

  function Delta(bc: BidiClass): int {
    if IsIsoInit(bc) then 1 else if bc.PDI? then -1 else 0
  }

  lemma {:induction false} CountPrefix(prefix: seq<Entry>, stack: seq<Entry>)
    requires prefix <= stack
    ensures CountIsolates(prefix) <= CountIsolates(stack)
    ensures CountIsolates(prefix) == CountIsolates(stack) <==>
              forall i :: |prefix| <= i < |stack| ==> !stack[i].isolate
    decreases |stack|
  {
    if prefix != stack {
      var last := |stack| - 1;
      CountPrefix(prefix, stack[..last]);
      assert forall i :: 0 <= i < last ==> stack[..last][i] == stack[i];
    }
  }

  /** X6a never pops past an isolate entry. */
  lemma PopKeepsFloor(floor: seq<Entry>, stack: seq<Entry>)
    requires floor <= stack && CountIsolates(floor) < CountIsolates(stack)
    ensures var r := PopThroughIsolate(stack); r.Some? && floor <= r.value
  {
    CountPrefix(floor, stack);
    PopThroughIsolateIs(stack);
    var r := PopThroughIsolate(stack);
    if r.Some? && |r.value| < |floor| {
      CountPrefix(floor, stack);
      assert false;
    }
  }

  lemma InsideClose(s0: State, odd: bool, n: int, s: State)
    requires s0.stack != [] && 0 <= s0.Top().level <= MAX_DEPTH
    requires CountIsolates(s0.stack) == s0.validIsolate && CountIsolates(s.stack) == s.validIsolate
    requires Inside(s0, odd, n, s) && n >= 2
    ensures CloseIsolate(s).Some? && Inside(s0, odd, n - 1, CloseIsolate(s).value)
  {
    CloseRoomy(s);
    if Opens(s0, odd) && s.overflowIsolate == 0 {
      CountPushed(s0.stack, Opened(s0, odd));
      PopKeepsFloor(s0.stack + [Opened(s0, odd)], s.stack);
    }
  }

  lemma InsideFormat(s0: State, odd: bool, n: int, s: State)
    requires s0.stack != [] && 0 <= s0.Top().level <= MAX_DEPTH && s.stack != []
    requires Inside(s0, odd, n, s) && n >= 1
    ensures Inside(s0, odd, n, PopFormat(s))
  {
    if Opens(s0, odd) {
      assert |s.stack| == |s0.stack| + 1 ==> s.Top() == Opened(s0, odd);
    }
  }

  lemma InsideEmbed(s0: State, odd: bool, n: int, s: State, odd': bool, over: Override, cap: nat)
    requires s0.stack != [] && 0 <= s0.Top().level <= MAX_DEPTH
    requires s.stack != [] && 0 <= s.Top().level <= MAX_DEPTH
    requires Inside(s0, odd, n, s) && n >= 1
    ensures Inside(s0, odd, n, Embed(s, odd', over, cap))
  {
  }

  lemma InsideOpen(s0: State, odd: bool, n: int, s: State, odd': bool, cap: nat)
    requires s0.stack != [] && 0 <= s0.Top().level <= MAX_DEPTH
    requires s.stack != [] && 0 <= s.Top().level <= MAX_DEPTH
    requires Inside(s0, odd, n, s) && n >= 1
    ensures Inside(s0, odd, n + 1, OpenIsolate(s, odd', cap))
  {
  }

  lemma InsideStep(s0: State, odd: bool, n: int, s: State, bc: BidiClass, odd': bool, cap: nat)
    requires s0.stack != [] && 0 <= s0.Top().level <= MAX_DEPTH
    requires s.stack != [] && 0 <= s.Top().level <= MAX_DEPTH
    requires CountIsolates(s0.stack) == s0.validIsolate && CountIsolates(s.stack) == s.validIsolate
    requires Inside(s0, odd, n, s) && n >= 1 && n + Delta(bc) >= 1
    ensures var r := Step(s, bc, odd', cap); r.Some? && Inside(s0, odd, n + Delta(bc), r.value)
  {
    if IsEmbedding(bc) {
      InsideEmbed(s0, odd, n, s, odd', OverrideOf(bc), cap);
    } else if IsIsoInit(bc) {
      InsideOpen(s0, odd, n, s, odd', cap);
    } else if bc.PDI? {
      InsideClose(s0, odd, n, s);
    } else if bc.PDF? {
      InsideFormat(s0, odd, n, s);
    }
  }

  /** Character k takes states[k] to states[k + 1]. Named so that proofs can choose
      the one position they look at. */
  ghost predicate Moves(types: seq<BidiClass>, cap: nat, states: seq<State>, k: nat)
    requires k < |types| && |states| == |types| + 1
  {
    && Live(states[k])
    && CountIsolates(states[k].stack) == states[k].validIsolate
    && Step(states[k], types[k], OpensOdd(types, k), cap) == Some(states[k + 1])
  }

  ghost predicate Trace(types: seq<BidiClass>, cap: nat, states: seq<State>) {
    && |states| == |types| + 1
    && forall k {:trigger Moves(types, cap, states, k)} :: 0 <= k < |types| ==> Moves(types, cap, states, k)
  }

  lemma MovesAt(types: seq<BidiClass>, base: Level, cap: nat, states: seq<State>, k: nat)
    requires Roomy(base, cap) && k < |types| && |states| == |types| + 1
    requires StateAt(types, base, cap, k) == Some(states[k])
    requires StateAt(types, base, cap, k + 1) == Some(states[k + 1])
    ensures Moves(types, cap, states, k)
  {
    StateRoomy(types, base, cap, k);
  }

  ghost function RoomyState(types: seq<BidiClass>, base: Level, cap: nat, k: nat): (s: State)
    requires Roomy(base, cap) && k <= |types|
    ensures StateAt(types, base, cap, k) == Some(s)
  {
    StateRoomy(types, base, cap, k);
    StateAt(types, base, cap, k).value
  }

  lemma TraceOf(types: seq<BidiClass>, base: Level, cap: nat) returns (states: seq<State>)
    requires Roomy(base, cap)
    ensures Trace(types, cap, states)
    ensures forall k :: 0 <= k <= |types| ==> StateAt(types, base, cap, k) == Some(states[k])
  {
    states := seq(|types| + 1, k requires 0 <= k <= |types| => RoomyState(types, base, cap, k));
    forall k | 0 <= k <= |types| ensures StateAt(types, base, cap, k) == Some(states[k]) {
      assert states[k] == RoomyState(types, base, cap, k);
    }
    forall k | 0 <= k < |types| ensures Moves(types, cap, states, k) {
      MovesAt(types, base, cap, states, k);
    }
  }

  lemma {:induction false} InsideTrace(types: seq<BidiClass>, cap: nat, states: seq<State>, i: nat, k: nat)
    requires Trace(types, cap, states) && OpenUntil(types, i, k)
    requires |states[i].stack| < cap || !Live(states[i]) || !Opens(states[i], OpensOdd(types, i))
    ensures Live(states[i]) && Inside(states[i], OpensOdd(types, i), Nesting(types, i, k), states[k])
    decreases k
  {
    assert Moves(types, cap, states, i);
    assert Moves(types, cap, states, k - 1);
    if k == i + 1 {
      NestingStart(types, i);
    } else {
      InsideTrace(types, cap, states, i, k - 1);
      NestingStep(types, i, k - 1);
      InsideStep(states[i], OpensOdd(types, i), Nesting(types, i, k - 1),
                 states[k - 1], types[k - 1], OpensOdd(types, k - 1), cap);
    }
  }

  lemma InsideHolds(types: seq<BidiClass>, base: Level, cap: nat, i: nat, k: nat)
    requires Roomy(base, cap) && OpenUntil(types, i, k)
    ensures StateAt(types, base, cap, i).Some? && StateAt(types, base, cap, k).Some?
    ensures Inside(StateAt(types, base, cap, i).value, OpensOdd(types, i), Nesting(types, i, k),
                   StateAt(types, base, cap, k).value)
  {
    var states := TraceOf(types, base, cap);
    StateWellFormed(types, base, cap, i);
    PushKeepsCount(states[i], OpensOdd(types, i), Neutral, true, cap, base);
    InsideTrace(types, cap, states, i, k);
  }

  lemma NestingStart(types: seq<BidiClass>, i: nat)
    requires i < |types| && IsIsoInit(types[i])
    ensures Nesting(types, i, i + 1) == 1
  {
    assert Nesting(types, i, i) == 0;
  }

  lemma NestingStep(types: seq<BidiClass>, i: nat, k: nat)
    requires OpenUntil(types, i, k) && OpenUntil(types, i, k + 1)
    ensures Nesting(types, i, k + 1) == Nesting(types, i, k) + Delta(types[k])
    ensures Nesting(types, i, k) >= 1 && Nesting(types, i, k + 1) >= 1
  {
  }

  lemma RoomyRestores(types: seq<BidiClass>, base: Level, cap: nat, i: nat, j: nat)
    requires Roomy(base, cap) && Matches(types, i, j)
    ensures StateAt(types, base, cap, j + 1) == StateAt(types, base, cap, i)
  {
    InsideHolds(types, base, cap, i, j);
    StateRoomy(types, base, cap, i);
    StateRoomy(types, base, cap, j);
    var s0, s := StateAt(types, base, cap, i).value, StateAt(types, base, cap, j).value;
    assert StateAt(types, base, cap, j + 1) == CloseIsolate(s);
    ClosingRestores(s0, OpensOdd(types, i), s);
  }

  lemma RestoresAt(types: seq<BidiClass>, base: Level, cap: nat, i: nat, j: nat, next: nat)
    requires KeepsPushes(types, base, cap) && Matches(types, i, j) && next == j + 1
    ensures StateAt(types, base, cap, i).Some?
    ensures StateAt(types, base, cap, next) == StateAt(types, base, cap, i)
  {
    WideStates(types, base, cap, i);
    WideStates(types, base, cap, next);
    RoomyRestores(types, base, WideCap(base, cap), i, j);
  }

  /** An isolate leaves no trace: the state after the matching PDI, with its stack and
      every counter, is the state before the initiator. */
  lemma IsolateRestores(types: seq<BidiClass>, base: Level, cap: nat, i: nat, j: nat)
    requires KeepsPushes(types, base, cap) && Matches(types, i, j)
    ensures StateAt(types, base, cap, i).Some? && StateAt(types, base, cap, j + 1).Some?
    ensures StateAt(types, base, cap, j + 1) == StateAt(types, base, cap, i)
  {
    RestoresAt(types, base, cap, i, j, j + 1);
  }

  lemma ClosingRestores(s0: State, odd: bool, s: State)
    requires s0.stack != [] && 0 <= s0.Top().level <= MAX_DEPTH
    requires CountIsolates(s0.stack) == s0.validIsolate && CountIsolates(s.stack) == s.validIsolate
    requires Inside(s0, odd, 1, s)
    ensures CloseIsolate(s) == Some(s0)
  {
    if Opens(s0, odd) {
      var floor := s0.stack + [Opened(s0, odd)];
      CountPushed(s0.stack, Opened(s0, odd));
      CountPrefix(floor, s.stack);
      assert s.stack[|s0.stack|] == Opened(s0, odd);
      PopThroughIsolateIs(s.stack);
      assert PopThroughIsolate(s.stack).value == s0.stack;
    }
  }

  /** The same for the source's own stack, whenever it drops no push. */
  lemma SourceIsolateRestores(types: seq<BidiClass>, base: Level, i: nat, j: nat)
    requires 0 <= base <= 1 && FitsSourceStack(types, base) && Matches(types, i, j)
    ensures StateAt(types, base, MAX_DEPTH, i).Some?
    ensures StateAt(types, base, MAX_DEPTH, j + 1) == StateAt(types, base, MAX_DEPTH, i)
  {
    IsolateRestores(types, base, MAX_DEPTH, i, j);
  }

  /** The initiator and its matching PDI get the same level and the same override. */
  lemma IsolateEndsAgree(types: seq<BidiClass>, base: Level, cap: nat, i: nat, j: nat)
    requires KeepsPushes(types, base, cap) && Matches(types, i, j)
    ensures StateAt(types, base, cap, i + 1).Some? && StateAt(types, base, cap, j + 1).Some?
    ensures Governing(types, base, cap, i) == Governing(types, base, cap, j)
    ensures ExplicitLevel(types, base, cap, i) == ExplicitLevel(types, base, cap, j)
  {
    WideStates(types, base, cap, i + 1);
    IsolateRestores(types, base, cap, i, j);
  }

  /** Between them, every character that is neither removed nor a paragraph separator has
      a strictly greater level if the isolate was pushed, the equal level if it overflowed. */
  lemma IsolateContents(types: seq<BidiClass>, base: Level, cap: nat, i: nat, k: nat)
    requires KeepsPushes(types, base, cap) && OpenUntil(types, i, k + 1) && i < k
    requires !IsRemovedClass(types[k]) && !types[k].B?
    ensures StateAt(types, base, cap, i).Some?
    ensures StateAt(types, base, cap, i + 1).Some? && StateAt(types, base, cap, k + 1).Some?
    ensures if Opens(StateAt(types, base, cap, i).value, OpensOdd(types, i))
            then ExplicitLevel(types, base, cap, k) >= OpenedLevel(types, base, cap, i)
                                                     > ExplicitLevel(types, base, cap, i)
            else ExplicitLevel(types, base, cap, k) == ExplicitLevel(types, base, cap, i)
  {
    WideStates(types, base, cap, i + 1);
    WideStates(types, base, cap, k + 1);
    var p := if types[k].PDI? then k + 1 else k;
    InsideTop(types, base, cap, i, p);
    assert Governing(types, base, cap, k) == StateAt(types, base, cap, p).value.Top();
    assert Governing(types, base, cap, i) == StateAt(types, base, cap, i).value.Top();
  }

  lemma InsideTop(types: seq<BidiClass>, base: Level, cap: nat, i: nat, k: nat)
    requires KeepsPushes(types, base, cap) && OpenUntil(types, i, k)
    ensures StateAt(types, base, cap, i).Some? && StateAt(types, base, cap, k).Some?
    ensures var s0, top := StateAt(types, base, cap, i).value, StateAt(types, base, cap, k).value.Top();
            if Opens(s0, OpensOdd(types, i)) then top.level >= OpenedLevel(types, base, cap, i) > s0.Top().level
            else top == s0.Top()
  {
    var wide := WideCap(base, cap);
    WideStates(types, base, cap, i);
    WideStates(types, base, cap, k);
    InsideHolds(types, base, wide, i, k);
    var s0, s := StateAt(types, base, cap, i).value, StateAt(types, base, cap, k).value;
    if Opens(s0, OpensOdd(types, i)) {
      StateWellFormed(types, base, cap, k);
      assert s.stack[|s0.stack|] == Opened(s0, OpensOdd(types, i));
    }
  }
}
