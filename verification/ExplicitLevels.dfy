/** Rules P2, P3 and X1 to X8 of UAX #9 as a step function over characters. */
module ExplicitLevels {
  import opened Wrappers
  import opened BidiTypes
  import opened LevelStacks

  // ----- P2, P3: the paragraph level -----

  /** The level rule P2/P3 finds from `isolates` open isolates onwards. */
  function ScanLevel(types: seq<BidiClass>, isolates: nat, respectPdi: bool, fallback: Direction): (level: Level)
    ensures 0 <= level <= 1
  {
    if types == [] then (if fallback == LTR then 0 else 1)
    else
      var t, rest := types[0], types[1..];
      if IsIsoInit(t) then ScanLevel(rest, isolates + 1, respectPdi, fallback)
      else if t.PDI? then
        if isolates > 0 then ScanLevel(rest, isolates - 1, respectPdi, fallback)
        else if respectPdi then (if fallback == LTR then 0 else 1)
        else ScanLevel(rest, isolates, respectPdi, fallback)
      else if isolates == 0 && t.L? then 0
      else if isolates == 0 && (t.R? || t.AL?) then 1
      else ScanLevel(rest, isolates, respectPdi, fallback)
  }

  function ParagraphLevel(types: seq<BidiClass>, respectPdi: bool, fallback: Direction): (level: Level)
    ensures 0 <= level <= 1
  {
    ScanLevel(types, 0, respectPdi, fallback)
  }

  // ----- X1 to X8: the state -----

  datatype State = State(stack: seq<Entry>, overflowIsolate: nat, overflowEmbedding: nat, validIsolate: nat) {
    function Top(): Entry
      requires stack != []
    {
      stack[|stack| - 1]
    }
  }

  function CountIsolates(stack: seq<Entry>): (n: nat)
    ensures n <= |stack|
  {
    if stack == [] then 0
    else CountIsolates(stack[..|stack| - 1]) + if stack[|stack| - 1].isolate then 1 else 0
  }

  /** A state the rules can go on from: some entry is left, its level is in range, and
      the bottom entry is not an isolate. */
  predicate Live(s: State) {
    && s.stack != []
    && !s.stack[0].isolate
    && forall i :: 0 <= i < |s.stack| ==> 0 <= s.stack[i].level <= MAX_DEPTH
  }

  /** The invariant of rules X1 to X8: a non-isolate bottom entry at the paragraph level
      and strictly increasing levels, none above MAX_DEPTH. */
  predicate WellFormed(s: State, base: Level) {
    && Live(s)
    && s.stack[0] == Entry(base, Neutral, false)
    && forall i, j :: 0 <= i < j < |s.stack| ==> s.stack[i].level < s.stack[j].level
  }

  function Initial(base: Level): State {
    State([Entry(base, Neutral, false)], 0, 0, 0)
  }

  /** Whether an initiator of this parity opens an entry rather than counting as overflow. */
  predicate Opens(s: State, odd: bool)
    requires s.stack != [] && 0 <= s.Top().level <= MAX_DEPTH
  {
    LeastGreater(s.Top().level, odd).Some? && s.overflowIsolate == 0 && s.overflowEmbedding == 0
  }

  /** X2 to X5. */
  function Embed(s: State, odd: bool, over: Override, cap: nat): State
    requires s.stack != [] && 0 <= s.Top().level <= MAX_DEPTH
  {
    if Opens(s, odd) then
      s.(stack := PushEntry(s.stack, Entry(LeastGreater(s.Top().level, odd).value, over, false), cap))
    else if s.overflowIsolate == 0 then s.(overflowEmbedding := s.overflowEmbedding + 1)
    else s
  }

  /** X5a to X5c. */
  function OpenIsolate(s: State, odd: bool, cap: nat): State
    requires s.stack != [] && 0 <= s.Top().level <= MAX_DEPTH
  {
    if Opens(s, odd) then
      s.(stack := PushEntry(s.stack, Entry(LeastGreater(s.Top().level, odd).value, Neutral, true), cap),
         validIsolate := s.validIsolate + 1)
    else s.(overflowIsolate := s.overflowIsolate + 1)
  }

  /** The stack without its topmost isolate entry and everything above it;
      None when the loop of X6a would run off the bottom of the stack. */
  function PopThroughIsolate(stack: seq<Entry>): (r: Option<seq<Entry>>)
    ensures r.Some? ==> |r.value| < |stack|
  {
    if stack == [] then None
    else
      var last := |stack| - 1;
      if stack[last].isolate then Some(stack[..last])
      else PopThroughIsolate(stack[..last])
  }

  lemma {:induction false} PopThroughIsolateIs(stack: seq<Entry>)
    ensures var r := PopThroughIsolate(stack);
            && (r.Some? ==> && r.value <= stack && |r.value| < |stack| && stack[|r.value|].isolate
                            && forall i :: |r.value| < i < |stack| ==> !stack[i].isolate)
            && (r.None? ==> forall i :: 0 <= i < |stack| ==> !stack[i].isolate)
  {
    if stack != [] && !stack[|stack| - 1].isolate {
      PopThroughIsolateIs(stack[..|stack| - 1]);
    }
  }

  /** X6a. */
  function CloseIsolate(s: State): Option<State> {
    if s.overflowIsolate > 0 then Some(s.(overflowIsolate := s.overflowIsolate - 1))
    else if s.validIsolate == 0 then Some(s)
    else
      match PopThroughIsolate(s.stack)
      case None => None
      case Some(stack) => Some(State(stack, 0, 0, s.validIsolate - 1))
  }

  /** X7. */
  function PopFormat(s: State): State
    requires s.stack != []
  {
    if s.overflowIsolate > 0 then s
    else if s.overflowEmbedding > 0 then s.(overflowEmbedding := s.overflowEmbedding - 1)
    else if !s.Top().isolate && |s.stack| >= 2 then s.(stack := s.stack[..|s.stack| - 1])
    else s
  }

  predicate IsEmbedding(bc: BidiClass) {
    bc.RLE? || bc.LRE? || bc.RLO? || bc.LRO?
  }

  function OverrideOf(bc: BidiClass): Override {
    if bc.RLO? then ForceR else if bc.LRO? then ForceL else Neutral
  }

  /** X2 to X8 for one character; `odd` is the parity of the level an initiator opens. */
  function Step(s: State, bc: BidiClass, odd: bool, cap: nat): Option<State>
    requires s.stack != [] && 0 <= s.Top().level <= MAX_DEPTH
  {
    if IsEmbedding(bc) then Some(Embed(s, odd, OverrideOf(bc), cap))
    else if IsIsoInit(bc) then Some(OpenIsolate(s, odd, cap))
    else if bc.PDI? then CloseIsolate(s)
    else if bc.PDF? then Some(PopFormat(s))
    else Some(s)
  }

  /** The parity of the level a character opens when it is an initiator. */
  function OpensOdd(types: seq<BidiClass>, k: nat): bool
    requires k < |types|
  {
    types[k].RLI? || types[k].RLE? || types[k].RLO?
    || (types[k].FSI? && ParagraphLevel(types[k + 1..], true, LTR) == 1)
  }

  lemma StepLive(s: State, bc: BidiClass, odd: bool, cap: nat)
    requires Live(s)
    ensures var r := Step(s, bc, odd, cap); r.Some? ==> Live(r.value)
  {
    PopThroughIsolateIs(s.stack);
  }

  /** The state before character k, with a stack of `cap` slots. */
  function StateAt(types: seq<BidiClass>, base: Level, cap: nat, k: nat): (r: Option<State>)
    requires k <= |types| && 0 <= base <= 1
    ensures r.Some? ==> Live(r.value)
  {
    if k == 0 then Some(Initial(base))
    else
      match StateAt(types, base, cap, k - 1)
      case None => None
      case Some(s) =>
        StepLive(s, types[k - 1], OpensOdd(types, k - 1), cap);
        Step(s, types[k - 1], OpensOdd(types, k - 1), cap)
  }

  /** Whether the whole paragraph is processed without running off the stack. */
  predicate Completes(types: seq<BidiClass>, base: Level, cap: nat)
    requires 0 <= base <= 1
  {
    StateAt(types, base, cap, |types|).Some?
  }

  lemma {:induction false} CompletesPrefix(types: seq<BidiClass>, base: Level, cap: nat, j: nat, k: nat)
    requires j <= k <= |types| && 0 <= base <= 1 && StateAt(types, base, cap, k).Some?
    ensures StateAt(types, base, cap, j).Some?
    decreases k
  {
    if j < k {
      CompletesPrefix(types, base, cap, j, k - 1);
    }
  }

  /** A step that fails is the end of it. */
  lemma StepFails(types: seq<BidiClass>, base: Level, cap: nat, k: nat, next: nat, before: State)
    requires k < |types| && next == k + 1 && 0 <= base <= 1 && StateAt(types, base, cap, k) == Some(before)
    requires Step(before, types[k], OpensOdd(types, k), cap).None?
    ensures !Completes(types, base, cap)
  {
    assert StateAt(types, base, cap, next).None?;
    if Completes(types, base, cap) {
      CompletesPrefix(types, base, cap, next, |types|);
    }
  }

  /** The stack entry that gives character k its level and override: for a PDI the one
      on top after it has closed its isolate, for anything else the one before it. */
  function Governing(types: seq<BidiClass>, base: Level, cap: nat, k: nat): Entry
    requires k < |types| && 0 <= base <= 1 && StateAt(types, base, cap, k + 1).Some?
  {
    if types[k].PDI? then StateAt(types, base, cap, k + 1).value.Top()
    else StateAt(types, base, cap, k).value.Top()
  }

  /** The explicit level of character k after rules X1 to X9. */
  function ExplicitLevel(types: seq<BidiClass>, base: Level, cap: nat, k: nat): Level
    requires k < |types| && 0 <= base <= 1 && StateAt(types, base, cap, k + 1).Some?
  {
    if IsRemovedClass(types[k]) then NO_LEVEL
    else if types[k].B? then base
    else Governing(types, base, cap, k).level
  }

  /** The class of character k after the overrides of rules X5a to X6a. */
  function ExplicitClass(types: seq<BidiClass>, base: Level, cap: nat, k: nat): BidiClass
    requires k < |types| && 0 <= base <= 1 && StateAt(types, base, cap, k + 1).Some?
  {
    if IsRemovedClass(types[k]) || types[k].B? then types[k]
    else ApplyOverride(Governing(types, base, cap, k).over, types[k])
  }
}
