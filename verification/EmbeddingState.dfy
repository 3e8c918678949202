/** The status stack and the three counters of rules X1 to X8, updated in place. */
module EmbeddingStates {
  import opened Wrappers
  import opened BidiTypes
  import opened LevelStacks
  import X = ExplicitLevels

  /** P2 and P3 as the source scans for them. */
  method ComputeParagraphLevel(types: seq<BidiClass>, respectPdi: bool, fallback: Direction) returns (level: Level)
    ensures level == X.ParagraphLevel(types, respectPdi, fallback)
  {
    var isolateCount: nat := 0;
    for k := 0 to |types|
      invariant X.ScanLevel(types[k..], isolateCount, respectPdi, fallback) == X.ParagraphLevel(types, respectPdi, fallback)
    {
      var t := types[k];
      assert types[k..][0] == t && types[k..][1..] == types[k + 1..];
      if IsIsoInit(t) {
        isolateCount := isolateCount + 1;
      } else if t.PDI? {
        if isolateCount > 0 {
          isolateCount := isolateCount - 1;
        } else if respectPdi {
          return if fallback == LTR then 0 else 1;
        }
      } else if t.L? && isolateCount == 0 {
        return 0;
      } else if (t.R? || t.AL?) && isolateCount == 0 {
        return 1;
      }
    }
    return if fallback == LTR then 0 else 1;
  }

  class EmbeddingState {
    const stack: LevelStack
    var overflowIsolate: nat
    var overflowEmbedding: nat
    var validIsolate: nat
    ghost const Repr: set<object>

    ghost predicate Valid()
      reads this, Repr
    {
      && Repr == {this} + stack.Repr && this !in stack.Repr && stack in Repr
      && stack.Valid()
    }

    ghost function Current(): X.State
      reads this, stack
    {
      X.State(stack.Contents, overflowIsolate, overflowEmbedding, validIsolate)
    }

    constructor (base: Level)
      ensures Valid() && fresh(Repr)
      ensures Current() == X.Initial(base)
    {
      var s := new LevelStack();
      s.Push(base, Neutral, false);
      stack := s;
      overflowIsolate, overflowEmbedding, validIsolate := 0, 0, 0;
      Repr := {this} + s.Repr;
    }

    method Top() returns (e: Entry)
      requires Valid() && X.Live(Current())
      ensures e == Current().Top()
    {
      e := stack.Top();
    }

    /** X2 to X5. */
    method Embed(odd: bool, over: Override)
      requires Valid() && X.Live(Current())
      modifies Repr
      ensures Valid() && Current() == X.Embed(old(Current()), odd, over, MAX_DEPTH)
    {
      var top := stack.Top();
      var next := LeastGreater(top.level, odd);
      if next.Some? && overflowIsolate == 0 && overflowEmbedding == 0 {
        stack.Push(next.value, over, false);
      } else if overflowIsolate == 0 {
        overflowEmbedding := overflowEmbedding + 1;
      }
    }

    /** X5a to X5c. */
    method OpenIsolate(odd: bool)
      requires Valid() && X.Live(Current())
      modifies Repr
      ensures Valid() && Current() == X.OpenIsolate(old(Current()), odd, MAX_DEPTH)
    {
      var top := stack.Top();
      var next := LeastGreater(top.level, odd);
      if next.Some? && overflowIsolate == 0 && overflowEmbedding == 0 {
        validIsolate := validIsolate + 1;
        stack.Push(next.value, Neutral, true);
      } else {
        overflowIsolate := overflowIsolate + 1;
      }
    }

    /** The loop of X6a and the pop after it. False when it would look below the bottom of
        the stack, where the source panics. */
    method PopThroughIsolate() returns (ok: bool)
      requires Valid()
      modifies stack.Repr
      ensures Valid()
      ensures ok == X.PopThroughIsolate(old(stack.Contents)).Some?
      ensures ok ==> stack.Contents == X.PopThroughIsolate(old(stack.Contents)).value
    {
      while stack.depth > 0
        invariant Valid()
        invariant X.PopThroughIsolate(stack.Contents) == X.PopThroughIsolate(old(stack.Contents))
        decreases |stack.Contents|
      {
        var top := stack.Top();
        stack.Pop();
        if top.isolate {
          return true;
        }
      }
      return false;
    }

    /** X6a. */
    method CloseIsolate() returns (ok: bool)
      requires Valid()
      modifies Repr
      ensures Valid()
      ensures ok == X.CloseIsolate(old(Current())).Some?
      ensures ok ==> Current() == X.CloseIsolate(old(Current())).value
    {
      if overflowIsolate > 0 {
        overflowIsolate := overflowIsolate - 1;
      } else if validIsolate == 0 {
        // No isolate to close.
      } else {
        overflowEmbedding := 0;
        ok := PopThroughIsolate();
        validIsolate := validIsolate - 1;
        return ok;
      }
      return true;
    }

    /** X7. */
    method PopFormat()
      requires Valid() && X.Live(Current())
      modifies Repr
      ensures Valid() && Current() == X.PopFormat(old(Current()))
    {
      if overflowIsolate > 0 {
        // Inside an overflowing isolate.
      } else if overflowEmbedding > 0 {
        overflowEmbedding := overflowEmbedding - 1;
      } else {
        var top := stack.Top();
        if !top.isolate && stack.depth >= 2 {
          stack.Pop();
        }
      }
    }
  }
}
