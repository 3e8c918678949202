/** The directional status stack of rules X1 to X8 (level_stack.rs). */
module LevelStacks {
  import opened BidiTypes

  datatype Override = Neutral | ForceL | ForceR

  datatype Entry = Entry(level: Level, over: Override, isolate: bool)

  function ApplyOverride(over: Override, bc: BidiClass): BidiClass {
    match over
    case ForceL => L
    case ForceR => R
    case Neutral => bc
  }

  /** Pushing onto a stack with `cap` slots: a full stack silently drops the entry. */
  function PushEntry(stack: seq<Entry>, e: Entry, cap: nat): seq<Entry> {
    if |stack| >= cap then stack else stack + [e]
  }

  class LevelStack {
    const embeddingLevel: array<Level>
    const overrideStatus: array<Override>
    const isolateStatus: array<bool>
    var depth: nat
    ghost var Contents: seq<Entry>
    ghost const Repr: set<object>

    ghost predicate Valid()
      reads this, Repr
    {
      && Repr == {this, embeddingLevel, overrideStatus, isolateStatus}
      && embeddingLevel.Length == overrideStatus.Length == isolateStatus.Length == MAX_DEPTH
      && depth <= MAX_DEPTH
      && |Contents| == depth
      && forall i :: 0 <= i < depth ==>
           Contents[i] == Entry(embeddingLevel[i], overrideStatus[i], isolateStatus[i])
    }

    constructor ()
      ensures Valid() && fresh(Repr)
      ensures Contents == []
    {
      embeddingLevel := new Level[MAX_DEPTH](_ => 0);
      overrideStatus := new Override[MAX_DEPTH](_ => Neutral);
      isolateStatus := new bool[MAX_DEPTH](_ => false);
      depth := 0;
      Contents := [];
      Repr := {this, embeddingLevel, overrideStatus, isolateStatus};
    }

    method Push(level: Level, over: Override, isolate: bool)
      requires Valid()
      modifies Repr
      ensures Valid()
      ensures Contents == PushEntry(old(Contents), Entry(level, over, isolate), MAX_DEPTH)
    {
      if depth >= MAX_DEPTH {
        return;
      }
      embeddingLevel[depth] := level;
      overrideStatus[depth] := over;
      isolateStatus[depth] := isolate;
      depth := depth + 1;
      Contents := Contents + [Entry(level, over, isolate)];
    }

    method Pop()
      requires Valid()
      modifies Repr
      ensures Valid()
      ensures Contents == if old(Contents) == [] then [] else old(Contents)[..|old(Contents)| - 1]
    {
      if depth > 0 {
        depth := depth - 1;
        Contents := Contents[..depth];
      }
    }

    /** The top entry; like the source's three accessors it may only be read while one exists. */
    method Top() returns (e: Entry)
      requires Valid() && Contents != []
      ensures e == Contents[|Contents| - 1]
    {
      e := Entry(embeddingLevel[depth - 1], overrideStatus[depth - 1], isolateStatus[depth - 1]);
    }
  }
}
