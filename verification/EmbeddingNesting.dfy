/** Embeddings, overrides and their PDFs: which initiators are open at a position, and why that alone
    decides the state of rules X1 to X8 there. */
module EmbeddingNesting {
  import opened Wrappers
  import opened BidiTypes
  import opened LevelStacks
  import opened ExplicitLevels
  import opened IsolateNesting
  import opened ParagraphLevels

  // ----- what is open, over positions -----

  function Weight(bc: BidiClass): int {
    match bc
    case LRE | RLE | LRO | RLO => 1
    case PDF => -1
    case _ => 0
  }

  /** The embeddings and overrides begun minus the PDFs from i up to k, in the isolate of i alone. */
  function Balance(types: seq<BidiClass>, i: nat, k: nat): int
    requires i <= k <= |types|
    decreases k
  {
    if k == i then 0
    else Balance(types, i, k - 1)
         + if OpenIsolates(types, k - 1) == OpenIsolates(types, i) then Weight(types[k - 1]) else 0
  }

  /** The embedding or override that i initiates is open at position k: the isolate around it has
      not ended since, and its PDF has not come. */
  predicate EmbeddingOpen(types: seq<BidiClass>, i: nat, k: nat)
    decreases k
  {
    && i < k <= |types|
    && (types[i].LRE? || types[i].RLE? || types[i].LRO? || types[i].RLO?)
    && OpenIsolates(types, k) >= OpenIsolates(types, i)
    && Balance(types, i, k) >= 1
    && (k == i + 1 || EmbeddingOpen(types, i, k - 1))
  }

  /** The PDF at j ends the embedding or override that i initiates. */
  predicate MatchesPdf(types: seq<BidiClass>, i: nat, j: nat) {
    && EmbeddingOpen(types, i, j) && j < |types| && types[j].PDF?
    && OpenIsolates(types, j) == OpenIsolates(types, i) && Balance(types, i, j) == 1
  }

  /** Initiator i, of an isolate, embedding or override, is open at k. */
  predicate OpenAt(types: seq<BidiClass>, i: nat, k: nat) {
    OpenUntil(types, i, k) || EmbeddingOpen(types, i, k)
  }

  ghost predicate Innermost(types: seq<BidiClass>, i: nat, k: nat) {
    OpenAt(types, i, k) && forall h: nat :: i < h < k ==> !OpenAt(types, h, k)
  }

  ghost predicate NoneOpen(types: seq<BidiClass>, k: nat) {
    forall i: nat :: !OpenAt(types, i, k)
  }

  // ----- the isolate counter -----

  /** The isolate of i is open exactly while the counter stays above its value at i. */
  lemma {:induction false} OpenByDepth(types: seq<BidiClass>, i: nat, k: nat)
    requires i < k <= |types| && IsIsoInit(types[i])
    ensures OpenUntil(types, i, k) <==> forall x :: i < x <= k ==> OpenIsolates(types, x) > OpenIsolates(types, i)
    ensures OpenUntil(types, i, k) ==> Nesting(types, i, k) == OpenIsolates(types, k) - OpenIsolates(types, i)
    decreases k
  {
    assert Nesting(types, i, i) == 0;
    if k > i + 1 {
      var j := k - 1;
      OpenByDepth(types, i, j);
      if OpenUntil(types, i, j) {
        assert OpenIsolates(types, j) > OpenIsolates(types, i);
        assert Nesting(types, i, k) == OpenIsolates(types, k) - OpenIsolates(types, i);
        assert OpenUntil(types, i, k) <==> OpenIsolates(types, k) > OpenIsolates(types, i);
      }
    }
  }

  /** The last place before k where the counter was d is an initiator. */
  lemma {:induction false} LastAt(types: seq<BidiClass>, k: nat, d: nat) returns (m: nat)
    requires k <= |types| && d < OpenIsolates(types, k)
    ensures m < k && IsIsoInit(types[m]) && OpenIsolates(types, m) == d
    ensures forall x :: m < x <= k ==> OpenIsolates(types, x) > d
    decreases k
  {
    if OpenIsolates(types, k - 1) > d {
      m := LastAt(types, k - 1, d);
    } else {
      m := k - 1;
    }
  }

  // ----- the balance -----

  lemma {:induction false} BalanceAdds(types: seq<BidiClass>, i: nat, m: nat, k: nat)
    requires i <= m <= k <= |types| && OpenIsolates(types, i) == OpenIsolates(types, m)
    ensures Balance(types, i, k) == Balance(types, i, m) + Balance(types, m, k)
    decreases k
  {
    if m < k {
      BalanceAdds(types, i, m, k - 1);
    }
  }

  /** Deeper isolates and neutral characters do not count. */
  lemma {:induction false} BalanceStays(types: seq<BidiClass>, i: nat, m: nat, k: nat)
    requires i <= m <= k <= |types|
    requires forall x :: m <= x < k ==> OpenIsolates(types, x) != OpenIsolates(types, i) || Weight(types[x]) == 0
    ensures Balance(types, i, k) == Balance(types, i, m)
    decreases k
  {
    if m < k {
      var j := k - 1;
      BalanceStays(types, i, m, j);
      assert OpenIsolates(types, j) != OpenIsolates(types, i) || Weight(types[j]) == 0;
    }
  }

  lemma {:induction false} EmbeddingPrefix(types: seq<BidiClass>, i: nat, q: nat, k: nat)
    requires EmbeddingOpen(types, i, k) && i < q <= k
    ensures EmbeddingOpen(types, i, q)
    decreases k
  {
    if q < k {
      EmbeddingPrefix(types, i, q, k - 1);
    }
  }

  lemma OpenPrefix(types: seq<BidiClass>, i: nat, q: nat, k: nat)
    requires OpenAt(types, i, k) && i < q <= k
    ensures OpenAt(types, i, q)
  {
    if OpenUntil(types, i, k) {
      OpenUntilPrefix(types, i, q, k);
    } else {
      EmbeddingPrefix(types, i, q, k);
    }
  }

  /** An embedding stays open while the counter and the balance allow. */
  lemma {:induction false} EmbeddingExtends(types: seq<BidiClass>, i: nat, m: nat, k: nat)
    requires EmbeddingOpen(types, i, m) && m <= k <= |types|
    requires forall x :: m <= x <= k ==> OpenIsolates(types, x) >= OpenIsolates(types, i) && Balance(types, i, x) >= 1
    ensures EmbeddingOpen(types, i, k)
    decreases k
  {
    if m < k {
      EmbeddingExtends(types, i, m, k - 1);
    }
  }

  lemma IsolateExtends(types: seq<BidiClass>, i: nat, m: nat, k: nat)
    requires OpenUntil(types, i, m) && m <= k <= |types|
    requires forall x :: m <= x <= k ==> OpenIsolates(types, x) > OpenIsolates(types, i)
    ensures OpenUntil(types, i, k)
  {
    OpenByDepth(types, i, m);
    OpenByDepth(types, i, k);
  }

  /** With two embeddings open in the isolate of i, one began behind i. */
  lemma {:induction false} InnerEmbedding(types: seq<BidiClass>, i: nat, k: nat) returns (h: nat)
    requires EmbeddingOpen(types, i, k) && Balance(types, i, k) >= 2
    ensures i < h && EmbeddingOpen(types, h, k) && OpenIsolates(types, h) == OpenIsolates(types, i)
    ensures Balance(types, h, k) == Balance(types, i, k) - 1
    decreases k
  {
    assert Balance(types, i, i) == 0;
    if Balance(types, i, k - 1) >= 2 {
      h := InnerEmbedding(types, i, k - 1);
    } else {
      h := k - 1;
      assert Balance(types, h, h) == 0;
    }
  }

  /** An innermost embedding is the one a PDF at k would end. */
  lemma InnermostIsAlone(types: seq<BidiClass>, i: nat, k: nat)
    requires Innermost(types, i, k) && EmbeddingOpen(types, i, k)
    ensures OpenIsolates(types, k) == OpenIsolates(types, i) && Balance(types, i, k) == 1
  {
    if OpenIsolates(types, k) > OpenIsolates(types, i) {
      var m := LastAt(types, k, OpenIsolates(types, i));
      OpenByDepth(types, m, k);
      assert OpenAt(types, m, k);
    }
    if Balance(types, i, k) >= 2 {
      var h := InnerEmbedding(types, i, k);
      assert OpenAt(types, h, k);
    }
  }

  lemma MatchedIsInnermost(types: seq<BidiClass>, i: nat, j: nat)
    requires MatchesPdf(types, i, j)
    ensures Innermost(types, i, j)
  {
    forall h: nat | i < h < j ensures !OpenAt(types, h, j) {
      EmbeddingPrefix(types, i, h, j);
      if OpenUntil(types, h, j) {
        OpenByDepth(types, h, j);
      }
      if EmbeddingOpen(types, h, j) {
        BalanceAdds(types, i, h, j);
      }
    }
  }

  lemma {:induction false} FindInnermost(types: seq<BidiClass>, k: nat, n: nat) returns (r: Option<nat>)
    requires n <= k <= |types|
    requires forall h: nat :: n <= h < k ==> !OpenAt(types, h, k)
    ensures r.Some? ==> Innermost(types, r.value, k)
    ensures r.None? ==> NoneOpen(types, k)
    decreases n
  {
    if n == 0 {
      r := None;
    } else if OpenAt(types, n - 1, k) {
      r := Some(n - 1);
    } else {
      r := FindInnermost(types, k, n - 1);
    }
  }

  // ----- what stays open behind a character -----

  /** What is open at k is what was open at m. */
  ghost predicate SameOpen(types: seq<BidiClass>, m: nat, k: nat) {
    forall i: nat :: OpenAt(types, i, k) <==> i < m && OpenAt(types, i, m)
  }

  /** A character that opens and closes nothing. */
  predicate Passes(types: seq<BidiClass>, k: nat)
    requires k < |types|
  {
    Weight(types[k]) == 0 && !IsIsoInit(types[k]) && (types[k].PDI? ==> OpenIsolates(types, k) == 0)
  }

  lemma PassedOpen(types: seq<BidiClass>, k: nat, next: nat)
    requires k < |types| && next == k + 1 && Passes(types, k)
    ensures SameOpen(types, k, next)
  {
    forall i: nat ensures OpenAt(types, i, next) <==> i < k && OpenAt(types, i, k) {
      if OpenAt(types, i, next) && i < k {
        OpenPrefix(types, i, k, next);
      }
      if i < k && OpenUntil(types, i, k) {
        OpenByDepth(types, i, k);
        IsolateExtends(types, i, k, next);
      }
    }
  }

  /** The PDI that closes the isolate of m: nothing opened inside stays open. */
  lemma ClosedOpen(types: seq<BidiClass>, m: nat, k: nat, next: nat)
    requires Matches(types, m, k) && next == k + 1
    ensures SameOpen(types, m, next)
  {
    OpenByDepth(types, m, k);
    forall i: nat ensures OpenAt(types, i, next) <==> i < m && OpenAt(types, i, m) {
      if OpenAt(types, i, next) {
        OpenBehindClosing(types, m, k, next, i);
      }
      if i < m && OpenUntil(types, i, m) {
        OpenByDepth(types, i, m);
        IsolateExtends(types, i, m, next);
      }
      if i < m && EmbeddingOpen(types, i, m) {
        forall x | m <= x <= next ensures Balance(types, i, x) == Balance(types, i, m) {
          BalanceStays(types, i, m, x);
        }
        EmbeddingExtends(types, i, m, next);
      }
    }
  }

  lemma OpenBehindClosing(types: seq<BidiClass>, m: nat, k: nat, next: nat, i: nat)
    requires Matches(types, m, k) && next == k + 1 && OpenAt(types, i, next)
    ensures i < m && OpenAt(types, i, m)
  {
    OpenByDepth(types, m, k);
    if OpenUntil(types, i, next) {
      OpenByDepth(types, i, next);
    }
    if i < m {
      OpenPrefix(types, i, m, next);
    }
  }

  /** The PDF that ends the embedding of m. */
  lemma EndedOpen(types: seq<BidiClass>, m: nat, k: nat, next: nat)
    requires MatchesPdf(types, m, k) && next == k + 1
    ensures SameOpen(types, m, next)
  {
    MatchedIsInnermost(types, m, k);
    forall i: nat ensures OpenAt(types, i, next) <==> i < m && OpenAt(types, i, m) {
      if OpenAt(types, i, next) {
        OpenBehindEnd(types, m, k, next, i);
      }
      if i < m && OpenAt(types, i, m) {
        StaysOverEmbedding(types, m, k, next, i);
      }
    }
  }

  lemma OpenBehindEnd(types: seq<BidiClass>, m: nat, k: nat, next: nat, i: nat)
    requires MatchesPdf(types, m, k) && next == k + 1 && Innermost(types, m, k) && OpenAt(types, i, next)
    ensures i < m && OpenAt(types, i, m)
  {
    if i < k {
      OpenPrefix(types, i, k, next);
    }
    assert Balance(types, m, next) == 0;
    if i < m {
      OpenPrefix(types, i, m, next);
    }
  }

  lemma {:induction false} DepthFrom(types: seq<BidiClass>, m: nat, k: nat)
    requires EmbeddingOpen(types, m, k)
    ensures forall x :: m <= x <= k ==> OpenIsolates(types, x) >= OpenIsolates(types, m)
    ensures forall x :: m < x <= k ==> Balance(types, m, x) >= 1
    decreases k
  {
    if k > m + 1 {
      DepthFrom(types, m, k - 1);
    }
  }

  lemma StaysOverEmbedding(types: seq<BidiClass>, m: nat, k: nat, next: nat, i: nat)
    requires MatchesPdf(types, m, k) && next == k + 1 && i < m && OpenAt(types, i, m)
    ensures OpenAt(types, i, next)
  {
    DepthFrom(types, m, k);
    if OpenUntil(types, i, m) {
      OpenByDepth(types, i, m);
      IsolateExtends(types, i, m, next);
    } else {
      assert Balance(types, m, m) == 0 && Balance(types, m, next) == 0;
      forall x | m <= x <= next ensures Balance(types, i, x) >= 1 {
        if OpenIsolates(types, m) == OpenIsolates(types, i) {
          BalanceAdds(types, i, m, x);
        } else {
          BalanceStays(types, i, m, x);
        }
      }
      EmbeddingExtends(types, i, m, next);
    }
  }

  /** A PDF that matches nothing. */
  lemma UnmatchedOpen(types: seq<BidiClass>, k: nat, next: nat)
    requires k < |types| && next == k + 1 && types[k].PDF? && forall i: nat :: !MatchesPdf(types, i, k)
    ensures SameOpen(types, k, next)
  {
    forall i: nat ensures OpenAt(types, i, next) <==> i < k && OpenAt(types, i, k) {
      if OpenAt(types, i, next) && i < k {
        OpenPrefix(types, i, k, next);
      }
      if i < k && OpenUntil(types, i, k) {
        OpenByDepth(types, i, k);
        IsolateExtends(types, i, k, next);
      }
      if i < k && EmbeddingOpen(types, i, k) {
        StaysPastUnmatched(types, k, i);
      }
    }
  }

  lemma StaysPastUnmatched(types: seq<BidiClass>, k: nat, i: nat)
    requires k < |types| && types[k].PDF? && forall h: nat :: !MatchesPdf(types, h, k)
    requires EmbeddingOpen(types, i, k)
    ensures OpenIsolates(types, k) > OpenIsolates(types, i)
  {
    assert OpenAt(types, i, k);
    var r := FindInnermost(types, k, k);
    var h := r.value;
    if EmbeddingOpen(types, h, k) {
      InnermostIsAlone(types, h, k);
    }
    assert !MatchesPdf(types, h, k);
    OpenByDepth(types, h, k);
    if i < h {
      EmbeddingPrefix(types, i, h, k);
    }
  }

  // ----- the state, decided by what is open -----

  lemma StepCounts(s: State, bc: BidiClass, odd: bool, cap: nat)
    requires Live(s) && Step(s, bc, odd, cap).Some?
    ensures var s', n := Step(s, bc, odd, cap).value, s.validIsolate + s.overflowIsolate;
            s'.validIsolate + s'.overflowIsolate
            == if IsIsoInit(bc) then n + 1 else if bc.PDI? && n > 0 then n - 1 else n
  {
  }

  /** The isolates counted by the rules are those of the counter, whatever the capacity. */
  lemma {:induction false} CountsAreDepth(types: seq<BidiClass>, base: Level, cap: nat, k: nat)
    requires k <= |types| && 0 <= base <= 1 && StateAt(types, base, cap, k).Some?
    ensures var s := StateAt(types, base, cap, k).value; s.validIsolate + s.overflowIsolate == OpenIsolates(types, k)
    decreases k
  {
    if k > 0 {
      var j := k - 1;
      CountsAreDepth(types, base, cap, j);
      StepCounts(StateAt(types, base, cap, j).value, types[j], OpensOdd(types, j), cap);
    }
  }

  /** Whether initiator i opens an entry rather than counting as overflow. */
  predicate Opening(types: seq<BidiClass>, base: Level, cap: nat, i: nat)
    requires 0 <= base <= 1 && i < |types| && StateAt(types, base, cap, i).Some?
  {
    Opens(StateAt(types, base, cap, i).value, OpensOdd(types, i))
  }

  lemma SlotRoomy(types: seq<BidiClass>, base: Level, cap: nat, i: nat)
    requires Roomy(base, cap) && i < |types|
    ensures StateAt(types, base, cap, i).Some?
    ensures Opening(types, base, cap, i) ==> |StateAt(types, base, cap, i).value.stack| < cap
  {
    StackInvariant(types, base, cap, i);
  }

  lemma SlotInSource(types: seq<BidiClass>, base: Level, i: nat, next: nat)
    requires 0 <= base <= 1 && FitsSourceStack(types, base) && i < |types| && next == i + 1
    requires IsEmbedding(types[i]) || IsIsoInit(types[i])
    ensures StateAt(types, base, UAX_DEPTH, i).Some?
    ensures Opening(types, base, UAX_DEPTH, i) ==> |StateAt(types, base, UAX_DEPTH, i).value.stack| < MAX_DEPTH
  {
    SlotRoomy(types, base, UAX_DEPTH, i);
    assert |StateAt(types, base, UAX_DEPTH, next).value.stack| <= MAX_DEPTH;
  }

  /** With no push dropped there is a slot for every entry opened. */
  lemma SlotLeft(types: seq<BidiClass>, base: Level, cap: nat, i: nat)
    requires KeepsPushes(types, base, cap) && i < |types| && (IsEmbedding(types[i]) || IsIsoInit(types[i]))
    ensures StateAt(types, base, cap, i).Some?
    ensures Opening(types, base, cap, i) ==> |StateAt(types, base, cap, i).value.stack| < cap
  {
    if Roomy(base, cap) {
      SlotRoomy(types, base, cap, i);
    } else {
      WideStates(types, base, cap, i);
      SlotInSource(types, base, i, i + 1);
    }
  }

  /** What decides the state at k: the innermost open initiator, or that there is none. */
  ghost predicate Decided(types: seq<BidiClass>, base: Level, cap: nat, k: nat)
    requires 0 <= base <= 1 && k <= |types|
  {
    && (forall i: nat :: Innermost(types, i, k) ==> StateAt(types, base, cap, k) == StateAt(types, base, cap, i + 1))
    && (NoneOpen(types, k) ==> StateAt(types, base, cap, k) == Some(Initial(base)))
  }

  lemma DecidedBySame(types: seq<BidiClass>, base: Level, cap: nat, m: nat, k: nat)
    requires 0 <= base <= 1 && m < k <= |types| && Decided(types, base, cap, m) && SameOpen(types, m, k)
    requires StateAt(types, base, cap, k) == StateAt(types, base, cap, m)
    ensures Decided(types, base, cap, k)
  {
    forall i: nat | Innermost(types, i, k) ensures StateAt(types, base, cap, k) == StateAt(types, base, cap, i + 1) {
      assert OpenAt(types, i, k);
      assert Innermost(types, i, m);
    }
    if NoneOpen(types, k) {
      forall i: nat ensures !OpenAt(types, i, m) {
        assert i < m && OpenAt(types, i, m) ==> OpenAt(types, i, k);
      }
    }
  }

  /** An opened entry is the one a PDF pops, and an overflow the one it counts back. */
  lemma EmbedThenPop(s: State, odd: bool, over: Override, cap: nat)
    requires Live(s) && (Opens(s, odd) ==> |s.stack| < cap)
    ensures PopFormat(Embed(s, odd, over, cap)) == s
  {
    if Opens(s, odd) {
      var e := Entry(LeastGreater(s.Top().level, odd).value, over, false);
      assert (s.stack + [e])[..|s.stack|] == s.stack;
    }
  }

  /** Directly inside an isolate a PDF finds nothing to end. */
  lemma OpenThenPop(s: State, odd: bool, cap: nat)
    requires Live(s) && (Opens(s, odd) ==> |s.stack| < cap)
    ensures PopFormat(OpenIsolate(s, odd, cap)) == OpenIsolate(s, odd, cap)
  {
  }

  lemma StepAt(types: seq<BidiClass>, base: Level, cap: nat, k: nat, next: nat)
    requires KeepsPushes(types, base, cap) && k < |types| && next == k + 1
    ensures StateAt(types, base, cap, k).Some?
    ensures StateAt(types, base, cap, next) == Step(StateAt(types, base, cap, k).value, types[k], OpensOdd(types, k), cap)
    ensures StateAt(types, base, cap, next).Some?
  {
    WideStates(types, base, cap, k);
    WideStates(types, base, cap, next);
  }

  /** The PDF that ends the embedding of m restores the state before it. */
  lemma EndedState(types: seq<BidiClass>, base: Level, cap: nat, m: nat, k: nat, next: nat)
    requires KeepsPushes(types, base, cap) && MatchesPdf(types, m, k) && next == k + 1
    requires Decided(types, base, cap, k)
    ensures StateAt(types, base, cap, next) == StateAt(types, base, cap, m)
  {
    var begun := m + 1;
    MatchedIsInnermost(types, m, k);
    StepAt(types, base, cap, m, begun);
    StepAt(types, base, cap, k, next);
    SlotLeft(types, base, cap, m);
    EmbedThenPop(StateAt(types, base, cap, m).value, OpensOdd(types, m), OverrideOf(types[m]), cap);
  }

  /** A PDF that matches nothing changes nothing. */
  lemma UnmatchedState(types: seq<BidiClass>, base: Level, cap: nat, k: nat, next: nat)
    requires KeepsPushes(types, base, cap) && k < |types| && next == k + 1 && types[k].PDF?
    requires Decided(types, base, cap, k) && forall i: nat :: !MatchesPdf(types, i, k)
    ensures StateAt(types, base, cap, next) == StateAt(types, base, cap, k)
  {
    StepAt(types, base, cap, k, next);
    var r := FindInnermost(types, k, k);
    if r.Some? {
      var h := r.value;
      if EmbeddingOpen(types, h, k) {
        InnermostIsAlone(types, h, k);
      }
      assert !MatchesPdf(types, h, k);
      StepAt(types, base, cap, h, h + 1);
      SlotLeft(types, base, cap, h);
      OpenThenPop(StateAt(types, base, cap, h).value, OpensOdd(types, h), cap);
    }
  }

  lemma PassedState(types: seq<BidiClass>, base: Level, cap: nat, k: nat, next: nat)
    requires KeepsPushes(types, base, cap) && k < |types| && next == k + 1 && Passes(types, k)
    ensures StateAt(types, base, cap, next) == StateAt(types, base, cap, k)
  {
    StepAt(types, base, cap, k, next);
    CountsAreDepth(types, base, cap, k);
  }

  lemma JustOpened(types: seq<BidiClass>, k: nat, next: nat)
    requires k < |types| && next == k + 1 && (IsIsoInit(types[k]) || IsEmbedding(types[k]))
    ensures OpenAt(types, k, next)
  {
    assert Nesting(types, k, k) == 0 && Balance(types, k, k) == 0;
  }

  lemma ClosesSome(types: seq<BidiClass>, k: nat) returns (m: nat)
    requires k < |types| && types[k].PDI? && OpenIsolates(types, k) > 0
    ensures Matches(types, m, k)
  {
    m := LastAt(types, k, OpenIsolates(types, k) - 1);
    OpenByDepth(types, m, k);
  }

  /** Where no push is dropped, the state at a position is that right behind the innermost initiator
      open there, and the first state if none is open. */
  lemma {:induction false} StateIsDecided(types: seq<BidiClass>, base: Level, cap: nat, k: nat)
    requires KeepsPushes(types, base, cap) && k <= |types|
    ensures StateAt(types, base, cap, k).Some? && Decided(types, base, cap, k)
    decreases k
  {
    WideStates(types, base, cap, k);
    if k > 0 {
      var j := k - 1;
      forall m: nat | m <= j ensures Decided(types, base, cap, m) {
        StateIsDecided(types, base, cap, m);
      }
      if types[j].PDF? {
        AfterPdf(types, base, cap, j, k);
      } else {
        AfterOther(types, base, cap, j, k);
      }
    }
  }

  lemma AfterOther(types: seq<BidiClass>, base: Level, cap: nat, j: nat, k: nat)
    requires KeepsPushes(types, base, cap) && j < |types| && k == j + 1 && !types[j].PDF?
    requires forall m: nat :: m <= j ==> Decided(types, base, cap, m)
    ensures Decided(types, base, cap, k)
  {
    if IsIsoInit(types[j]) || IsEmbedding(types[j]) {
      JustOpened(types, j, k);
    } else if Passes(types, j) {
      PassedOpen(types, j, k);
      PassedState(types, base, cap, j, k);
      DecidedBySame(types, base, cap, j, k);
    } else {
      var m := ClosesSome(types, j);
      ClosedOpen(types, m, j, k);
      ClosedState(types, base, cap, m, j, k);
      DecidedBySame(types, base, cap, m, k);
    }
  }

  lemma ClosedState(types: seq<BidiClass>, base: Level, cap: nat, m: nat, j: nat, k: nat)
    requires KeepsPushes(types, base, cap) && Matches(types, m, j) && k == j + 1
    ensures StateAt(types, base, cap, k) == StateAt(types, base, cap, m)
  {
    IsolateRestores(types, base, cap, m, j);
  }

  lemma AfterPdf(types: seq<BidiClass>, base: Level, cap: nat, j: nat, k: nat)
    requires KeepsPushes(types, base, cap) && j < |types| && k == j + 1 && types[j].PDF?
    requires forall m: nat :: m <= j ==> Decided(types, base, cap, m)
    ensures Decided(types, base, cap, k)
  {
    if m: nat :| MatchesPdf(types, m, j) {
      EndedState(types, base, cap, m, j, k);
      EndedOpen(types, m, j, k);
      DecidedBySame(types, base, cap, m, k);
    } else {
      UnmatchedState(types, base, cap, j, k);
      UnmatchedOpen(types, j, k);
      DecidedBySame(types, base, cap, j, k);
    }
  }

  // ----- X7 -----

  /** X7: the whole state behind the PDF that matches an embedding or override is that before the
      initiator, whether it was opened or overflowed. */
  lemma EmbeddingRestores(types: seq<BidiClass>, base: Level, cap: nat, i: nat, j: nat)
    requires KeepsPushes(types, base, cap) && MatchesPdf(types, i, j)
    ensures StateAt(types, base, cap, i).Some?
    ensures StateAt(types, base, cap, j + 1) == StateAt(types, base, cap, i)
  {
    var next := j + 1;
    WideStates(types, base, cap, i);
    StateIsDecided(types, base, cap, j);
    EndedState(types, base, cap, i, j, next);
  }

  /** A PDF that matches nothing changes nothing. */
  lemma UnmatchedPdf(types: seq<BidiClass>, base: Level, cap: nat, j: nat)
    requires KeepsPushes(types, base, cap) && j < |types| && types[j].PDF?
    requires forall i: nat :: !MatchesPdf(types, i, j)
    ensures StateAt(types, base, cap, j).Some?
    ensures StateAt(types, base, cap, j + 1) == StateAt(types, base, cap, j)
  {
    StateIsDecided(types, base, cap, j);
    UnmatchedState(types, base, cap, j, j + 1);
  }

  // ----- overflow -----

  predicate Overflowed(s: State) {
    s.overflowIsolate > 0 || s.overflowEmbedding > 0
  }

  lemma BehindInitiator(types: seq<BidiClass>, base: Level, cap: nat, i: nat, next: nat)
    requires KeepsPushes(types, base, cap) && i < |types| && next == i + 1
    requires IsIsoInit(types[i]) || IsEmbedding(types[i])
    ensures StateAt(types, base, cap, i).Some? && StateAt(types, base, cap, next).Some?
    ensures var s, s' := StateAt(types, base, cap, i).value, StateAt(types, base, cap, next).value;
            if Opening(types, base, cap, i) then
              && !Overflowed(s')
              && s'.Top() == Entry(LeastGreater(s.Top().level, OpensOdd(types, i)).value, OverrideOf(types[i]), IsIsoInit(types[i]))
            else Overflowed(s') && s'.stack == s.stack
  {
    StepAt(types, base, cap, i, next);
    SlotLeft(types, base, cap, i);
  }

  /** How a state inside an initiator relates to the state before it. */
  predicate Within(s: State, odd: bool, s': State)
    requires Live(s) && s'.stack != []
  {
    if Opens(s, odd) then s'.Top().level >= LeastGreater(s.Top().level, odd).value > s.Top().level
    else Overflowed(s') && s'.stack == s.stack
  }

  lemma WithinFirst(types: seq<BidiClass>, base: Level, cap: nat, i: nat, next: nat)
    requires KeepsPushes(types, base, cap) && i < |types| && next == i + 1
    requires IsIsoInit(types[i]) || IsEmbedding(types[i])
    ensures StateAt(types, base, cap, i).Some? && StateAt(types, base, cap, next).Some?
    ensures Within(StateAt(types, base, cap, i).value, OpensOdd(types, i), StateAt(types, base, cap, next).value)
    ensures Overflowed(StateAt(types, base, cap, i).value) ==> Overflowed(StateAt(types, base, cap, next).value)
    ensures Overflowed(StateAt(types, base, cap, i).value) ==>
              StateAt(types, base, cap, next).value.stack == StateAt(types, base, cap, i).value.stack
    ensures StateAt(types, base, cap, next).value.Top().level >= StateAt(types, base, cap, i).value.Top().level
  {
    BehindInitiator(types, base, cap, i, next);
  }

  lemma WithinThen(s: State, odd: bool, t: State, u: State)
    requires Live(s) && t.stack != [] && u.stack != [] && Within(s, odd, t)
    requires Overflowed(t) ==> Overflowed(u) && u.stack == t.stack
    requires u.Top().level >= t.Top().level
    ensures Within(s, odd, u)
  {
  }

  /** Inside an initiator that overflowed nothing opens, and the stack stays as it was; inside one
      that opened no level is below the one it opened. */
  lemma {:induction false} OverflowInside(types: seq<BidiClass>, base: Level, cap: nat, h: nat, k: nat)
    requires KeepsPushes(types, base, cap) && OpenAt(types, h, k)
    ensures StateAt(types, base, cap, h).Some? && StateAt(types, base, cap, k).Some?
    ensures Within(StateAt(types, base, cap, h).value, OpensOdd(types, h), StateAt(types, base, cap, k).value)
    decreases k
  {
    assert OpenAt(types, h, k);
    var r := FindInnermost(types, k, k);
    var i := r.value;
    var next := i + 1;
    InnermostState(types, base, cap, i, k, next);
    WithinFirst(types, base, cap, i, next);
    if h < i {
      OpenPrefix(types, h, i, k);
      OverflowInside(types, base, cap, h, i);
      WithinThen(StateAt(types, base, cap, h).value, OpensOdd(types, h), StateAt(types, base, cap, i).value,
                 StateAt(types, base, cap, k).value);
    } else {
      assert h == i;
    }
  }

  /** An initiator opens if and only if a level is left for it and no initiator open around it has
      overflowed. */
  lemma OpeningExactly(types: seq<BidiClass>, base: Level, cap: nat, i: nat)
    requires KeepsPushes(types, base, cap) && i < |types|
    ensures StateAt(types, base, cap, i).Some?
    ensures Opening(types, base, cap, i) <==>
            && LeastGreater(StateAt(types, base, cap, i).value.Top().level, OpensOdd(types, i)).Some?
            && forall h: nat :: OpenAt(types, h, i) ==> StateAt(types, base, cap, h).Some? && Opening(types, base, cap, h)
  {
    StateIsDecided(types, base, cap, i);
    forall h: nat | OpenAt(types, h, i)
      ensures StateAt(types, base, cap, h).Some?
      ensures Overflowed(StateAt(types, base, cap, i).value) || Opening(types, base, cap, h)
    {
      OverflowInside(types, base, cap, h, i);
    }
    var r := FindInnermost(types, i, i);
    if r.Some? {
      BehindInitiator(types, base, cap, r.value, r.value + 1);
      assert OpenAt(types, r.value, i);
    }
  }

  // ----- levels and overrides -----

  /** The position whose state governs character k: a PDI belongs outside the isolate it closes. */
  function GovernedAt(types: seq<BidiClass>, k: nat): nat
    requires k < |types|
  {
    if types[k].PDI? then k + 1 else k
  }

  lemma TopInside(types: seq<BidiClass>, base: Level, cap: nat, i: nat, p: nat)
    requires KeepsPushes(types, base, cap) && OpenAt(types, i, p)
    ensures StateAt(types, base, cap, i).Some? && StateAt(types, base, cap, p).Some?
    ensures var level, outside := StateAt(types, base, cap, p).value.Top().level, StateAt(types, base, cap, i).value.Top().level;
            if Opening(types, base, cap, i) then level > outside else level == outside
  {
    OverflowInside(types, base, cap, i, p);
  }

  /** A character inside an embedding or override has a strictly greater level than the characters
      around it if it was opened, and the same level if it overflowed. */
  lemma EmbeddingContents(types: seq<BidiClass>, base: Level, cap: nat, i: nat, k: nat)
    requires KeepsPushes(types, base, cap) && k < |types| && EmbeddingOpen(types, i, GovernedAt(types, k))
    requires !IsRemovedClass(types[k]) && !types[k].B?
    ensures StateAt(types, base, cap, i).Some? && StateAt(types, base, cap, k + 1).Some?
    ensures var level, outside := ExplicitLevel(types, base, cap, k), StateAt(types, base, cap, i).value.Top().level;
            if Opening(types, base, cap, i) then level > outside else level == outside
  {
    GovernedBy(types, base, cap, k);
    TopInside(types, base, cap, i, GovernedAt(types, k));
  }

  lemma GovernedBy(types: seq<BidiClass>, base: Level, cap: nat, k: nat)
    requires KeepsPushes(types, base, cap) && k < |types| && !IsRemovedClass(types[k]) && !types[k].B?
    ensures StateAt(types, base, cap, GovernedAt(types, k)).Some? && StateAt(types, base, cap, k + 1).Some?
    ensures var top := StateAt(types, base, cap, GovernedAt(types, k)).value.Top();
            && ExplicitLevel(types, base, cap, k) == top.level
            && ExplicitClass(types, base, cap, k) == ApplyOverride(top.over, types[k])
  {
    var next := k + 1;
    WideStates(types, base, cap, k);
    WideStates(types, base, cap, next);
    GovernsTop(types, base, cap, k, next);
  }

  lemma GovernsTop(types: seq<BidiClass>, base: Level, cap: nat, k: nat, next: nat)
    requires 0 <= base <= 1 && k < |types| && next == k + 1
    requires StateAt(types, base, cap, k).Some? && StateAt(types, base, cap, next).Some?
    ensures Governing(types, base, cap, k)
         == if types[k].PDI? then StateAt(types, base, cap, next).value.Top() else StateAt(types, base, cap, k).value.Top()
  {
  }

  lemma InnermostState(types: seq<BidiClass>, base: Level, cap: nat, i: nat, p: nat, next: nat)
    requires KeepsPushes(types, base, cap) && Innermost(types, i, p) && next == i + 1
    ensures next <= |types| && (IsIsoInit(types[i]) || IsEmbedding(types[i]))
    ensures StateAt(types, base, cap, p).Some? && StateAt(types, base, cap, p) == StateAt(types, base, cap, next)
  {
    StateIsDecided(types, base, cap, p);
  }

  /** The entry on top at p, from the innermost initiator open there. */
  lemma InnermostTop(types: seq<BidiClass>, base: Level, cap: nat, i: nat, p: nat)
    requires KeepsPushes(types, base, cap) && Innermost(types, i, p)
    ensures StateAt(types, base, cap, i).Some? && StateAt(types, base, cap, p).Some?
    ensures var s := StateAt(types, base, cap, i).value;
            StateAt(types, base, cap, p).value.Top()
            == if Opens(s, OpensOdd(types, i))
               then Entry(LeastGreater(s.Top().level, OpensOdd(types, i)).value, OverrideOf(types[i]), IsIsoInit(types[i]))
               else s.Top()
  {
    var next := i + 1;
    InnermostState(types, base, cap, i, p, next);
    BehindInitiator(types, base, cap, i, next);
  }

  lemma NextLevel(level: Level, odd: bool)
    requires 0 <= level <= MAX_DEPTH && LeastGreater(level, odd).Some?
    ensures var next := LeastGreater(level, odd).value;
            && level < next <= MAX_DEPTH && (next % 2 == 1 <==> odd)
            && forall m :: level < m < next ==> m % 2 != next % 2
  {
  }

  /** X1 to X8 in one statement, for a character directly inside an initiator that was opened: its
      level is the least greater one than around the initiator, odd for RLE, RLO, RLI and an FSI with
      right-to-left content, even otherwise; it becomes R in an RLO, L in an LRO, and keeps its class
      in all others. */
  lemma InsideOpened(types: seq<BidiClass>, base: Level, cap: nat, i: nat, k: nat)
    requires KeepsPushes(types, base, cap) && k < |types| && Innermost(types, i, GovernedAt(types, k))
    requires !IsRemovedClass(types[k]) && !types[k].B?
    requires StateAt(types, base, cap, i).Some? ==> Opening(types, base, cap, i)
    ensures StateAt(types, base, cap, i).Some? && StateAt(types, base, cap, k + 1).Some?
    ensures var level, outside := ExplicitLevel(types, base, cap, k), StateAt(types, base, cap, i).value.Top().level;
            && outside < level <= MAX_DEPTH
            && (level % 2 == 1 <==> types[i].RLE? || types[i].RLO? || types[i].RLI?
                                    || (types[i].FSI? && ParagraphLevel(types[i + 1..], true, LTR) == 1))
            && forall m :: outside < m < level ==> m % 2 != level % 2
    ensures ExplicitClass(types, base, cap, k)
         == if types[i].RLO? then R else if types[i].LRO? then L else types[k]
  {
    GovernedBy(types, base, cap, k);
    InnermostTop(types, base, cap, i, GovernedAt(types, k));
    NextLevel(StateAt(types, base, cap, i).value.Top().level, OpensOdd(types, i));
  }

  /** Directly inside an initiator that overflowed everything is as around the initiator. */
  lemma InsideOverflowed(types: seq<BidiClass>, base: Level, cap: nat, i: nat, k: nat)
    requires KeepsPushes(types, base, cap) && k < |types| && Innermost(types, i, GovernedAt(types, k))
    requires !IsRemovedClass(types[k]) && !types[k].B?
    requires StateAt(types, base, cap, i).Some? ==> !Opening(types, base, cap, i)
    ensures StateAt(types, base, cap, i).Some? && StateAt(types, base, cap, k + 1).Some?
    ensures var top := StateAt(types, base, cap, i).value.Top();
            && ExplicitLevel(types, base, cap, k) == top.level
            && ExplicitClass(types, base, cap, k) == ApplyOverride(top.over, types[k])
  {
    GovernedBy(types, base, cap, k);
    InnermostTop(types, base, cap, i, GovernedAt(types, k));
  }

  /** Outside all initiators a character has the paragraph level and its own class. */
  lemma OutsideAll(types: seq<BidiClass>, base: Level, cap: nat, k: nat)
    requires KeepsPushes(types, base, cap) && k < |types| && NoneOpen(types, GovernedAt(types, k)) && !IsRemovedClass(types[k])
    ensures StateAt(types, base, cap, k + 1).Some?
    ensures ExplicitLevel(types, base, cap, k) == base && ExplicitClass(types, base, cap, k) == types[k]
  {
    WideStates(types, base, cap, k + 1);
    StateIsDecided(types, base, cap, GovernedAt(types, k));
  }

  /** X8 and X9: a paragraph separator has the paragraph level wherever it stands, and keeps its class;
      the removed classes, and no others, have no level. */
  lemma SeparatorsAndRemoved(types: seq<BidiClass>, base: Level, cap: nat, k: nat)
    requires k < |types| && 0 <= base <= 1 && StateAt(types, base, cap, k + 1).Some?
    ensures types[k].B? ==> ExplicitLevel(types, base, cap, k) == base && ExplicitClass(types, base, cap, k) == B
    ensures (types[k].RLE? || types[k].LRE? || types[k].RLO? || types[k].LRO? || types[k].PDF? || types[k].BN?)
            <==> ExplicitLevel(types, base, cap, k) == -1
  {
    ExplicitLevelBounds(types, base, cap, k);
  }
}
