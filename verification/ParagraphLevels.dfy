/** Rules P2 and P3, and rule X5c: the counter of open isolates finds the first strong character
    that no isolate (BD9) encloses. */
module ParagraphLevels {

  import opened Wrappers
  import opened BidiTypes
  import opened ExplicitLevels
  import opened IsolateNesting

  /** The counter before character k; a PDI without an open isolate leaves it at zero. */
  function OpenIsolates(types: seq<BidiClass>, k: nat): nat
    requires k <= |types|
    decreases k
  {
    if k == 0 then 0
    else
      var n := OpenIsolates(types, k - 1);
      if IsIsoInit(types[k - 1]) then n + 1
      else if types[k - 1].PDI? && n > 0 then n - 1
      else n
  }

  /** Some isolate initiator before k has not been matched before k. */
  predicate InIsolate(types: seq<BidiClass>, k: nat) {
    exists i: nat :: i < k && OpenUntil(types, i, k)
  }

  lemma {:induction false} OpenRaisesCount(types: seq<BidiClass>, i: nat, k: nat)
    requires OpenUntil(types, i, k)
    ensures OpenIsolates(types, k) >= OpenIsolates(types, i) + Nesting(types, i, k)
    decreases k
  {
    assert Nesting(types, i, i) == 0;
    if k > i + 1 {
      OpenRaisesCount(types, i, k - 1);
    }
  }

  /** Where the isolate that makes the counter positive begins. */
  lemma {:induction false} OpenerOf(types: seq<BidiClass>, k: nat) returns (i: nat)
    requires k <= |types| && OpenIsolates(types, k) > 0
    ensures i < k && OpenUntil(types, i, k) && OpenIsolates(types, i) == 0
    ensures Nesting(types, i, k) == OpenIsolates(types, k)
    decreases k
  {
    if OpenIsolates(types, k - 1) == 0 {
      i := k - 1;
      assert Nesting(types, i, i) == 0;
    } else {
      i := OpenerOf(types, k - 1);
    }
  }

  /** The counter is positive exactly inside isolates. */
  lemma CountIsInside(types: seq<BidiClass>, k: nat)
    requires k <= |types|
    ensures OpenIsolates(types, k) > 0 <==> InIsolate(types, k)
  {
    if OpenIsolates(types, k) > 0 {
      var i := OpenerOf(types, k);
    }
    if InIsolate(types, k) {
      var i: nat :| i < k && OpenUntil(types, i, k);
      OpenRaisesCount(types, i, k);
    }
  }

  /** Rule P2: character p is strong and not inside an isolate. */
  predicate Decides(types: seq<BidiClass>, p: nat) {
    p < |types| && IsStrong(types[p]) && !InIsolate(types, p)
  }

  predicate DecidesFirst(types: seq<BidiClass>, p: nat) {
    Decides(types, p) && forall q: nat :: q < p ==> !Decides(types, q)
  }

  function LevelOfDirection(d: Direction): Level {
    if d == LTR then 0 else 1
  }

  lemma {:induction false} ScanIs(types: seq<BidiClass>, k: nat, fallback: Direction, p: nat)
    requires k <= p <= |types| && (p < |types| ==> Decides(types, p))
    requires forall q: nat :: k <= q < p ==> !Decides(types, q)
    ensures ScanLevel(types[k..], OpenIsolates(types, k), false, fallback)
         == if p == |types| then LevelOfDirection(fallback) else if types[p].L? then 0 else 1
    decreases |types| - k
  {
    if k < |types| {
      assert types[k..][0] == types[k] && types[k..][1..] == types[k + 1..];
      CountIsInside(types, k);
      if k < p {
        assert !Decides(types, k);
        ScanIs(types, k + 1, fallback, p);
      }
    }
  }

  /** P2 and P3: the paragraph level is that of the first strong character outside all isolates,
      and the fallback if there is none. */
  lemma ParagraphLevelIsP2(types: seq<BidiClass>, fallback: Direction)
    ensures forall p: nat :: DecidesFirst(types, p) ==>
      ParagraphLevel(types, false, fallback) == if types[p].L? then 0 else 1
    ensures (forall p: nat :: !Decides(types, p)) ==>
      ParagraphLevel(types, false, fallback) == LevelOfDirection(fallback)
  {
    assert types[0..] == types;
    forall p: nat | DecidesFirst(types, p)
      ensures ParagraphLevel(types, false, fallback) == if types[p].L? then 0 else 1
    {
      ScanIs(types, 0, fallback, p);
    }
    if forall p: nat :: !Decides(types, p) {
      ScanIs(types, 0, fallback, |types|);
    }
  }

  /** A PDI that closes nothing. */
  predicate IsLonePdi(types: seq<BidiClass>, k: nat) {
    k < |types| && types[k].PDI? && OpenIsolates(types, k) == 0
  }

  lemma {:induction false} PrefixCount(types: seq<BidiClass>, m: nat, k: nat)
    requires k <= m <= |types|
    ensures OpenIsolates(types[..m], k) == OpenIsolates(types, k)
    decreases k
  {
    if k > 0 {
      PrefixCount(types, m, k - 1);
    }
  }

  lemma {:induction false} ScanStops(types: seq<BidiClass>, m: nat, k: nat, fallback: Direction)
    requires k <= m <= |types| && (m < |types| ==> IsLonePdi(types, m))
    requires forall q: nat :: k <= q < m ==> !IsLonePdi(types, q)
    ensures ScanLevel(types[k..], OpenIsolates(types, k), true, fallback)
         == ScanLevel(types[..m][k..], OpenIsolates(types[..m], k), false, fallback)
    decreases m - k
  {
    PrefixCount(types, m, k);
    if k < m {
      var front := types[..m];
      assert types[k..][1..] == types[k + 1..] && front[k..][1..] == front[k + 1..];
      assert front[k] == types[k] && !IsLonePdi(types, k);
      PrefixCount(types, m, k + 1);
      ScanStops(types, m, k + 1, fallback);
    }
  }

  /** Inside a matched isolate the counter that starts after its initiator is one less than the
      nesting. */
  lemma {:induction false} CountAfterInitiator(types: seq<BidiClass>, i: nat, k: nat)
    requires OpenUntil(types, i, k)
    ensures OpenIsolates(types[i + 1..], k - i - 1) == Nesting(types, i, k) - 1
    decreases k
  {
    assert Nesting(types, i, i) == 0;
    if k > i + 1 {
      CountAfterInitiator(types, i, k - 1);
      assert types[i + 1..][k - i - 2] == types[k - 1];
    }
  }

  lemma ScanUpTo(types: seq<BidiClass>, i: nat, j: nat)
    requires OpenUntil(types, i, j)
    requires j < |types| ==> Matches(types, i, j)
    ensures ParagraphLevel(types[i + 1..], true, LTR) == ParagraphLevel(types[i + 1..j], false, LTR)
  {
    var inner, m := types[i + 1..], j - i - 1;
    forall q: nat | q < m
      ensures !IsLonePdi(inner, q)
    {
      OpenUntilPrefix(types, i, q + i + 1, j);
      OpenUntilPrefix(types, i, q + i + 2, j);
      CountAfterInitiator(types, i, q + i + 1);
      assert inner[q] == types[q + i + 1];
    }
    if j < |types| {
      CountAfterInitiator(types, i, j);
      assert inner[m] == types[j];
    }
    ScanStops(inner, m, 0, LTR);
    assert inner[0..] == inner && inner[..m][0..] == inner[..m] == types[i + 1..j];
  }

  /** X5c: an FSI opens a right-to-left isolate exactly if P2 and P3, applied to the characters
      between it and its matching PDI (or the end, if it has none), give level 1. */
  lemma FirstStrongIsolate(types: seq<BidiClass>, i: nat, j: nat)
    requires i < |types| && types[i].FSI? && OpenUntil(types, i, j)
    requires j < |types| ==> Matches(types, i, j)
    ensures OpensOdd(types, i) <==> ParagraphLevel(types[i + 1..j], false, LTR) == 1
  {
    ScanUpTo(types, i, j);
  }
}
