/** Rule L2: the visual order of one line. */
module LineOrder {
  import opened Wrappers
  import opened BidiTypes

  /** Placeholder for a position whose character was removed by X9. */
  const DELETED: int := -1

  // ----- the closed form of L2 -----

  /** The least level among the characters i..j that are not removed. */
  function MinLevel(levels: seq<Level>, i: nat, j: nat): Level
    requires i <= j < |levels| && levels[i] != NO_LEVEL
    decreases j
  {
    if i == j then levels[i]
    else
      var m := MinLevel(levels, i, j - 1);
      if levels[j] != NO_LEVEL && levels[j] < m then levels[j] else m
  }

  /** Whether two characters end up in logical order once the levels from k upwards have
      been reversed: each reversal of a stretch containing both turns them round. */
  predicate InOrder(levels: seq<Level>, k: Level, i: nat, j: nat)
    requires i <= j < |levels| && levels[i] != NO_LEVEL
  {
    var m := MinLevel(levels, i, j);
    m < k || (m - k) % 2 == 1
  }

  predicate Shown(levels: seq<Level>, v: int) {
    0 <= v < |levels| && levels[v] != NO_LEVEL
  }

  /** Positions p and q of a visual order agree with the reversals from k upwards. */
  predicate AgreesAt(levels: seq<Level>, k: Level, visual: seq<int>, p: nat, q: nat)
    requires p < q < |visual|
  {
    Shown(levels, visual[p]) && Shown(levels, visual[q]) ==>
      && visual[p] != visual[q]
      && (visual[p] < visual[q] <==>
            InOrder(levels, k, if visual[p] < visual[q] then visual[p] else visual[q],
                    if visual[p] < visual[q] then visual[q] else visual[p]))
  }

  lemma {:induction false} MinLevelIs(levels: seq<Level>, i: nat, j: nat)
    requires i <= j < |levels| && levels[i] != NO_LEVEL
    ensures forall c :: i <= c <= j && levels[c] != NO_LEVEL ==> MinLevel(levels, i, j) <= levels[c]
    ensures exists c :: i <= c <= j && levels[c] != NO_LEVEL && MinLevel(levels, i, j) == levels[c]
    decreases j
  {
    if i < j {
      MinLevelIs(levels, i, j - 1);
    }
  }

  // ----- one pass: reversing every stretch at level k or higher -----

  /** All characters from a to b that are not removed have at least level k. */
  predicate AllFrom(levels: seq<Level>, k: Level, a: int, b: int) {
    forall c :: a <= c <= b && 0 <= c < |levels| && levels[c] != NO_LEVEL ==> levels[c] >= k
  }

  /** Position p may hold character v: they are the same, or they lie in one stretch at
      level k or higher, which begins with character f. */
  predicate Linked(levels: seq<Level>, k: Level, p: int, v: int) {
    p == v || exists f :: 0 <= f <= p && f <= v && Shown(levels, f) && AllFrom(levels, k, f, p) && AllFrom(levels, k, f, v)
  }

  predicate EntryAt(levels: seq<Level>, visual: seq<int>, p: nat)
    requires p < |visual|
  {
    visual[p] == DELETED || Shown(levels, visual[p])
  }

  predicate DistinctAt(visual: seq<int>, p: nat, q: nat)
    requires p < q < |visual|
  {
    visual[p] != DELETED ==> visual[p] != visual[q]
  }

  predicate Occurs(visual: seq<int>, v: int) {
    v in visual
  }

  /** A visual order of the line: a permutation of its characters and holes. */
  ghost predicate Arranges(levels: seq<Level>, visual: seq<int>) {
    && |visual| == |levels|
    && (forall p {:trigger EntryAt(levels, visual, p)} :: 0 <= p < |visual| ==> EntryAt(levels, visual, p))
    && (forall p, q {:trigger DistinctAt(visual, p, q)} :: 0 <= p < q < |visual| ==> DistinctAt(visual, p, q))
    && (forall v {:trigger Occurs(visual, v)} :: Shown(levels, v) ==> Occurs(visual, v))
  }

  predicate HoldsAt(levels: seq<Level>, k: Level, visual: seq<int>, p: nat)
    requires p < |visual|
  {
    visual[p] != DELETED ==> Shown(levels, visual[p]) && Linked(levels, k, p, visual[p])
  }

  /** The positions lo..hi have been reversed from level k upwards. */
  ghost predicate Part(levels: seq<Level>, k: Level, visual: seq<int>, lo: nat, hi: nat)
    requires hi <= |visual|
  {
    && (forall p {:trigger HoldsAt(levels, k, visual, p)} :: lo <= p < hi ==> HoldsAt(levels, k, visual, p))
    && (forall p, q {:trigger AgreesAt(levels, k, visual, p, q)} :: lo <= p < q < hi ==> AgreesAt(levels, k, visual, p, q))
  }

  /** Everything before s has been reversed from level k upwards, everything from s on only
      from the next level upwards. */
  ghost predicate Reversed(levels: seq<Level>, k: Level, above: Level, s: nat, visual: seq<int>) {
    && above == k + 1 && 0 <= k && s <= |levels|
    && Arranges(levels, visual)
    && Part(levels, k, visual, 0, s)
    && Part(levels, above, visual, s, |visual|)
  }

  /** Position s begins the line or follows a character below level k. */
  predicate Boundary(levels: seq<Level>, k: Level, s: nat) {
    s == 0 || (s <= |levels| && levels[s - 1] != NO_LEVEL && levels[s - 1] < k)
  }

  lemma LinkedWeaker(levels: seq<Level>, k: Level, above: Level, p: int, v: int)
    requires Linked(levels, above, p, v) && k <= above
    ensures Linked(levels, k, p, v)
  {
    if p != v {
      var f :| 0 <= f <= p && f <= v && Shown(levels, f) && AllFrom(levels, above, f, p) && AllFrom(levels, above, f, v);
      assert AllFrom(levels, k, f, p) && AllFrom(levels, k, f, v);
    }
  }

  /** No character crosses a boundary. */
  lemma StaysOnSide(levels: seq<Level>, k: Level, p: int, v: int, s: nat)
    requires Linked(levels, k, p, v) && Boundary(levels, k, s) && 0 <= p && 0 <= v
    ensures p < s <==> v < s
  {
  }

  /** A pair on two sides of a boundary is in logical order. */
  lemma AcrossBoundary(levels: seq<Level>, k: Level, i: nat, j: nat, s: nat)
    requires Boundary(levels, k, s) && 0 < s && i < s <= j + 1 <= |levels| && i <= j && levels[i] != NO_LEVEL
    ensures InOrder(levels, k, i, j)
  {
    MinLevelIs(levels, i, j);
    assert levels[s - 1] < k;
  }

  function ReverseRange(visual: seq<int>, first: nat, last: nat): (r: seq<int>)
    requires first <= last < |visual|
    ensures |r| == |visual|
    ensures forall p :: 0 <= p < |visual| ==> r[p] == if first <= p <= last then visual[first + last - p] else visual[p]
  {
    seq(|visual|, p requires 0 <= p < |visual| => if first <= p <= last then visual[first + last - p] else visual[p])
  }

  /** The stretch s..i holds only holes up to `first` and nothing below level k, and ends at
      a character below k or at the end of the line. */
  predicate Stretch(levels: seq<Level>, k: Level, s: nat, first: nat, i: nat) {
    && s <= first <= i <= |levels|
    && Boundary(levels, k, s)
    && (i < |levels| ==> levels[i] != NO_LEVEL && levels[i] < k)
    && (forall c :: s <= c < first ==> levels[c] == NO_LEVEL)
    && (first < i ==> levels[first] >= k && levels[first] != NO_LEVEL)
    && AllFrom(levels, k, s, i - 1)
  }

  /** What the positions of a stretch can hold before it is reversed. */
  lemma StretchHolds(levels: seq<Level>, k: Level, above: Level, s: nat, first: nat, i: nat, visual: seq<int>, p: nat)
    requires above == k + 1 && Stretch(levels, k, s, first, i)
    requires s <= p <= i && p < |visual| == |levels| && visual[p] != DELETED && HoldsAt(levels, above, visual, p)
    ensures if p == i then visual[p] == i else first <= p && first <= visual[p] < i
  {
    var v := visual[p];
    LinkedWeaker(levels, k, above, p, v);
    StaysOnSide(levels, k, p, v, s);
    if p != v {
      var f :| 0 <= f <= p && f <= v && Shown(levels, f) && AllFrom(levels, above, f, p) && AllFrom(levels, above, f, v);
      assert s <= f;
    }
  }

  function After(levels: seq<Level>, i: nat): nat
    requires i <= |levels|
  {
    if i < |levels| then i + 1 else i
  }

  /** Where the entry at p comes from when first..i is reversed, or left alone. */
  function Source(first: nat, i: nat, flip: bool, p: nat): nat {
    if flip && first <= p < i then first + (i - 1) - p else p
  }

  /** The outcome of a stretch: reversed from `first` on, or left alone when `first` is its
      only character. */
  predicate Outcome(levels: seq<Level>, first: nat, i: nat, flip: bool, visual: seq<int>, after: seq<int>) {
    && first <= i <= |visual| == |levels|
    && (flip ==> first < i)
    && after == (if flip then ReverseRange(visual, first, i - 1) else visual)
    && (!flip ==> forall c :: first < c < i ==> levels[c] == NO_LEVEL)
  }

  /** The character that position p of a stretch shows afterwards. */
  lemma OutcomeHolds(levels: seq<Level>, k: Level, above: Level, s: nat, first: nat, i: nat, flip: bool,
                     visual: seq<int>, after: seq<int>, p: nat)
    requires above == k + 1 && Stretch(levels, k, s, first, i) && Outcome(levels, first, i, flip, visual, after)
    requires Part(levels, above, visual, s, |visual|)
    requires s <= p <= i && p < |after| && after[p] != DELETED
    ensures Shown(levels, after[p]) && after[p] == visual[Source(first, i, flip, p)]
    ensures if p == i then after[p] == i else first <= p && first <= after[p] < i
  {
    var p' := Source(first, i, flip, p);
    assert HoldsAt(levels, above, visual, p');
    StretchHolds(levels, k, above, s, first, i, visual, p');
  }

  lemma OutcomeLinks(levels: seq<Level>, k: Level, above: Level, s: nat, first: nat, i: nat, flip: bool,
                     visual: seq<int>, after: seq<int>, p: nat)
    requires Reversed(levels, k, above, s, visual) && Stretch(levels, k, s, first, i)
    requires Outcome(levels, first, i, flip, visual, after) && p < |after|
    ensures HoldsAt(levels, if p < After(levels, i) then k else above, after, p)
  {
    if after[p] != DELETED {
      if p < s || p >= After(levels, i) {
        assert after[p] == visual[p];
        assert HoldsAt(levels, if p < s then k else above, visual, p);
      } else {
        OutcomeHolds(levels, k, above, s, first, i, flip, visual, after, p);
        if p < i {
          assert AllFrom(levels, k, first, p) && AllFrom(levels, k, first, after[p]);
        }
      }
    }
  }

  lemma InOrderFlips(levels: seq<Level>, k: Level, i: nat, j: nat)
    requires i <= j < |levels| && levels[i] != NO_LEVEL && AllFrom(levels, k, i, j)
    ensures InOrder(levels, k, i, j) <==> !InOrder(levels, k + 1, i, j)
  {
    MinLevelIs(levels, i, j);
  }

  /** Two positions of one stretch agree with the reversals from k upwards. */
  lemma AgreesInside(levels: seq<Level>, k: Level, above: Level, s: nat, first: nat, i: nat, flip: bool,
                     visual: seq<int>, after: seq<int>, p: nat, q: nat)
    requires Reversed(levels, k, above, s, visual) && Stretch(levels, k, s, first, i)
    requires Outcome(levels, first, i, flip, visual, after) && s <= p < q < i
    ensures AgreesAt(levels, k, after, p, q)
  {
    assert !flip ==> DistinctAt(visual, p, q);
    if Shown(levels, after[p]) && Shown(levels, after[q]) {
      OutcomeHolds(levels, k, above, s, first, i, flip, visual, after, p);
      OutcomeHolds(levels, k, above, s, first, i, flip, visual, after, q);
      if flip {
        assert AgreesAt(levels, above, visual, Source(first, i, flip, q), Source(first, i, flip, p));
        var lo := if after[p] < after[q] then after[p] else after[q];
        var hi := if after[p] < after[q] then after[q] else after[p];
        InOrderFlips(levels, k, lo, hi);
      }
    }
  }

  lemma OutcomeAgrees(levels: seq<Level>, k: Level, above: Level, s: nat, first: nat, i: nat, flip: bool,
                      visual: seq<int>, after: seq<int>, p: nat, q: nat)
    requires Reversed(levels, k, above, s, visual) && Stretch(levels, k, s, first, i)
    requires Outcome(levels, first, i, flip, visual, after) && p < q < After(levels, i)
    ensures AgreesAt(levels, k, after, p, q)
  {
    if q < s {
      assert after[p] == visual[p] && after[q] == visual[q];
      assert AgreesAt(levels, k, visual, p, q);
    } else if s <= p && q < i {
      AgreesInside(levels, k, above, s, first, i, flip, visual, after, p, q);
    } else if Shown(levels, after[p]) && Shown(levels, after[q]) {
      OutcomeHolds(levels, k, above, s, first, i, flip, visual, after, q);
      if p < s {
        assert after[p] == visual[p] && HoldsAt(levels, k, visual, p);
        StaysOnSide(levels, k, p, after[p], s);
        AcrossBoundary(levels, k, after[p], after[q], s);
      } else {
        OutcomeHolds(levels, k, above, s, first, i, flip, visual, after, p);
        AcrossBoundary(levels, k, after[p], after[q], i + 1);
      }
    }
  }

  lemma OutcomeBefore(levels: seq<Level>, k: Level, above: Level, s: nat, first: nat, i: nat, flip: bool,
                      visual: seq<int>, after: seq<int>)
    requires Reversed(levels, k, above, s, visual) && Stretch(levels, k, s, first, i)
    requires Outcome(levels, first, i, flip, visual, after)
    ensures Part(levels, k, after, 0, After(levels, i))
  {
    forall p | 0 <= p < After(levels, i) ensures HoldsAt(levels, k, after, p) {
      OutcomeLinks(levels, k, above, s, first, i, flip, visual, after, p);
    }
    forall p, q | 0 <= p < q < After(levels, i) ensures AgreesAt(levels, k, after, p, q) {
      OutcomeAgrees(levels, k, above, s, first, i, flip, visual, after, p, q);
    }
  }

  lemma OutcomeBehind(levels: seq<Level>, above: Level, s: nat, e: nat, visual: seq<int>, after: seq<int>)
    requires |after| == |visual| == |levels| && s <= e <= |visual|
    requires forall p :: e <= p < |visual| ==> after[p] == visual[p]
    requires Part(levels, above, visual, s, |visual|)
    ensures Part(levels, above, after, e, |after|)
  {
    forall p | e <= p < |after| ensures HoldsAt(levels, above, after, p) {
      assert HoldsAt(levels, above, visual, p);
    }
    forall p, q | e <= p < q < |after| ensures AgreesAt(levels, above, after, p, q) {
      assert AgreesAt(levels, above, visual, p, q);
    }
  }

  lemma OutcomeArranges(levels: seq<Level>, first: nat, i: nat, flip: bool, visual: seq<int>, after: seq<int>)
    requires Arranges(levels, visual) && Outcome(levels, first, i, flip, visual, after)
    ensures Arranges(levels, after)
  {
    forall p | 0 <= p < |after| ensures EntryAt(levels, after, p) {
      assert EntryAt(levels, visual, Source(first, i, flip, p));
    }
    forall p, q | 0 <= p < q < |after| ensures DistinctAt(after, p, q) {
      var p', q' := Source(first, i, flip, p), Source(first, i, flip, q);
      assert DistinctAt(visual, if p' < q' then p' else q', if p' < q' then q' else p');
    }
    forall v | Shown(levels, v) ensures Occurs(after, v) {
      assert Occurs(visual, v);
      var p :| 0 <= p < |visual| && visual[p] == v;
      assert after[Source(first, i, flip, p)] == v;
    }
  }

  /** Closing a stretch moves the boundary behind it. */
  lemma StretchCloses(levels: seq<Level>, k: Level, above: Level, s: nat, first: nat, i: nat, flip: bool,
                      visual: seq<int>, after: seq<int>)
    requires Reversed(levels, k, above, s, visual) && Stretch(levels, k, s, first, i)
    requires Outcome(levels, first, i, flip, visual, after)
    ensures Reversed(levels, k, above, After(levels, i), after)
  {
    OutcomeBefore(levels, k, above, s, first, i, flip, visual, after);
    OutcomeBehind(levels, above, s, After(levels, i), visual, after);
    OutcomeArranges(levels, first, i, flip, visual, after);
  }

  // ----- the whole rule -----

  /** The lowest odd level of the line; MAX_DEPTH + 1 when there is none. */
  function LowestOdd(levels: seq<Level>): Level {
    if levels == [] then MAX_DEPTH + 1
    else
      var rest, l := LowestOdd(levels[..|levels| - 1]), levels[|levels| - 1];
      if l != NO_LEVEL && IsOdd(l) && l < rest then l else rest
  }

  function HighestLevel(levels: seq<Level>): Level {
    if levels == [] then 0
    else
      var rest, l := HighestLevel(levels[..|levels| - 1]), levels[|levels| - 1];
      if l != NO_LEVEL && rest < l then l else rest
  }

  lemma {:induction false} LowestOddIs(levels: seq<Level>)
    ensures forall c :: 0 <= c < |levels| && levels[c] != NO_LEVEL && IsOdd(levels[c]) ==> LowestOdd(levels) <= levels[c]
    ensures LowestOdd(levels) == MAX_DEPTH + 1 ||
            (IsOdd(LowestOdd(levels)) && LowestOdd(levels) < MAX_DEPTH + 1 &&
             exists c :: 0 <= c < |levels| && levels[c] == LowestOdd(levels))
  {
    if levels != [] {
      var front, last := levels[..|levels| - 1], |levels| - 1;
      LowestOddIs(front);
      assert forall c :: 0 <= c < last ==> front[c] == levels[c];
      if LowestOdd(levels) != LowestOdd(front) {
        assert levels[last] == LowestOdd(levels);
      }
    }
  }

  lemma {:induction false} HighestLevelIs(levels: seq<Level>)
    ensures 0 <= HighestLevel(levels)
    ensures forall c :: 0 <= c < |levels| && levels[c] != NO_LEVEL ==> levels[c] <= HighestLevel(levels)
  {
    if levels != [] {
      var front := levels[..|levels| - 1];
      HighestLevelIs(front);
      assert forall c :: 0 <= c < |levels| - 1 ==> front[c] == levels[c];
    }
  }

  /** An entry counted from the start of the line; one from before it is no character. */
  function RelativeEntry(entry: int, offset: nat): int {
    if entry == DELETED then DELETED
    else if entry < offset then DELETED - 1
    else entry - offset
  }

  /** A visual order with the position of the line in the paragraph taken off again. */
  function Relative(visual: seq<int>, offset: nat): (r: seq<int>)
    ensures |r| == |visual|
  {
    seq(|visual|, p requires 0 <= p < |visual| => RelativeEntry(visual[p], offset))
  }

  lemma RelativeReverses(visual: seq<int>, offset: nat, first: nat, last: nat)
    requires first <= last < |visual|
    ensures Relative(ReverseRange(visual, first, last), offset) == ReverseRange(Relative(visual, offset), first, last)
  {
  }

  /** In-place reversal of the entries first..=last. */
  method ReverseInPlace(visual: seq<int>, first: nat, last: nat) returns (r: seq<int>)
    requires first <= last < |visual|
    ensures r == ReverseRange(visual, first, last)
  {
    r := visual;
    var a, b := first, last;
    while a < b
      invariant first <= a && b <= last && a + b == first + last && a <= b + 1 && |r| == |visual|
      invariant forall p :: first <= p < a || b < p <= last ==> r[p] == visual[first + last - p]
      invariant forall p :: 0 <= p < first || a <= p <= b || last < p < |r| ==> r[p] == visual[p]
    {
      var front, back := r[a], r[b];
      r := r[a := back];
      r := r[b := front];
      a, b := a + 1, b - 1;
    }
  }

  /** The state of the scan at position i: s follows the last boundary and `first` is the
      first character since, if there was one. */
  predicate Scanning(levels: seq<Level>, k: Level, s: nat, first: nat, i: nat, inRange: bool,
                     significantRange: bool, firstPos: Option<nat>, lastPos: Option<nat>) {
    && s <= first <= i <= |levels| && Boundary(levels, k, s)
    && (forall c :: s <= c < first ==> levels[c] == NO_LEVEL)
    && (first < i ==> levels[first] >= k && levels[first] != NO_LEVEL)
    && AllFrom(levels, k, s, i - 1)
    && inRange == (first < i)
    && firstPos == (if first < i then Some(first) else None)
    && lastPos == (if first + 1 < i then Some(i - 1) else None)
    && (!significantRange ==> forall c :: first < c < i ==> levels[c] == NO_LEVEL)
  }

  /** What closing a stretch does to the entries. */
  predicate Closed(visual: seq<int>, first: nat, i: nat, flip: bool, r: seq<int>) {
    && first <= i <= |visual| && (flip ==> first < i)
    && r == if flip then ReverseRange(visual, first, i - 1) else visual
  }

  /** The end of a stretch: reverse it if the flags say so. */
  method CloseStretch(visual: seq<int>, significantRange: bool, firstPos: Option<nat>, lastPos: Option<nat>,
                      ghost first: nat, ghost i: nat)
    returns (r: seq<int>, ghost flip: bool)
    requires first <= i <= |visual|
    requires firstPos == (if first < i then Some(first) else None)
    requires lastPos == (if first + 1 < i then Some(i - 1) else None)
    ensures flip == (significantRange && first + 1 < i)
    ensures Closed(visual, first, i, flip, r)
  {
    flip := firstPos.Some? && lastPos.Some? && significantRange && lastPos.value > firstPos.value;
    match (lastPos, firstPos, significantRange)
    case (Some(last), Some(first), true) =>
      if last > first {
        r := ReverseInPlace(visual, first, last);
      } else {
        r := visual;
      }
    case _ => r := visual;
  }

  lemma ClosedIsOutcome(levels: seq<Level>, first: nat, i: nat, visual: seq<int>, r: seq<int>, flip: bool, offset: nat)
    requires |visual| == |levels| && Closed(visual, first, i, flip, r)
    requires !flip ==> forall c :: first < c < i ==> levels[c] == NO_LEVEL
    ensures Outcome(levels, first, i, flip, Relative(visual, offset), Relative(r, offset))
  {
    if flip {
      RelativeReverses(visual, offset, first, i - 1);
    }
  }

  lemma ClosingReverses(levels: seq<Level>, k: Level, above: Level, s: nat, first: nat, i: nat, inRange: bool,
                        significantRange: bool, firstPos: Option<nat>, lastPos: Option<nat>,
                        visual: seq<int>, r: seq<int>, flip: bool, offset: nat)
    requires Reversed(levels, k, above, s, Relative(visual, offset)) && |visual| == |levels|
    requires Scanning(levels, k, s, first, i, inRange, significantRange, firstPos, lastPos)
    requires i < |levels| ==> levels[i] != NO_LEVEL && levels[i] < k
    requires flip == (significantRange && first + 1 < i) && Closed(visual, first, i, flip, r)
    ensures Reversed(levels, k, above, After(levels, i), Relative(r, offset))
  {
    ClosedIsOutcome(levels, first, i, visual, r, flip, offset);
    StretchCloses(levels, k, above, s, first, i, flip, Relative(visual, offset), Relative(r, offset));
  }

  /** One level of L2: the scan of the source with its two flags, one of which is never
      reset between stretches, and its holes. */
  method ReverseRunsAt(levels: seq<Level>, k: Level, visual: seq<int>, ghost offset: nat) returns (r: seq<int>)
    requires 1 <= k && Reversed(levels, k, k + 1, 0, Relative(visual, offset))
    ensures Reversed(levels, k, k + 1, |levels|, Relative(r, offset))
  {
    r := visual;
    var i := 0;
    var inRange, significantRange := false, false;
    var firstPos: Option<nat>, lastPos: Option<nat> := None, None;
    ghost var s, first := 0, 0;
    while i < |levels|
      invariant Scanning(levels, k, s, first, i, inRange, significantRange, firstPos, lastPos)
      invariant |r| == |levels|
      invariant Reversed(levels, k, k + 1, s, Relative(r, offset))
    {
      if levels[i] >= k {
        if !inRange {
          inRange := true;
          firstPos := Some(i);
        } else {
          significantRange := true;
          lastPos := Some(i);
        }
      } else if levels[i] == NO_LEVEL {
        if inRange {
          lastPos := Some(i);
        } else {
          first := i + 1;
        }
      } else {
        ghost var before := r;
        ghost var flip;
        r, flip := CloseStretch(r, significantRange, firstPos, lastPos, first, i);
        ClosingReverses(levels, k, k + 1, s, first, i, inRange, significantRange, firstPos, lastPos, before, r, flip, offset);
        inRange := false;
        firstPos, lastPos := None, None;
        s, first := i + 1, i + 1;
      }
      i := i + 1;
    }
    ghost var before := r;
    ghost var flip := false;
    if inRange && significantRange {
      r, flip := CloseStretch(r, significantRange, firstPos, lastPos, first, i);
    }
    ClosingReverses(levels, k, k + 1, s, first, i, inRange, significantRange, firstPos, lastPos, before, r, flip, offset);
  }

  // ----- the result without its holes -----

  /** The entries that are not DELETED. */
  function Retain(visual: seq<int>): seq<int> {
    if visual == [] then []
    else
      var last := |visual| - 1;
      Retain(visual[..last]) + if visual[last] == DELETED then [] else [visual[last]]
  }

  lemma {:induction false} RetainHas(visual: seq<int>, v: int)
    requires v != DELETED
    ensures v in Retain(visual) <==> v in visual
  {
    if visual != [] {
      var last := |visual| - 1;
      RetainHas(visual[..last], v);
      assert visual == visual[..last] + [visual[last]];
    }
  }

  lemma {:induction false} RetainAt(visual: seq<int>, p: nat) returns (p': nat)
    requires p < |Retain(visual)|
    ensures p' < |visual| && visual[p'] == Retain(visual)[p] != DELETED
    ensures |Retain(visual[..p'])| == p
  {
    var last := |visual| - 1;
    if p < |Retain(visual[..last])| {
      p' := RetainAt(visual[..last], p);
      assert visual[..last][..p'] == visual[..p'];
    } else {
      p' := last;
    }
  }

  lemma {:induction false} RetainGrows(visual: seq<int>, a: nat, b: nat)
    requires a <= b <= |visual|
    ensures |Retain(visual[..a])| <= |Retain(visual[..b])|
  {
    if a < b {
      RetainGrows(visual, a, b - 1);
      assert visual[..b][..b - 1] == visual[..b - 1];
    }
  }

  lemma RetainPair(visual: seq<int>, p: nat, q: nat) returns (p': nat, q': nat)
    requires p < q < |Retain(visual)|
    ensures p' < q' < |visual|
    ensures visual[p'] == Retain(visual)[p] != DELETED && visual[q'] == Retain(visual)[q] != DELETED
  {
    p' := RetainAt(visual, p);
    q' := RetainAt(visual, q);
    if q' <= p' {
      RetainGrows(visual, q', p');
    }
  }

  predicate ItemAt(levels: seq<Level>, offset: nat, order: seq<int>, p: nat)
    requires p < |order|
  {
    Shown(levels, order[p] - offset)
  }

  predicate ApartAt(order: seq<int>, p: nat, q: nat)
    requires p < q < |order|
  {
    order[p] != order[q]
  }

  /** A display order of the line: every character that is not removed occurs exactly once,
      as its position in the paragraph. */
  ghost predicate IsDisplayOrder(levels: seq<Level>, offset: nat, order: seq<int>) {
    && (forall p {:trigger ItemAt(levels, offset, order, p)} :: 0 <= p < |order| ==> ItemAt(levels, offset, order, p))
    && (forall p, q {:trigger ApartAt(order, p, q)} :: 0 <= p < q < |order| ==> ApartAt(order, p, q))
    && (forall v {:trigger Shown(levels, v)} :: Shown(levels, v) ==> Occurs(order, v + offset))
  }

  /** Positions p < q of an order agree with the reversals from level k upwards. */
  predicate OrderAgrees(levels: seq<Level>, k: Level, offset: nat, order: seq<int>, p: nat, q: nat)
    requires p < q < |order|
  {
    ItemAt(levels, offset, order, p) && ItemAt(levels, offset, order, q) &&
    if order[p] < order[q] then InOrder(levels, k, order[p] - offset, order[q] - offset)
    else !InOrder(levels, k, order[q] - offset, order[p] - offset)
  }

  ghost predicate FollowsReversals(levels: seq<Level>, k: Level, offset: nat, order: seq<int>) {
    && IsDisplayOrder(levels, offset, order)
    && forall p, q {:trigger OrderAgrees(levels, k, offset, order, p, q)} ::
         0 <= p < q < |order| ==> OrderAgrees(levels, k, offset, order, p, q)
  }

  lemma RetainedIsOrder(levels: seq<Level>, visual: seq<int>, offset: nat)
    requires Arranges(levels, Relative(visual, offset))
    ensures IsDisplayOrder(levels, offset, Retain(visual))
  {
    var order, rel := Retain(visual), Relative(visual, offset);
    forall p | 0 <= p < |order| ensures ItemAt(levels, offset, order, p) {
      var p' := RetainAt(visual, p);
      assert EntryAt(levels, rel, p');
      assert rel[p'] == order[p] - offset;
    }
    forall p, q | 0 <= p < q < |order| ensures ApartAt(order, p, q) {
      var p', q' := RetainPair(visual, p, q);
      assert DistinctAt(rel, p', q');
    }
    forall v | Shown(levels, v) ensures Occurs(order, v + offset) {
      assert Occurs(rel, v);
      var p :| 0 <= p < |rel| && rel[p] == v;
      assert visual[p] == v + offset;
      RetainHas(visual, v + offset);
    }
  }

  lemma RetainedAgrees(levels: seq<Level>, k: Level, visual: seq<int>, offset: nat, p: nat, q: nat)
    requires Part(levels, k, Relative(visual, offset), 0, |visual|)
    requires Arranges(levels, Relative(visual, offset))
    requires p < q < |Retain(visual)|
    ensures OrderAgrees(levels, k, offset, Retain(visual), p, q)
  {
    var order, rel := Retain(visual), Relative(visual, offset);
    var p', q' := RetainPair(visual, p, q);
    assert EntryAt(levels, rel, p') && EntryAt(levels, rel, q');
    assert rel[p'] == order[p] - offset && rel[q'] == order[q] - offset;
    assert HoldsAt(levels, k, rel, p') && HoldsAt(levels, k, rel, q');
    assert AgreesAt(levels, k, rel, p', q');
  }

  lemma RetainedOrder(levels: seq<Level>, k: Level, visual: seq<int>, offset: nat)
    requires Arranges(levels, Relative(visual, offset))
    requires Part(levels, k, Relative(visual, offset), 0, |visual|)
    ensures FollowsReversals(levels, k, offset, Retain(visual))
  {
    RetainedIsOrder(levels, visual, offset);
    var order := Retain(visual);
    forall p, q | 0 <= p < q < |order| ensures OrderAgrees(levels, k, offset, order, p, q) {
      RetainedAgrees(levels, k, visual, offset, p, q);
    }
  }

  /** The logical order, which no reversal has touched yet. */
  lemma LogicalOrder(levels: seq<Level>, k: Level, visual: seq<int>, offset: nat)
    requires |visual| == |levels| && forall c :: 0 <= c < |levels| && levels[c] != NO_LEVEL ==> levels[c] < k
    requires forall i :: 0 <= i < |levels| ==> visual[i] == if levels[i] == NO_LEVEL then DELETED else i + offset
    ensures Arranges(levels, Relative(visual, offset))
    ensures Part(levels, k, Relative(visual, offset), 0, |visual|)
  {
    var rel := Relative(visual, offset);
    forall v | Shown(levels, v) ensures Occurs(rel, v) {
      assert rel[v] == v;
    }
    forall p, q | 0 <= p < q < |rel| ensures AgreesAt(levels, k, rel, p, q) {
      if Shown(levels, rel[p]) && Shown(levels, rel[q]) {
        MinLevelIs(levels, rel[p], rel[q]);
      }
    }
  }

  lemma InOrderBelow(levels: seq<Level>, high: Level, k: Level, i: nat, j: nat)
    requires i <= j < |levels| && levels[i] != NO_LEVEL && high < k
    requires forall c :: 0 <= c < |levels| && levels[c] != NO_LEVEL ==> levels[c] <= high
    ensures InOrder(levels, k, i, j) && InOrder(levels, high + 1, i, j)
  {
    MinLevelIs(levels, i, j);
  }

  /** Without an entry at level k or above, reversing from k upwards changes nothing. */
  lemma ReversalsBelow(levels: seq<Level>, high: Level, above: Level, k: Level, offset: nat, order: seq<int>)
    requires FollowsReversals(levels, above, offset, order) && above == high + 1 <= k
    requires forall c :: 0 <= c < |levels| && levels[c] != NO_LEVEL ==> levels[c] <= high
    ensures FollowsReversals(levels, k, offset, order)
  {
    forall p, q | 0 <= p < q < |order| ensures OrderAgrees(levels, k, offset, order, p, q) {
      assert OrderAgrees(levels, above, offset, order, p, q);
      assert ApartAt(order, p, q);
      InOrderBelow(levels, high, k, if order[p] < order[q] then order[p] - offset else order[q] - offset,
                                    if order[p] < order[q] then order[q] - offset else order[p] - offset);
    }
  }

  /** The loop of L2 over the levels, from the highest down to the lowest odd one. */
  method ReverseDownTo(levels: seq<Level>, highest: Level, lowest: Level, visual: seq<int>, ghost offset: nat) returns (r: seq<int>)
    requires 1 <= lowest && |visual| == |levels|
    requires Arranges(levels, Relative(visual, offset)) && Part(levels, highest + 1, Relative(visual, offset), 0, |visual|)
    ensures |r| == |levels| && Arranges(levels, Relative(r, offset))
    ensures Part(levels, if lowest <= highest then lowest else highest + 1, Relative(r, offset), 0, |r|)
  {
    r := visual;
    var level := highest;
    while level >= lowest
      invariant lowest - 1 <= level || level == highest
      invariant level <= highest && |r| == |levels|
      invariant Arranges(levels, Relative(r, offset)) && Part(levels, level + 1, Relative(r, offset), 0, |r|)
      decreases level
    {
      r := ReverseRunsAt(levels, level, r, offset);
      level := level - 1;
    }
  }

  /** The first loop: the highest level and the lowest odd one, and whether there is any. */
  method LevelsOfLine(levels: seq<Level>) returns (highest: Level, lowestOdd: Level, noLevels: bool)
    requires forall c :: 0 <= c < |levels| ==> NO_LEVEL <= levels[c]
    ensures highest == HighestLevel(levels) && lowestOdd == LowestOdd(levels)
    ensures noLevels <==> forall c :: 0 <= c < |levels| ==> levels[c] == NO_LEVEL
  {
    highest, lowestOdd, noLevels := 0, MAX_DEPTH + 1, true;
    for i := 0 to |levels|
      invariant highest == HighestLevel(levels[..i]) && lowestOdd == LowestOdd(levels[..i])
      invariant noLevels <==> forall c :: 0 <= c < i ==> levels[c] == NO_LEVEL
    {
      assert levels[..i + 1][..i] == levels[..i];
      if levels[i] != NO_LEVEL {
        noLevels := false;
        highest := if highest >= levels[i] then highest else levels[i];
        if IsOdd(levels[i]) && levels[i] < lowestOdd {
          lowestOdd := levels[i];
        }
      }
    }
    assert levels[..|levels|] == levels;
  }

  /** Rule L2: the display order of a line that begins at `offset` in the paragraph. */
  method ReverseLevels(offset: nat, levels: seq<Level>) returns (order: seq<int>)
    requires forall c :: 0 <= c < |levels| ==> NO_LEVEL <= levels[c]
    ensures FollowsReversals(levels, LowestOdd(levels), offset, order)
  {
    var highest, lowestOdd, noLevels := LevelsOfLine(levels);
    HighestLevelIs(levels);
    LowestOddIs(levels);
    if noLevels {
      return [];
    }
    var visual := [];
    for i := 0 to |levels|
      invariant |visual| == i
      invariant forall c :: 0 <= c < i ==> visual[c] == if levels[c] == NO_LEVEL then DELETED else c + offset
    {
      visual := visual + [if levels[i] == NO_LEVEL then DELETED else i + offset];
    }
    LogicalOrder(levels, highest + 1, visual, offset);
    visual := ReverseDownTo(levels, highest, lowestOdd, visual, offset);
    order := Retain(visual);
    if lowestOdd <= highest {
      RetainedOrder(levels, lowestOdd, visual, offset);
    } else {
      RetainedOrder(levels, highest + 1, visual, offset);
      ReversalsBelow(levels, highest, highest + 1, lowestOdd, offset, order);
    }
  }

  /** The closed form of L2: characters i < j are displayed in this order if and only if the
      least level from i to j is even. */
  predicate PairInClosedForm(levels: seq<Level>, offset: nat, order: seq<int>, p: nat, q: nat)
    requires p < q < |order|
  {
    ItemAt(levels, offset, order, p) && ItemAt(levels, offset, order, q) &&
    if order[p] < order[q] then !IsOdd(MinLevel(levels, order[p] - offset, order[q] - offset))
    else IsOdd(MinLevel(levels, order[q] - offset, order[p] - offset))
  }

  ghost predicate InClosedForm(levels: seq<Level>, offset: nat, order: seq<int>) {
    && IsDisplayOrder(levels, offset, order)
    && forall p, q {:trigger PairInClosedForm(levels, offset, order, p, q)} ::
         0 <= p < q < |order| ==> PairInClosedForm(levels, offset, order, p, q)
  }

  predicate HasOddLevel(levels: seq<Level>) {
    exists c :: 0 <= c < |levels| && levels[c] != NO_LEVEL && IsOdd(levels[c])
  }

  /** Two characters of level MAX_DEPTH + 1 with nothing but removed characters between. */
  predicate HasAdjacentTop(levels: seq<Level>) {
    exists i, j :: 0 <= i < j < |levels| && levels[i] == MAX_DEPTH + 1 && levels[j] == MAX_DEPTH + 1
                   && forall c :: i < c < j ==> levels[c] == NO_LEVEL
  }

  /** The source meets L2 exactly when the line has an odd level or no two neighbouring
      characters of level 126: with neither, its starting value for the lowest odd level
      makes it reverse stretches that L2 leaves alone. */
  lemma ClosedFormExact(levels: seq<Level>, offset: nat, order: seq<int>)
    requires forall c :: 0 <= c < |levels| ==> NO_LEVEL <= levels[c] <= MAX_DEPTH + 1
    requires FollowsReversals(levels, LowestOdd(levels), offset, order)
    ensures InClosedForm(levels, offset, order) <==> HasOddLevel(levels) || !HasAdjacentTop(levels)
  {
    if HasOddLevel(levels) || !HasAdjacentTop(levels) {
      forall p, q | 0 <= p < q < |order| ensures PairInClosedForm(levels, offset, order, p, q) {
        assert OrderAgrees(levels, LowestOdd(levels), offset, order, p, q);
        assert ApartAt(order, p, q);
        ParityOfMin(levels, if order[p] < order[q] then order[p] - offset else order[q] - offset,
                            if order[p] < order[q] then order[q] - offset else order[p] - offset);
      }
    } else {
      LowestOddIs(levels);
      AdjacentTopReversed(levels, LowestOdd(levels), offset, order);
    }
  }

  lemma ParityOfMin(levels: seq<Level>, i: nat, j: nat)
    requires forall c :: 0 <= c < |levels| ==> NO_LEVEL <= levels[c] <= MAX_DEPTH + 1
    requires i < j < |levels| && Shown(levels, i) && Shown(levels, j)
    requires HasOddLevel(levels) || !HasAdjacentTop(levels)
    ensures InOrder(levels, LowestOdd(levels), i, j) <==> !IsOdd(MinLevel(levels, i, j))
  {
    MinLevelIs(levels, i, j);
    LowestOddIs(levels);
    var m := MinLevel(levels, i, j);
    if !HasOddLevel(levels) && m == MAX_DEPTH + 1 {
      TopNeighbours(levels, i, j);
    }
  }

  lemma {:induction false} TopNeighbours(levels: seq<Level>, i: nat, j: nat)
    requires i < j < |levels| && levels[i] == levels[j] == MAX_DEPTH + 1
    requires forall c :: i <= c <= j ==> levels[c] == NO_LEVEL || levels[c] == MAX_DEPTH + 1
    ensures HasAdjacentTop(levels)
    decreases j - i
  {
    if c :| i < c < j && levels[c] != NO_LEVEL {
      TopNeighbours(levels, i, c);
    }
  }

  lemma AdjacentTopReversed(levels: seq<Level>, k: Level, offset: nat, order: seq<int>)
    requires FollowsReversals(levels, k, offset, order) && k == MAX_DEPTH + 1
    requires HasAdjacentTop(levels)
    ensures !InClosedForm(levels, offset, order)
  {
    var i, j :| 0 <= i < j < |levels| && levels[i] == MAX_DEPTH + 1 && levels[j] == MAX_DEPTH + 1
                && forall c :: i < c < j ==> levels[c] == NO_LEVEL;
    MinLevelIs(levels, i, j);
    assert Shown(levels, i) && Shown(levels, j);
    var p :| 0 <= p < |order| && order[p] == i + offset;
    var q :| 0 <= q < |order| && order[q] == j + offset;
    var a, b := if p < q then p else q, if p < q then q else p;
    assert OrderAgrees(levels, k, offset, order, a, b);
    assert !PairInClosedForm(levels, offset, order, a, b);
  }

  /** The closed form leaves no choice: it determines the display order. */
  lemma {:induction false} ClosedFormUnique(levels: seq<Level>, offset: nat, a: seq<int>, b: seq<int>, k: nat)
    requires InClosedForm(levels, offset, a) && InClosedForm(levels, offset, b) && k <= |a|
    ensures k <= |b| && a[..k] == b[..k]
  {
    if k > 0 {
      ClosedFormUnique(levels, offset, a, b, k - 1);
      var n := k - 1;
      var p := PositionFrom(levels, offset, a, b, n);
      assert b[..n] == a[..n] && n < |b|;
      var q := PositionFrom(levels, offset, b, a, n);
      assert n < q ==> PairInClosedForm(levels, offset, a, n, q);
      assert n < p ==> PairInClosedForm(levels, offset, b, n, p);
      assert a[n] == b[n];
      assert a[..k] == a[..n] + [a[n]] && b[..k] == b[..n] + [b[n]];
    }
  }

  /** The next entry of one order has not yet appeared in the other. */
  lemma PositionFrom(levels: seq<Level>, offset: nat, a: seq<int>, b: seq<int>, n: nat) returns (p: nat)
    requires IsDisplayOrder(levels, offset, a) && IsDisplayOrder(levels, offset, b)
    requires n < |a| && n <= |b| && a[..n] == b[..n]
    ensures n <= p < |b| && b[p] == a[n]
  {
    assert ItemAt(levels, offset, a, n);
    assert Occurs(b, a[n] - offset + offset);
    assert forall x :: 0 <= x < n ==> a[x] == a[..n][x] == b[..n][x] == b[x];
    p :| 0 <= p < |b| && b[p] == a[n];
    assert p < n ==> ApartAt(a, p, n);
  }
}
