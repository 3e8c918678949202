/** The runs of a line in display order. */
module ReorderedRuns {

  import opened Sequences
  import opened Wrappers
  import opened BidiTypes
  import opened LineOrder
  import opened LineLevels

  datatype ReorderedRun = ReorderedRun(direction: Direction, level: Level, start: int, end: int, indices: seq<int>)

  // ----- what the code computes -----

  predicate InLine(levels: seq<Level>, order: seq<int>) {
    forall p :: 0 <= p < |order| ==> 0 <= order[p] < |levels|
  }

  /** The level looked up for each visual position. */
  function LookedUp(levels: seq<Level>, order: seq<int>): (vis: seq<Level>)
    requires InLine(levels, order)
    ensures |vis| == |order|
    ensures forall p :: 0 <= p < |vis| ==> vis[p] == levels[order[p]]
  {
    seq(|order|, p requires 0 <= p < |order| => levels[order[p]])
  }

  /** The levels that are kept: those of removed characters are dropped. */
  function Kept(vis: seq<Level>): (r: seq<Level>)
    ensures |r| <= |vis|
    ensures NO_LEVEL !in r
  {
    if vis == [] then []
    else
      var last := |vis| - 1;
      Kept(vis[..last]) + if vis[last] == NO_LEVEL then [] else [vis[last]]
  }

  function Least(s: seq<int>): (m: int)
    requires s != []
    ensures m in s && forall x :: x in s ==> m <= x
  {
    if |s| == 1 then s[0]
    else
      var front, last := s[..|s| - 1], s[|s| - 1];
      assert s == front + [last];
      if last < Least(front) then last else Least(front)
  }

  function Greatest(s: seq<int>): (m: int)
    requires s != []
    ensures m in s && forall x :: x in s ==> x <= m
  {
    if |s| == 1 then s[0]
    else
      var front, last := s[..|s| - 1], s[|s| - 1];
      assert s == front + [last];
      if last > Greatest(front) then last else Greatest(front)
  }

  function RunOf(level: Level, indices: seq<int>): ReorderedRun
    requires indices != []
  {
    ReorderedRun(DirectionOf(level), level, Least(indices), Greatest(indices) + 1, indices)
  }

  function RunsOf(vis: seq<Level>, order: seq<int>, idx: nat): seq<ReorderedRun>
    requires idx <= |vis| <= |order|
    decreases |vis| - idx
  {
    if idx == |vis| then []
    else
      var end := SpanEnd(vis, idx, idx + 1);
      [RunOf(vis[idx], order[idx..end])] + RunsOf(vis, order, end)
  }

  method FindLeast(s: seq<int>) returns (m: int)
    requires s != []
    ensures m == Least(s)
  {
    m := s[0];
    for i := 1 to |s|
      invariant m == Least(s[..i])
    {
      assert s[..i + 1][..i] == s[..i];
      if s[i] < m {
        m := s[i];
      }
    }
    assert s[..|s|] == s;
  }

  method FindGreatest(s: seq<int>) returns (m: int)
    requires s != []
    ensures m == Greatest(s)
  {
    m := s[0];
    for i := 1 to |s|
      invariant m == Greatest(s[..i])
    {
      assert s[..i + 1][..i] == s[..i];
      if s[i] > m {
        m := s[i];
      }
    }
    assert s[..|s|] == s;
  }

  method LookUp(levels: seq<Level>, order: seq<int>) returns (kept: Option<seq<Level>>)
    ensures kept == if InLine(levels, order) then Some(Kept(LookedUp(levels, order))) else None
  {
    var vis, r := [], [];
    for p := 0 to |order|
      invariant |vis| == p && r == Kept(vis)
      invariant forall q :: 0 <= q < p ==> 0 <= order[q] < |levels| && vis[q] == levels[order[q]]
    {
      if !(0 <= order[p] < |levels|) {
        return None;
      }
      var level := levels[order[p]];
      if level != NO_LEVEL {
        r := r + [level];
      }
      ghost var before := vis;
      vis := vis + [level];
      assert vis[..|vis| - 1] == before;
    }
    assert vis == LookedUp(levels, order);
    return Some(r);
  }

  lemma RunsOfStep(vis: seq<Level>, order: seq<int>, idx: nat, end: nat)
    requires idx < |vis| <= |order| && end == SpanEnd(vis, idx, idx + 1)
    ensures RunsOf(vis, order, idx) == [RunOf(vis[idx], order[idx..end])] + RunsOf(vis, order, end)
  {
  }

  lemma RunsJoin(runs: seq<ReorderedRun>, vis: seq<Level>, order: seq<int>, idx: nat, end: nat)
    requires idx < |vis| <= |order| && end == SpanEnd(vis, idx, idx + 1)
    ensures runs + RunsOf(vis, order, idx) == runs + [RunOf(vis[idx], order[idx..end])] + RunsOf(vis, order, end)
  {
    RunsOfStep(vis, order, idx, end);
    Associative(runs, [RunOf(vis[idx], order[idx..end])], RunsOf(vis, order, end));
  }

  method MakeRun(level: Level, indices: seq<int>) returns (run: ReorderedRun)
    requires indices != []
    ensures run == RunOf(level, indices)
  {
    var start := FindLeast(indices);
    var end := FindGreatest(indices);
    run := ReorderedRun(DirectionOf(level), level, start, end + 1, indices);
  }

  method CollectRuns(vis: seq<Level>, order: seq<int>) returns (runs: seq<ReorderedRun>)
    requires |vis| <= |order| && NO_LEVEL !in vis
    ensures runs == RunsOf(vis, order, 0)
  {
    runs := [];
    var idx := 0;
    ghost var all := RunsOf(vis, order, 0);
    while idx < |vis|
      invariant 0 <= idx <= |vis|
      invariant runs + RunsOf(vis, order, idx) == all
      decreases |vis| - idx
    {
      var len := SpanLen(idx, vis);
      var level := vis[idx];
      if level != NO_LEVEL {
        var run := MakeRun(level, order[idx..idx + len]);
        RunsJoin(runs, vis, order, idx, idx + len);
        runs := runs + [run];
      }
      idx := idx + len;
    }
    NothingAfter(runs);
  }

  /** The runs of a line whose levels and display order are given; None where the source indexes
      out of bounds. */
  method ComputeReorderedRuns(levels: seq<Level>, order: seq<int>) returns (r: Option<seq<ReorderedRun>>)
    ensures r == if InLine(levels, order) then Some(RunsOf(Kept(LookedUp(levels, order)), order, 0)) else None
  {
    var kept := LookUp(levels, order);
    if kept.None? {
      return None;
    }
    var runs := CollectRuns(kept.value, order);
    return Some(runs);
  }

  // ----- when the looked-up levels are those of the characters -----

  /** Every visual position gets the level of the character displayed there. */
  predicate LinesUp(levels: seq<Level>, offset: nat, order: seq<int>, vis: seq<Level>) {
    && |vis| == |order|
    && forall p :: 0 <= p < |order| ==> Shown(levels, order[p] - offset) && vis[p] == levels[order[p] - offset]
  }

  lemma {:induction false} KeptAll(vis: seq<Level>)
    ensures |Kept(vis)| == |vis| <==> NO_LEVEL !in vis
    ensures NO_LEVEL !in vis ==> Kept(vis) == vis
  {
    if vis != [] {
      var last := |vis| - 1;
      KeptAll(vis[..last]);
      assert vis == vis[..last] + [vis[last]];
    }
  }

  /** The levels line up exactly for lines at the start of the paragraph and for lines without
      characters: elsewhere an index into the paragraph is used as one into the line. */
  lemma LinesUpExactly(levels: seq<Level>, offset: nat, order: seq<int>)
    requires IsDisplayOrder(levels, offset, order)
    ensures (InLine(levels, order) && LinesUp(levels, offset, order, Kept(LookedUp(levels, order))))
       <==> offset == 0 || order == []
  {
    forall p | 0 <= p < |order| ensures Shown(levels, order[p] - offset) {
      assert ItemAt(levels, offset, order, p);
    }
    if InLine(levels, order) {
      var vis := LookedUp(levels, order);
      KeptAll(vis);
      if offset > 0 && order != [] {
        var last := Greatest(order);
        var p :| 0 <= p < |order| && order[p] == last;
        assert !Occurs(order, last + offset);
        assert !Shown(levels, last);
        assert vis[p] == NO_LEVEL;
      }
    }
  }

  /** The code indexes out of bounds exactly if a character is shown whose position in the
      paragraph is not one in the line. */
  lemma InLineExactly(levels: seq<Level>, offset: nat, order: seq<int>)
    requires IsDisplayOrder(levels, offset, order)
    ensures !InLine(levels, order) <==> exists v :: Shown(levels, v) && v + offset >= |levels|
  {
    forall p | 0 <= p < |order| ensures Shown(levels, order[p] - offset) {
      assert ItemAt(levels, offset, order, p);
    }
    if v :| Shown(levels, v) && v + offset >= |levels| {
      assert Occurs(order, v + offset);
    }
    if !InLine(levels, order) {
      var p :| 0 <= p < |order| && !(0 <= order[p] < |levels|);
      assert Shown(levels, order[p] - offset);
    }
  }

  // ----- what the runs are -----

  /** Between positions i < j of equal level, one that is shown and has the least level of the
      stretch, if any is shown at all. */
  lemma LowestBetween(levels: seq<Level>, i: nat, j: nat, c: nat) returns (d: nat)
    requires i < c < j < |levels| && Shown(levels, i) && Shown(levels, c) && Shown(levels, j)
    requires levels[i] == levels[j]
    ensures i < d < j && Shown(levels, d)
    ensures MinLevel(levels, i, d) == MinLevel(levels, i, j) == MinLevel(levels, d, j)
  {
    MinLevelIs(levels, i, j);
    var m := MinLevel(levels, i, j);
    if m == levels[i] {
      d := c;
    } else {
      d :| i <= d <= j && levels[d] != NO_LEVEL && m == levels[d];
    }
    MinLevelIs(levels, i, d);
    MinLevelIs(levels, d, j);
  }

  /** Where a shown character is displayed. */
  lemma PositionOf(levels: seq<Level>, order: seq<int>, v: nat) returns (p: nat)
    requires IsDisplayOrder(levels, 0, order) && Shown(levels, v)
    ensures p < |order| && order[p] == v
  {
    assert Occurs(order, v + 0);
    p :| 0 <= p < |order| && order[p] == v;
  }

  lemma OrderOf(levels: seq<Level>, order: seq<int>, p: nat, q: nat)
    requires InClosedForm(levels, 0, order) && p < |order| && q < |order| && order[p] < order[q]
    requires Shown(levels, order[p]) && Shown(levels, order[q])
    ensures p < q <==> !IsOdd(MinLevel(levels, order[p], order[q]))
  {
    if p < q {
      assert PairInClosedForm(levels, 0, order, p, q);
    } else {
      assert PairInClosedForm(levels, 0, order, q, p);
    }
  }

  /** No character is shown between positions i and j. */
  predicate OnlyRemovedBetween(levels: seq<Level>, i: int, j: int) {
    forall c :: i < c < j ==> !Shown(levels, c)
  }

  /** Visual neighbours of one level are logical neighbours, in logical order exactly if their
      level is even. */
  lemma NeighboursTouch(levels: seq<Level>, order: seq<int>, p: nat)
    requires InClosedForm(levels, 0, order) && p + 1 < |order|
    requires Shown(levels, order[p]) && Shown(levels, order[p + 1]) && levels[order[p]] == levels[order[p + 1]]
    ensures order[p] != order[p + 1]
    ensures order[p] < order[p + 1] <==> !IsOdd(levels[order[p]])
    ensures OnlyRemovedBetween(levels, if order[p] < order[p + 1] then order[p] else order[p + 1],
                               if order[p] < order[p + 1] then order[p + 1] else order[p])
  {
    assert ApartAt(order, p, p + 1);
    var a, b := if order[p] < order[p + 1] then p else p + 1, if order[p] < order[p + 1] then p + 1 else p;
    var i, j := order[a], order[b];
    forall c | i < c < j
      ensures !Shown(levels, c)
    {
      if Shown(levels, c) {
        var d := LowestBetween(levels, i, j, c);
        var r := PositionOf(levels, order, d);
        OrderOf(levels, order, a, r);
        OrderOf(levels, order, r, b);
        OrderOf(levels, order, a, b);
      }
    }
    OrderOf(levels, order, a, b);
    MinLevelIs(levels, i, j);
    var c :| i <= c <= j && levels[c] != NO_LEVEL && MinLevel(levels, i, j) == levels[c];
    assert Shown(levels, c);
  }

  /** From one index to the next, upwards or downwards, with nothing shown between. */
  predicate StepsTo(levels: seq<Level>, i: int, j: int, odd: bool) {
    if odd then j < i && OnlyRemovedBetween(levels, j, i) else i < j && OnlyRemovedBetween(levels, i, j)
  }

  /** Indices of one level, each stepping to the next. */
  predicate Steps(levels: seq<Level>, s: seq<int>, level: Level) {
    && (forall p :: 0 <= p < |s| ==> Shown(levels, s[p]) && levels[s[p]] == level)
    && (forall p, q {:trigger StepsTo(levels, s[p], s[q], IsOdd(level))} ::
          0 <= p && q == p + 1 < |s| ==> StepsTo(levels, s[p], s[q], IsOdd(level)))
  }

  predicate Spans(levels: seq<Level>, s: seq<int>, low: int, high: int) {
    forall c :: low <= c <= high ==> (Shown(levels, c) <==> c in s)
  }

  predicate Within(s: seq<int>, low: int, high: int) {
    low in s && high in s && forall c :: c in s ==> low <= c <= high
  }

  lemma SpanGrowsUp(levels: seq<Level>, s: seq<int>, first: int, last: int, x: int)
    requires Within(s, first, last) && Spans(levels, s, first, last)
    requires Shown(levels, x) && last < x && OnlyRemovedBetween(levels, last, x)
    ensures Within(s + [x], first, x) && Spans(levels, s + [x], first, x)
  {
  }

  lemma SpanGrowsDown(levels: seq<Level>, s: seq<int>, first: int, last: int, x: int)
    requires Within(s, last, first) && Spans(levels, s, last, first)
    requires Shown(levels, x) && x < last && OnlyRemovedBetween(levels, x, last)
    ensures Within(s + [x], x, first) && Spans(levels, s + [x], x, first)
  {
  }

  lemma StepsPrefix(levels: seq<Level>, s: seq<int>, level: Level, n: nat)
    requires Steps(levels, s, level) && n <= |s|
    ensures Steps(levels, s[..n], level)
  {
    var front := s[..n];
    forall p, q | 0 <= p && q == p + 1 < n
      ensures StepsTo(levels, front[p], front[q], IsOdd(level))
    {
      assert StepsTo(levels, s[p], s[q], IsOdd(level));
    }
  }

  /** Such indices are the shown characters from the least to the greatest. */
  lemma {:induction false} StepsSpan(levels: seq<Level>, s: seq<int>, level: Level)
    requires s != [] && Steps(levels, s, level)
    ensures var first, last := s[0], s[|s| - 1];
      if IsOdd(level) then Within(s, last, first) && Spans(levels, s, last, first)
      else Within(s, first, last) && Spans(levels, s, first, last)
    decreases |s|
  {
    var n := |s| - 1;
    if n == 0 {
      assert s == [s[0]];
    } else {
      var front, last := s[..n], s[n - 1];
      StepsPrefix(levels, s, level, n);
      StepsSpan(levels, front, level);
      assert StepsTo(levels, s[n - 1], s[n], IsOdd(level));
      assert s == front + [s[n]];
      if IsOdd(level) {
        SpanGrowsDown(levels, front, s[0], last, s[n]);
      } else {
        SpanGrowsUp(levels, front, s[0], last, s[n]);
      }
    }
  }

  /** Visual positions a..b show one level throughout. */
  predicate OneLevel(levels: seq<Level>, order: seq<int>, a: nat, b: nat, level: Level) {
    a < b <= |order| && forall p :: a <= p < b ==> Shown(levels, order[p]) && levels[order[p]] == level
  }

  lemma OneLevelSteps(levels: seq<Level>, order: seq<int>, a: nat, b: nat, level: Level)
    requires InClosedForm(levels, 0, order) && OneLevel(levels, order, a, b, level)
    ensures Steps(levels, order[a..b], level)
  {
    var s := order[a..b];
    forall p, q | 0 <= p && q == p + 1 < |s|
      ensures StepsTo(levels, s[p], s[q], IsOdd(level))
    {
      NeighboursTouch(levels, order, a + p);
    }
  }

  /** One run: it stays in the line, its range holds the shown characters it lists and no others,
      all of its level, running up for an even level and down for an odd one. */
  predicate ReorderedRunAt(levels: seq<Level>, r: ReorderedRun) {
    && 0 <= r.start < r.end <= |levels| && r.direction == DirectionOf(r.level)
    && (forall c :: r.start <= c < r.end ==> (Shown(levels, c) <==> c in r.indices))
    && (forall c :: c in r.indices ==> r.start <= c < r.end && levels[c] == r.level)
    && (forall p :: 0 <= p < |r.indices| - 1 ==>
          if IsOdd(r.level) then r.indices[p] > r.indices[p + 1] else r.indices[p] < r.indices[p + 1])
  }

  lemma StepsMakeRun(levels: seq<Level>, s: seq<int>, level: Level)
    requires s != [] && Steps(levels, s, level)
    ensures ReorderedRunAt(levels, RunOf(level, s))
  {
    StepsSpan(levels, s, level);
    forall p | 0 <= p < |s| - 1
      ensures if IsOdd(level) then s[p] > s[p + 1] else s[p] < s[p + 1]
    {
      assert StepsTo(levels, s[p], s[p + 1], IsOdd(level));
    }
  }

  function AllIndices(runs: seq<ReorderedRun>): seq<int> {
    if runs == [] then [] else runs[0].indices + AllIndices(runs[1..])
  }

  lemma RunBeforeRuns(order: seq<int>, idx: nat, end: nat, n: nat, run: ReorderedRun, runs: seq<ReorderedRun>)
    requires idx <= end <= n <= |order| && run.indices == order[idx..end] && AllIndices(runs) == order[end..n]
    ensures AllIndices([run] + runs) == order[idx..n]
  {
    assert ([run] + runs)[1..] == runs;
    assert order[idx..end] + order[end..n] == order[idx..n];
  }

  /** The runs list the order as far as there are levels for it. */
  lemma {:induction false} RunsOfPrefix(vis: seq<Level>, order: seq<int>, idx: nat)
    requires idx <= |vis| <= |order|
    ensures AllIndices(RunsOf(vis, order, idx)) == order[idx..|vis|]
    decreases |vis| - idx
  {
    if idx < |vis| {
      var end := SpanEnd(vis, idx, idx + 1);
      RunsOfPrefix(vis, order, end);
      RunsOfStep(vis, order, idx, end);
      RunBeforeRuns(order, idx, end, |vis|, RunOf(vis[idx], order[idx..end]), RunsOf(vis, order, end));
    }
  }

  /** What the runs of any line list: the whole display order for a line at the start of the
      paragraph, and otherwise, if there is anything to display, only part of it. */
  lemma RunsListPrefix(levels: seq<Level>, offset: nat, order: seq<int>)
    requires IsDisplayOrder(levels, offset, order) && InLine(levels, order)
    ensures var all := AllIndices(RunsOf(Kept(LookedUp(levels, order)), order, 0));
            all <= order && (all == order <==> offset == 0 || order == [])
  {
    var vis := LookedUp(levels, order);
    RunsOfPrefix(Kept(vis), order, 0);
    LinesUpExactly(levels, offset, order);
    KeptAll(vis);
    if |Kept(vis)| == |order| && order != [] {
      forall p | 0 <= p < |order| ensures Shown(levels, order[p]) && vis[p] != NO_LEVEL {
        assert vis[p] in vis;
      }
      var last := Greatest(order);
      assert offset > 0 ==> !Occurs(order, last + offset);
      var p :| 0 <= p < |order| && order[p] == last;
    }
  }

  ghost predicate RightRuns(levels: seq<Level>, order: seq<int>, runs: seq<ReorderedRun>) {
    AllIndices(runs) == order && forall r :: r in runs ==> ReorderedRunAt(levels, r)
  }

  lemma SpanIsOneLevel(levels: seq<Level>, order: seq<int>, vis: seq<Level>, idx: nat, end: nat)
    requires LinesUp(levels, 0, order, vis) && idx < |vis| && end == SpanEnd(vis, idx, idx + 1)
    ensures OneLevel(levels, order, idx, end, vis[idx])
  {
    SpanUniform(vis, idx, idx + 1);
  }

  lemma OneLevelRun(levels: seq<Level>, order: seq<int>, a: nat, b: nat, level: Level)
    requires InClosedForm(levels, 0, order) && OneLevel(levels, order, a, b, level)
    ensures ReorderedRunAt(levels, RunOf(level, order[a..b]))
  {
    OneLevelSteps(levels, order, a, b, level);
    StepsMakeRun(levels, order[a..b], level);
  }

  lemma PrependRun(levels: seq<Level>, order: seq<int>, idx: nat, end: nat, run: ReorderedRun, runs: seq<ReorderedRun>)
    requires idx <= end <= |order| && run.indices == order[idx..end] && ReorderedRunAt(levels, run)
    requires RightRuns(levels, order[end..], runs)
    ensures RightRuns(levels, order[idx..], [run] + runs)
  {
    assert order[end..|order|] == order[end..] && order[idx..|order|] == order[idx..];
    RunBeforeRuns(order, idx, end, |order|, run, runs);
  }

  lemma FirstRun(levels: seq<Level>, order: seq<int>, vis: seq<Level>, idx: nat, end: nat)
    requires InClosedForm(levels, 0, order) && LinesUp(levels, 0, order, vis)
    requires idx < |vis| && end == SpanEnd(vis, idx, idx + 1)
    ensures ReorderedRunAt(levels, RunOf(vis[idx], order[idx..end]))
  {
    SpanIsOneLevel(levels, order, vis, idx, end);
    OneLevelRun(levels, order, idx, end, vis[idx]);
  }

  lemma NoRuns(levels: seq<Level>, order: seq<int>, vis: seq<Level>, idx: nat)
    requires idx == |vis| == |order|
    ensures RightRuns(levels, order[idx..], RunsOf(vis, order, idx))
  {
  }

  lemma {:induction false} RunsOfAre(levels: seq<Level>, order: seq<int>, vis: seq<Level>, idx: nat)
    requires InClosedForm(levels, 0, order) && LinesUp(levels, 0, order, vis) && idx <= |vis|
    ensures RightRuns(levels, order[idx..], RunsOf(vis, order, idx))
    decreases |vis| - idx
  {
    if idx == |vis| {
      NoRuns(levels, order, vis, idx);
    } else {
      var end := SpanEnd(vis, idx, idx + 1);
      FirstRun(levels, order, vis, idx, end);
      RunsOfAre(levels, order, vis, end);
      RunsOfStep(vis, order, idx, end);
      PrependRun(levels, order, idx, end, RunOf(vis[idx], order[idx..end]), RunsOf(vis, order, end));
    }
  }

  /** The runs of a line at the start of the paragraph: read one after the other they give the
      display order, and each is a stretch of the line of one level. */
  lemma ReorderedRunsAre(levels: seq<Level>, order: seq<int>)
    requires InClosedForm(levels, 0, order)
    ensures InLine(levels, order)
    ensures RightRuns(levels, order, RunsOf(Kept(LookedUp(levels, order)), order, 0))
  {
    forall p | 0 <= p < |order| ensures Shown(levels, order[p]) {
      assert ItemAt(levels, 0, order, p);
    }
    LinesUpExactly(levels, 0, order);
    RunsOfAre(levels, order, Kept(LookedUp(levels, order)), 0);
    assert order[0..] == order;
  }
}
