/** Rules X9 and X10: removed characters and level runs. */
module LevelRuns {
  import opened BidiTypes

  datatype Run = Run(start: nat, end: nat, len: nat, seqId: nat, level: Level, sor: BidiClass, eor: BidiClass)

  /** Rule X9 as the later rules rely on it: exactly the characters of the removed
      classes carry NO_LEVEL. */
  predicate Marked(types: seq<BidiClass>, levels: seq<Level>) {
    && |types| == |levels|
    && forall p :: 0 <= p < |types| ==> (levels[p] == NO_LEVEL <==> IsRemovedClass(types[p]))
  }

  // ----- the runs the code finds -----

  /** Scans on from `pos` within a run whose level is `spanLevel` (NO_LEVEL: none seen yet);
      gives the level of the run and the position after it. */
  function SpanFrom(types: seq<BidiClass>, levels: seq<Level>, pos: nat, spanLevel: Level): (r: (Level, nat))
    requires |types| == |levels| && pos <= |types|
    ensures pos <= r.1 <= |types|
    ensures spanLevel == NO_LEVEL && pos < |types| ==> pos < r.1
    decreases |types| - pos
  {
    if pos == |types| then (spanLevel, pos)
    else if levels[pos] == NO_LEVEL then SpanFrom(types, levels, pos + 1, spanLevel)
    else if spanLevel != NO_LEVEL && levels[pos] != spanLevel then (spanLevel, pos)
    else if IsIsoInit(types[pos]) then (levels[pos], pos + 1)
    else SpanFrom(types, levels, pos + 1, levels[pos])
  }

  function RunsFrom(types: seq<BidiClass>, levels: seq<Level>, pos: nat): seq<Run>
    requires |types| == |levels| && pos <= |types|
    decreases |types| - pos
  {
    if pos == |types| then []
    else
      var (level, end) := SpanFrom(types, levels, pos, NO_LEVEL);
      (if level == NO_LEVEL then [] else [Run(pos, end, end - pos, 0, level, ON, ON)])
      + RunsFrom(types, levels, end)
  }

  lemma {:induction false} RunsUnnumbered(types: seq<BidiClass>, levels: seq<Level>, pos: nat)
    requires |types| == |levels| && pos <= |types|
    ensures forall k :: 0 <= k < |RunsFrom(types, levels, pos)| ==> RunsFrom(types, levels, pos)[k].seqId == 0
    decreases |types| - pos
  {
    if pos < |types| {
      RunsUnnumbered(types, levels, SpanFrom(types, levels, pos, NO_LEVEL).1);
    }
  }

  // ----- what a level run is -----

  predicate IsRun(types: seq<BidiClass>, levels: seq<Level>, r: Run) {
    && |types| == |levels|
    && r.start < r.end <= |types| && r.len == r.end - r.start
    && r.level != NO_LEVEL
    && (forall p :: r.start <= p < r.end ==> levels[p] == NO_LEVEL || levels[p] == r.level)
    && (exists p :: r.start <= p < r.end && levels[p] != NO_LEVEL)
    && (forall p :: r.start <= p < r.end - 1 && levels[p] != NO_LEVEL ==> !IsIsoInit(types[p]))
  }

  /** The boundary between two adjacent runs: the first ends in an isolate initiator or the
      second begins with a character of another level. */
  predicate IsBoundary(types: seq<BidiClass>, levels: seq<Level>, r: Run)
    requires |types| == |levels| && 0 < r.end < |types|
  {
    (levels[r.end - 1] != NO_LEVEL && IsIsoInit(types[r.end - 1]))
    || (levels[r.end] != NO_LEVEL && levels[r.end] != r.level)
  }

  /** Run k is a level run, begins where the one before it ends, and cannot be extended. */
  predicate RunAt(types: seq<BidiClass>, levels: seq<Level>, pos: nat, runs: seq<Run>, k: nat)
    requires |types| == |levels| && k < |runs|
  {
    && IsRun(types, levels, runs[k])
    && runs[k].start == PriorEnd(pos, runs, k)
    && (runs[k].end < |types| ==> IsBoundary(types, levels, runs[k]))
  }

  /** `runs` are the level runs of the text from `pos` on: they tile it up to a removed tail,
      each is uniform in level, holds an isolate initiator only last, and is maximal. */
  predicate AreLevelRuns(types: seq<BidiClass>, levels: seq<Level>, pos: nat, runs: seq<Run>) {
    && |types| == |levels| && pos <= |types|
    && (forall k {:trigger RunAt(types, levels, pos, runs, k)} ::
          0 <= k < |runs| ==> RunAt(types, levels, pos, runs, k))
    && (forall p :: PriorEnd(pos, runs, |runs|) <= p < |types| ==> levels[p] == NO_LEVEL)
  }

  function PriorEnd(pos: nat, runs: seq<Run>, k: nat): nat
    requires k <= |runs|
  {
    if k == 0 then pos else runs[k - 1].end
  }

  function Span(start: nat, end: nat, level: Level): Run
    requires start <= end
  {
    Run(start, end, end - start, 0, level, ON, ON)
  }

  lemma SpanBegins(types: seq<BidiClass>, levels: seq<Level>, start: nat, pos: nat)
    requires |types| == |levels| && start <= pos < |types| && levels[pos] != NO_LEVEL
    requires forall p :: start <= p < pos ==> levels[p] == NO_LEVEL
    ensures IsRun(types, levels, Span(start, pos + 1, levels[pos]))
  {
  }

  lemma SpanExtends(types: seq<BidiClass>, levels: seq<Level>, start: nat, pos: nat, level: Level)
    requires |types| == |levels| && start < pos < |types| && IsRun(types, levels, Span(start, pos, level))
    requires levels[pos - 1] != NO_LEVEL ==> !IsIsoInit(types[pos - 1])
    requires levels[pos] == NO_LEVEL || levels[pos] == level
    ensures IsRun(types, levels, Span(start, pos + 1, level))
  {
    var p :| start <= p < pos && levels[p] != NO_LEVEL;
  }

  lemma {:induction false} SpanIs(types: seq<BidiClass>, levels: seq<Level>, start: nat, pos: nat, spanLevel: Level)
    requires |types| == |levels| && start <= pos <= |types|
    requires if spanLevel == NO_LEVEL then forall p :: start <= p < pos ==> levels[p] == NO_LEVEL
             else && start < pos && IsRun(types, levels, Span(start, pos, spanLevel))
                  && (levels[pos - 1] != NO_LEVEL ==> !IsIsoInit(types[pos - 1]))
    ensures var (level, end) := SpanFrom(types, levels, pos, spanLevel);
            if level == NO_LEVEL then end == |types| && forall p :: start <= p < end ==> levels[p] == NO_LEVEL
            else && start < end && IsRun(types, levels, Span(start, end, level))
                 && (end < |types| ==> IsBoundary(types, levels, Span(start, end, level)))
    decreases |types| - pos
  {
    if pos == |types| {
    } else if levels[pos] == NO_LEVEL {
      if spanLevel != NO_LEVEL {
        SpanExtends(types, levels, start, pos, spanLevel);
      }
      SpanIs(types, levels, start, pos + 1, spanLevel);
    } else if spanLevel == NO_LEVEL || levels[pos] == spanLevel {
      if spanLevel == NO_LEVEL {
        SpanBegins(types, levels, start, pos);
      } else {
        SpanExtends(types, levels, start, pos, spanLevel);
      }
      if !IsIsoInit(types[pos]) {
        SpanIs(types, levels, start, pos + 1, levels[pos]);
      }
    }
  }

  /** The runs the code finds are the level runs. */
  lemma {:induction false} RunsAreLevelRuns(types: seq<BidiClass>, levels: seq<Level>, pos: nat)
    requires |types| == |levels| && pos <= |types|
    ensures AreLevelRuns(types, levels, pos, RunsFrom(types, levels, pos))
    decreases |types| - pos
  {
    if pos < |types| {
      SpanIs(types, levels, pos, pos, NO_LEVEL);
      var (level, end) := SpanFrom(types, levels, pos, NO_LEVEL);
      var rest := RunsFrom(types, levels, end);
      RunsAreLevelRuns(types, levels, end);
      if level == NO_LEVEL {
        assert end == |types| && rest == [];
      } else {
        PrependRun(types, levels, Span(pos, end, level), rest);
      }
    }
  }

  lemma PrependRun(types: seq<BidiClass>, levels: seq<Level>, r: Run, rest: seq<Run>)
    requires IsRun(types, levels, r) && AreLevelRuns(types, levels, r.end, rest)
    requires r.end < |types| ==> IsBoundary(types, levels, r)
    ensures AreLevelRuns(types, levels, r.start, [r] + rest)
  {
    var runs := [r] + rest;
    forall k | 0 <= k < |runs| ensures RunAt(types, levels, r.start, runs, k) {
      if k > 0 {
        assert RunAt(types, levels, r.end, rest, k - 1);
      }
    }
    assert PriorEnd(r.start, runs, |runs|) == PriorEnd(r.end, rest, |rest|);
  }

  // ----- consequences -----

  lemma {:induction false} RunsAscend(types: seq<BidiClass>, levels: seq<Level>, pos: nat, runs: seq<Run>, a: nat, b: nat)
    requires AreLevelRuns(types, levels, pos, runs) && a < b < |runs|
    ensures runs[a].end <= runs[b].start
  {
    assert RunAt(types, levels, pos, runs, b);
    if a < b - 1 {
      assert RunAt(types, levels, pos, runs, b - 1);
      RunsAscend(types, levels, pos, runs, a, b - 1);
    }
  }

  /** Every character that is not removed lies in a run, and in only one. */
  lemma RunContaining(types: seq<BidiClass>, levels: seq<Level>, pos: nat, runs: seq<Run>, p: nat) returns (k: nat)
    requires AreLevelRuns(types, levels, pos, runs) && pos <= p < |types| && levels[p] != NO_LEVEL
    ensures k < |runs| && runs[k].start <= p < runs[k].end && runs[k].level == levels[p]
    ensures forall j :: 0 <= j < |runs| && runs[j].start <= p < runs[j].end ==> j == k
  {
    assert runs != [] && p < runs[|runs| - 1].end;
    k := |runs| - 1;
    while p < runs[k].start
      invariant 0 <= k < |runs| && p < runs[k].end
      decreases k
    {
      assert RunAt(types, levels, pos, runs, k);
      k := k - 1;
    }
    assert RunAt(types, levels, pos, runs, k);
    forall j | 0 <= j < |runs| && runs[j].start <= p < runs[j].end ensures j == k {
      if j < k {
        RunsAscend(types, levels, pos, runs, j, k);
      } else if k < j {
        RunsAscend(types, levels, pos, runs, k, j);
      }
    }
  }

  /** Level runs are determined by what they are, so the code's choice is the only one. */
  lemma {:induction false} LevelRunsUnique(types: seq<BidiClass>, levels: seq<Level>, pos: nat, a: seq<Run>, b: seq<Run>, k: nat)
    requires AreLevelRuns(types, levels, pos, a) && AreLevelRuns(types, levels, pos, b)
    requires k < |a|
    ensures k < |b| && a[k].start == b[k].start && a[k].end == b[k].end && a[k].level == b[k].level
  {
    if k > 0 {
      LevelRunsUnique(types, levels, pos, a, b, k - 1);
    }
    assert RunAt(types, levels, pos, a, k);
    var p :| a[k].start <= p < a[k].end && levels[p] != NO_LEVEL;
    assert PriorEnd(pos, a, k) == PriorEnd(pos, b, k);
    assert k < |b|;
    assert RunAt(types, levels, pos, b, k);
    if a[k].end < b[k].end {
      EndsAgree(types, levels, a[k], b[k]);
    } else if b[k].end < a[k].end {
      EndsAgree(types, levels, b[k], a[k]);
    } else {
      assert levels[p] == b[k].level;
    }
  }

  lemma LevelRunsWithin(types: seq<BidiClass>, levels: seq<Level>, pos: nat, a: seq<Run>, b: seq<Run>)
    requires AreLevelRuns(types, levels, pos, a) && AreLevelRuns(types, levels, pos, b)
    ensures |a| <= |b|
    ensures forall k :: 0 <= k < |a| ==> a[k].start == b[k].start && a[k].end == b[k].end && a[k].level == b[k].level
  {
    if a != [] {
      LevelRunsUnique(types, levels, pos, a, b, |a| - 1);
    }
    forall k | 0 <= k < |a|
      ensures a[k].start == b[k].start && a[k].end == b[k].end && a[k].level == b[k].level
    {
      LevelRunsUnique(types, levels, pos, a, b, k);
    }
  }

  /** So the lists of level runs are the same list. */
  lemma LevelRunsSame(types: seq<BidiClass>, levels: seq<Level>, pos: nat, a: seq<Run>, b: seq<Run>)
    requires AreLevelRuns(types, levels, pos, a) && AreLevelRuns(types, levels, pos, b)
    ensures |a| == |b|
    ensures forall k :: 0 <= k < |a| ==> a[k].start == b[k].start && a[k].end == b[k].end && a[k].level == b[k].level
  {
    LevelRunsWithin(types, levels, pos, a, b);
    LevelRunsWithin(types, levels, pos, b, a);
  }

  lemma EndsAgree(types: seq<BidiClass>, levels: seq<Level>, a: Run, b: Run)
    requires IsRun(types, levels, a) && IsRun(types, levels, b) && a.start == b.start && a.end < b.end
    ensures !IsBoundary(types, levels, a)
  {
    var p :| a.start <= p < a.end && levels[p] != NO_LEVEL;
    assert levels[p] == a.level == b.level;
  }

  // ----- sor and eor -----

  function PriorLevel(base: Level, runs: seq<Run>, k: nat): Level
    requires k < |runs|
  {
    if k == 0 then base else runs[k - 1].level
  }

  function NextLevel(base: Level, runs: seq<Run>, k: nat): Level
    requires k < |runs|
  {
    if k == |runs| - 1 then base else runs[k + 1].level
  }

  function Bordered(base: Level, runs: seq<Run>, k: nat): Run
    requires k < |runs|
  {
    runs[k].(sor := ClassOfLevel(MaxLevel(PriorLevel(base, runs, k), runs[k].level)),
             eor := ClassOfLevel(MaxLevel(NextLevel(base, runs, k), runs[k].level)))
  }

  function WithSorEor(base: Level, runs: seq<Run>): (r: seq<Run>)
    ensures |r| == |runs|
  {
    seq(|runs|, k requires 0 <= k < |runs| => Bordered(base, runs, k))
  }

  /** The level of the nearest character before p that is not removed, or `base`. */
  function LevelBefore(levels: seq<Level>, base: Level, p: nat): Level
    requires p <= |levels|
  {
    if p == 0 then base
    else if levels[p - 1] != NO_LEVEL then levels[p - 1]
    else LevelBefore(levels, base, p - 1)
  }

  /** The level of the nearest character from p on that is not removed, or `base`. */
  function LevelAfter(levels: seq<Level>, base: Level, p: nat): Level
    requires p <= |levels|
    decreases |levels| - p
  {
    if p == |levels| then base
    else if levels[p] != NO_LEVEL then levels[p]
    else LevelAfter(levels, base, p + 1)
  }

  lemma {:induction false} LevelBeforeInRun(types: seq<BidiClass>, levels: seq<Level>, base: Level, r: Run, p: nat, q: nat)
    requires IsRun(types, levels, r) && r.start <= q < p <= r.end && levels[q] != NO_LEVEL
    ensures LevelBefore(levels, base, p) == r.level
  {
    if levels[p - 1] == NO_LEVEL {
      LevelBeforeInRun(types, levels, base, r, p - 1, q);
    }
  }

  lemma {:induction false} LevelAfterInRun(types: seq<BidiClass>, levels: seq<Level>, base: Level, r: Run, p: nat, q: nat)
    requires IsRun(types, levels, r) && r.start <= p <= q < r.end && levels[q] != NO_LEVEL
    ensures LevelAfter(levels, base, p) == r.level
    decreases q - p
  {
    if levels[p] == NO_LEVEL {
      LevelAfterInRun(types, levels, base, r, p + 1, q);
    }
  }

  lemma {:induction false} LevelAfterTail(levels: seq<Level>, base: Level, p: nat)
    requires p <= |levels| && forall q :: p <= q < |levels| ==> levels[q] == NO_LEVEL
    ensures LevelAfter(levels, base, p) == base
    decreases |levels| - p
  {
    if p < |levels| {
      LevelAfterTail(levels, base, p + 1);
    }
  }

  /** X10: the code compares neighbouring runs, the rule neighbouring characters that are
      not removed; the two agree on every level run. */
  lemma SorEorAreX10(types: seq<BidiClass>, levels: seq<Level>, base: Level, runs: seq<Run>, k: nat)
    requires AreLevelRuns(types, levels, 0, runs) && k < |runs|
    ensures runs[k].start <= |levels| && runs[k].end <= |levels|
    ensures Bordered(base, runs, k).sor
            == ClassOfLevel(MaxLevel(LevelBefore(levels, base, runs[k].start), runs[k].level))
    ensures Bordered(base, runs, k).eor
            == ClassOfLevel(MaxLevel(LevelAfter(levels, base, runs[k].end), runs[k].level))
  {
    assert RunAt(types, levels, 0, runs, k);
    if k > 0 {
      assert RunAt(types, levels, 0, runs, k - 1);
      var q :| runs[k - 1].start <= q < runs[k - 1].end && levels[q] != NO_LEVEL;
      LevelBeforeInRun(types, levels, base, runs[k - 1], runs[k].start, q);
    }
    if k < |runs| - 1 {
      assert RunAt(types, levels, 0, runs, k + 1);
      var q :| runs[k + 1].start <= q < runs[k + 1].end && levels[q] != NO_LEVEL;
      LevelAfterInRun(types, levels, base, runs[k + 1], runs[k].end, q);
    } else {
      LevelAfterTail(levels, base, runs[k].end);
    }
  }
}
