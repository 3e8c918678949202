/** Rule L1, and cutting a line into runs of one level. */
module LineLevels {
  import opened Wrappers
  import opened BidiTypes
  import opened LevelRuns

  // ----- L1 -----

  predicate IsSeparator(bc: BidiClass) {
    bc.S? || bc.B?
  }

  predicate IsTrailing(bc: BidiClass) {
    bc.WS? || IsIsoControl(bc)
  }

  /** From p on up to position q there is only whitespace, isolate controls and removed
      characters. */
  predicate TrailsTo(orig: seq<BidiClass>, levels: seq<Level>, p: nat, q: nat)
    requires |orig| == |levels|
  {
    p <= q <= |orig| && forall r :: p <= r < q ==> IsTrailing(orig[r]) || levels[r] == NO_LEVEL
  }

  /** L1 resets p because of a separator at some position before `done`. */
  predicate ResetBySeparator(orig: seq<BidiClass>, levels: seq<Level>, done: nat, p: nat)
    requires |orig| == |levels| && done <= |orig|
  {
    p < done &&
    (IsSeparator(orig[p]) ||
     (IsTrailing(orig[p]) && exists q :: p < q < done && IsSeparator(orig[q]) && TrailsTo(orig, levels, p, q)))
  }

  /** L1: p is a separator, or it is whitespace or an isolate control followed only by such
      characters and removed ones up to a separator or the end of the line. */
  predicate ResetByL1(orig: seq<BidiClass>, levels: seq<Level>, end: nat, p: nat)
    requires |orig| == |levels| && end <= |orig|
  {
    || ResetBySeparator(orig, levels, end, p)
    || (p < end && IsTrailing(orig[p]) && TrailsTo(orig, levels, p, end))
  }

  function L1At(orig: seq<BidiClass>, levels: seq<Level>, base: Level, end: nat, p: nat): Level
    requires |orig| == |levels| && p < end <= |orig|
  {
    if ResetByL1(orig, levels, end, p) then base else levels[p]
  }

  /** The levels of the line start..end after L1. */
  function L1(orig: seq<BidiClass>, levels: seq<Level>, base: Level, start: nat, end: nat): (r: seq<Level>)
    requires |orig| == |levels| && start <= end <= |orig|
    ensures |r| == end - start
    ensures forall k :: 0 <= k < |r| ==> r[k] == L1At(orig, levels, base, end, start + k)
  {
    seq(end - start, k requires 0 <= k < end - start => L1At(orig, levels, base, end, start + k))
  }

  /** The backward scan from a separator or the line end. */
  method ResetWhitespaceBefore(orig: seq<BidiClass>, levels: seq<Level>, base: Level, start: nat, end: nat)
    returns (r: seq<Level>)
    requires |orig| == |levels| && start <= end <= |orig|
    ensures |r| == |levels|
    ensures forall p :: 0 <= p < |levels| ==>
              r[p] == if start <= p < end && IsTrailing(orig[p]) && TrailsTo(orig, levels, p, end) then base else levels[p]
  {
    r := levels;
    var i := end;
    while i > start
      invariant start <= i <= end && |r| == |levels| && TrailsTo(orig, levels, i, end)
      invariant forall p :: 0 <= p < i || end <= p < |r| ==> r[p] == levels[p]
      invariant forall p :: i <= p < end ==> r[p] == if IsTrailing(orig[p]) then base else levels[p]
    {
      i := i - 1;
      if IsTrailing(orig[i]) {
        r := r[i := base];
      } else if r[i] != NO_LEVEL {
        assert forall p: nat :: p <= i ==> !TrailsTo(orig, levels, p, end);
        break;
      }
    }
  }

  /** Levels reset so far do not change what counts as removed. */
  predicate ResetUpTo(orig: seq<BidiClass>, levels: seq<Level>, base: Level, start: nat, done: nat, r: seq<Level>) {
    && |r| == |levels| == |orig| && start <= done <= |orig|
    && forall p :: 0 <= p < |r| ==>
         r[p] == if start <= p && ResetBySeparator(orig, levels, done, p) then base else levels[p]
  }

  lemma TrailsInReset(orig: seq<BidiClass>, levels: seq<Level>, base: Level, start: nat, done: nat, r: seq<Level>, p: nat, q: nat)
    requires ResetUpTo(orig, levels, base, start, done, r) && Marked(orig, levels) && base != NO_LEVEL
    ensures TrailsTo(orig, r, p, q) <==> TrailsTo(orig, levels, p, q)
  {
    forall x | 0 <= x < |orig| ensures IsTrailing(orig[x]) || (r[x] == NO_LEVEL <==> levels[x] == NO_LEVEL) {
    }
  }

  /** Rule L1 for the line start..end, by repeated backward scans. */
  method ResetWhitespaceLevels(orig: seq<BidiClass>, levels: seq<Level>, base: Level, start: nat, end: nat)
    returns (line: seq<Level>)
    requires Marked(orig, levels) && base != NO_LEVEL && start <= end <= |orig|
    ensures line == L1(orig, levels, base, start, end)
  {
    var r := levels;
    for idx := start to end
      invariant ResetUpTo(orig, levels, base, start, idx, r)
    {
      ghost var before := r;
      if IsSeparator(orig[idx]) {
        r := r[idx := base];
        r := ResetWhitespaceBefore(orig, r, base, start, idx);
        SeparatorStep(orig, levels, base, start, idx, before, r);
      } else {
        NoSeparatorStep(orig, levels, base, start, idx, r);
      }
    }
    ghost var before := r;
    r := ResetWhitespaceBefore(orig, r, base, start, end);
    forall k | 0 <= k < end - start ensures r[start..end][k] == L1At(orig, levels, base, end, start + k) {
      TrailsInReset(orig, levels, base, start, end, before, start + k, end);
    }
    line := r[start..end];
  }

  lemma NoSeparatorStep(orig: seq<BidiClass>, levels: seq<Level>, base: Level, start: nat, idx: nat, r: seq<Level>)
    requires ResetUpTo(orig, levels, base, start, idx, r) && idx < |orig| && !IsSeparator(orig[idx])
    ensures ResetUpTo(orig, levels, base, start, idx + 1, r)
  {
    forall p | 0 <= p < |r|
      ensures ResetBySeparator(orig, levels, idx + 1, p) <==> ResetBySeparator(orig, levels, idx, p)
    {
    }
  }

  lemma SeparatorStep(orig: seq<BidiClass>, levels: seq<Level>, base: Level, start: nat, idx: nat, before: seq<Level>, r: seq<Level>)
    requires ResetUpTo(orig, levels, base, start, idx, before) && idx < |orig| && IsSeparator(orig[idx])
    requires Marked(orig, levels) && base != NO_LEVEL && |r| == |levels|
    requires var set' := before[idx := base];
             forall p :: 0 <= p < |r| ==>
               r[p] == if start <= p < idx && IsTrailing(orig[p]) && TrailsTo(orig, set', p, idx) then base else set'[p]
    ensures ResetUpTo(orig, levels, base, start, idx + 1, r)
  {
    var set' := before[idx := base];
    forall p | 0 <= p < |r|
      ensures r[p] == if start <= p && ResetBySeparator(orig, levels, idx + 1, p) then base else levels[p]
    {
      TrailsInReset(orig, levels, base, start, idx, before, p, idx);
      assert TrailsTo(orig, set', p, idx) <==> TrailsTo(orig, before, p, idx);
      assert ResetBySeparator(orig, levels, idx + 1, p) <==>
             ResetBySeparator(orig, levels, idx, p) || p == idx ||
             (p < idx && IsTrailing(orig[p]) && TrailsTo(orig, levels, p, idx));
    }
  }

  /** L1 only ever puts the paragraph level in, so the line stays within bounds and keeps
      its removed characters. */
  lemma L1Bounds(orig: seq<BidiClass>, levels: seq<Level>, base: Level, start: nat, end: nat, top: Level)
    requires Marked(orig, levels) && start <= end <= |orig| && 0 <= base <= top
    requires forall p :: 0 <= p < |levels| ==> NO_LEVEL <= levels[p] <= top
    ensures var line := L1(orig, levels, base, start, end);
            forall k :: 0 <= k < end - start ==>
              NO_LEVEL <= line[k] <= top && (line[k] == NO_LEVEL <==> levels[start + k] == NO_LEVEL)
  {
    var line := L1(orig, levels, base, start, end);
    forall k | 0 <= k < end - start
      ensures NO_LEVEL <= line[k] <= top && (line[k] == NO_LEVEL <==> levels[start + k] == NO_LEVEL)
    {
      var p := start + k;
      assert levels[p] == NO_LEVEL <==> IsRemovedClass(orig[p]);
    }
  }

  // ----- runs of one level -----

  /** A run of text at one level, as handed to callers; `removed` lists the positions inside
      it that X9 removed. */
  datatype BidiRun = BidiRun(direction: Direction, level: Level, start: nat, end: nat, removed: seq<nat>)

  /** The position after the maximal stretch of entries equal to the one at `start`. */
  function SpanEnd(levels: seq<Level>, start: nat, pos: nat): (end: nat)
    requires start < pos <= |levels|
    ensures pos <= end <= |levels|
    decreases |levels| - pos
  {
    if pos < |levels| && levels[pos] == levels[start] then SpanEnd(levels, start, pos + 1) else pos
  }

  /** The positions of start..end that X9 removed, counted from the paragraph start. */
  function RemovedIn(levels: seq<Level>, offset: nat, start: nat, end: nat): seq<nat>
    requires start <= end <= |levels|
    decreases end
  {
    if start == end then []
    else RemovedIn(levels, offset, start, end - 1) + if levels[end - 1] == NO_LEVEL then [end - 1 + offset] else []
  }

  function RunOfSpan(levels: seq<Level>, offset: nat, start: nat, end: nat): seq<BidiRun>
    requires start < end <= |levels|
  {
    if levels[start] == NO_LEVEL then []
    else [BidiRun(DirectionOf(levels[start]), levels[start], offset + start, offset + end,
                  RemovedIn(levels, offset, start, end))]
  }

  /** The runs from `pos` on of a line that begins at `offset` in the paragraph. */
  function BidiRunsFrom(levels: seq<Level>, offset: nat, pos: nat): seq<BidiRun>
    requires pos <= |levels|
    decreases |levels| - pos
  {
    if pos == |levels| then []
    else
      var end := SpanEnd(levels, pos, pos + 1);
      RunOfSpan(levels, offset, pos, end) + BidiRunsFrom(levels, offset, end)
  }

  method CollectRemoved(levels: seq<Level>, offset: nat, start: nat, end: nat) returns (removed: seq<nat>)
    requires start <= end <= |levels|
    ensures removed == RemovedIn(levels, offset, start, end)
  {
    removed := [];
    for idx := start to end
      invariant removed == RemovedIn(levels, offset, start, idx)
    {
      if levels[idx] == NO_LEVEL {
        removed := removed + [idx + offset];
      }
    }
  }

  method SpanLen(start: nat, levels: seq<Level>) returns (len: nat)
    requires start < |levels|
    ensures start + len == SpanEnd(levels, start, start + 1)
  {
    var pos := start + 1;
    while pos < |levels| && levels[pos] == levels[start]
      invariant start < pos <= |levels| && SpanEnd(levels, start, pos) == SpanEnd(levels, start, start + 1)
    {
      pos := pos + 1;
    }
    len := pos - start;
  }

  /** What the iterator yields from `pos`, and where it goes on: removed stretches are skipped. */
  function NextRun(levels: seq<Level>, offset: nat, pos: nat): (r: (Option<BidiRun>, nat))
    requires pos <= |levels|
    ensures pos <= r.1 <= |levels| && (r.0.Some? ==> pos < r.1)
    decreases |levels| - pos
  {
    if pos == |levels| then (None, pos)
    else
      var end := SpanEnd(levels, pos, pos + 1);
      if levels[pos] == NO_LEVEL then NextRun(levels, offset, end)
      else (Some(BidiRun(DirectionOf(levels[pos]), levels[pos], offset + pos, offset + end,
                         RemovedIn(levels, offset, pos, end))), end)
  }

  class RunIter {
    var pos: nat
    const levels: seq<Level>
    const offset: nat

    ghost predicate Valid()
      reads this
    {
      pos <= |levels|
    }

    constructor (levels: seq<Level>, offset: nat)
      ensures Valid() && pos == 0 && this.levels == levels && this.offset == offset
    {
      this.pos := 0;
      this.levels := levels;
      this.offset := offset;
    }

    /** The next run, if any is left. */
    method Next() returns (run: Option<BidiRun>)
      requires Valid()
      modifies this
      ensures Valid() && (run, pos) == NextRun(levels, offset, old(pos))
    {
      while pos < |levels|
        invariant Valid() && NextRun(levels, offset, pos) == NextRun(levels, offset, old(pos))
        decreases |levels| - pos
      {
        var start := pos;
        var len := SpanLen(start, levels);
        pos := start + len;
        if levels[start] != NO_LEVEL {
          var removed := CollectRemoved(levels, offset, start, start + len);
          return Some(BidiRun(DirectionOf(levels[start]), levels[start], offset + start, offset + start + len, removed));
        }
      }
      return None;
    }
  }

  /** Calling the iterator until it is exhausted gives the runs one by one. */
  lemma {:induction false} RunsOneByOne(levels: seq<Level>, offset: nat, pos: nat)
    requires pos <= |levels|
    ensures var (run, next) := NextRun(levels, offset, pos);
            BidiRunsFrom(levels, offset, pos)
            == if run.None? then [] else [run.value] + BidiRunsFrom(levels, offset, next)
    decreases |levels| - pos
  {
    if pos < |levels| && levels[pos] == NO_LEVEL {
      RunsOneByOne(levels, offset, SpanEnd(levels, pos, pos + 1));
    }
  }

  lemma {:induction false} SpanUniform(levels: seq<Level>, start: nat, pos: nat)
    requires start < pos <= |levels| && forall p :: start <= p < pos ==> levels[p] == levels[start]
    ensures var end := SpanEnd(levels, start, pos);
            && (forall p :: start <= p < end ==> levels[p] == levels[start])
            && (end < |levels| ==> levels[end] != levels[start])
    decreases |levels| - pos
  {
    if pos < |levels| && levels[pos] == levels[start] {
      SpanUniform(levels, start, pos + 1);
    }
  }

  /** Run k stays in the line, is uniform and maximal in level, and holds no removed character. */
  predicate BidiRunAt(levels: seq<Level>, offset: nat, runs: seq<BidiRun>, k: nat)
    requires k < |runs|
  {
    var r := runs[k];
    && offset <= r.start < r.end <= offset + |levels|
    && r.level != NO_LEVEL && r.removed == [] && r.direction == DirectionOf(r.level)
    && (forall p :: r.start - offset <= p < r.end - offset ==> levels[p] == r.level)
    && (r.end - offset < |levels| ==> levels[r.end - offset] != r.level)
  }

  predicate CoveredBy(runs: seq<BidiRun>, p: nat) {
    exists k :: 0 <= k < |runs| && runs[k].start <= p < runs[k].end
  }

  /** Runs are ordered and disjoint, never contain a removed character, and cover every
      other character of the line from `pos` on. */
  ghost predicate AreBidiRuns(levels: seq<Level>, offset: nat, pos: nat, runs: seq<BidiRun>) {
    && (forall k {:trigger BidiRunAt(levels, offset, runs, k)} :: 0 <= k < |runs| ==> BidiRunAt(levels, offset, runs, k))
    && (forall k :: 0 <= k < |runs| ==> offset + pos <= runs[k].start)
    && (forall j, k :: 0 <= j < k < |runs| ==> runs[j].end <= runs[k].start)
    && (forall p {:trigger CoveredBy(runs, p)} :: offset + pos <= p < offset + |levels| ==>
          (CoveredBy(runs, p) <==> levels[p - offset] != NO_LEVEL))
  }

  lemma {:induction false} BidiRunsAre(levels: seq<Level>, offset: nat, pos: nat)
    requires pos <= |levels|
    ensures AreBidiRuns(levels, offset, pos, BidiRunsFrom(levels, offset, pos))
    decreases |levels| - pos
  {
    if pos < |levels| {
      var end := SpanEnd(levels, pos, pos + 1);
      SpanUniform(levels, pos, pos + 1);
      BidiRunsAre(levels, offset, end);
      PrependBidiRun(levels, offset, pos, end, BidiRunsFrom(levels, offset, end));
    }
  }

  lemma PrependBidiRun(levels: seq<Level>, offset: nat, pos: nat, end: nat, rest: seq<BidiRun>)
    requires pos < end <= |levels| && AreBidiRuns(levels, offset, end, rest)
    requires forall p :: pos <= p < end ==> levels[p] == levels[pos]
    requires end < |levels| ==> levels[end] != levels[pos]
    ensures AreBidiRuns(levels, offset, pos, RunOfSpan(levels, offset, pos, end) + rest)
  {
    var first := RunOfSpan(levels, offset, pos, end);
    var runs := first + rest;
    if levels[pos] != NO_LEVEL {
      NoneRemoved(levels, offset, pos, end);
    }
    forall k | 0 <= k < |runs| ensures BidiRunAt(levels, offset, runs, k) {
      if k >= |first| {
        assert BidiRunAt(levels, offset, rest, k - |first|);
      }
    }
    forall p | offset + pos <= p < offset + |levels|
      ensures CoveredBy(runs, p) <==> levels[p - offset] != NO_LEVEL
    {
      CoveredByEither(first, rest, p);
      if p < offset + end {
        assert !CoveredBy(rest, p);
        assert levels[p - offset] == levels[pos];
        assert levels[pos] != NO_LEVEL ==> first[0].start <= p < first[0].end;
      } else {
        assert !CoveredBy(first, p);
      }
    }
  }

  /** A stretch of one level that is not NO_LEVEL has no removed positions. */
  lemma {:induction false} NoneRemoved(levels: seq<Level>, offset: nat, start: nat, end: nat)
    requires start <= end <= |levels| && forall p :: start <= p < end ==> levels[p] != NO_LEVEL
    ensures RemovedIn(levels, offset, start, end) == []
  {
    if start < end {
      NoneRemoved(levels, offset, start, end - 1);
    }
  }

  lemma CoveredByEither(first: seq<BidiRun>, rest: seq<BidiRun>, p: nat)
    ensures CoveredBy(first + rest, p) <==> CoveredBy(first, p) || CoveredBy(rest, p)
  {
    var runs := first + rest;
    if CoveredBy(rest, p) {
      var k :| 0 <= k < |rest| && rest[k].start <= p < rest[k].end;
      assert runs[k + |first|] == rest[k];
    }
    if CoveredBy(first, p) {
      var k :| 0 <= k < |first| && first[k].start <= p < first[k].end;
      assert runs[k] == first[k];
    }
    if CoveredBy(runs, p) {
      var k :| 0 <= k < |runs| && runs[k].start <= p < runs[k].end;
      assert runs[k] == if k < |first| then first[k] else rest[k - |first|];
    }
  }
}
