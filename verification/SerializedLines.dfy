/** Hyperlinks taken out of the cells of lines for sending, and put back on arrival. */
module SerializedLines {

  import opened Sequences
  import opened Wrappers

  datatype LinkData = LinkData(uri: string, params: map<string, string>, implicit: bool)

  /** A shared hyperlink; cells hold references, and references are compared by identity. */
  class Hyperlink {
    const data: LinkData

    constructor (data: LinkData)
      ensures this.data == data
    {
      this.data := data;
    }
  }

  /** A cell: its hyperlink, and everything else about it. */
  datatype Cell = Cell(link: Option<Hyperlink>, content: string)

  datatype Line = Line(row: int, cells: seq<Cell>)

  datatype Range = Range(start: nat, end: nat)

  datatype CellCoordinates = CellCoordinates(line: nat, cols: Range)

  datatype LineHyperlink = LineHyperlink(link: LinkData, coords: seq<CellCoordinates>)

  datatype SerializedLines = SerializedLines(lines: seq<Line>, hyperlinks: seq<LineHyperlink>)

  predicate IsEmpty(r: Range) {
    r.start == r.end
  }

  function RangeUnion(a: Range, b: Range): Range {
    if IsEmpty(a) then b
    else if IsEmpty(b) then a
    else Range(if a.start <= b.start then a.start else b.start, if a.end >= b.end then a.end else b.end)
  }

  // ----- streaks -----

  /** A maximal stretch of neighbouring cells that hold the same hyperlink. */
  predicate IsStreak(cells: seq<Cell>, r: Range) {
    && r.start < r.end <= |cells|
    && cells[r.start].link.Some?
    && (forall x :: r.start <= x < r.end ==> cells[x].link == cells[r.start].link)
    && (r.start > 0 ==> cells[r.start - 1].link != cells[r.start].link)
    && (r.end < |cells| ==> cells[r.end].link != cells[r.start].link)
  }

  /** Two cells of a line belong to one streak. */
  predicate SameStreak(cells: seq<Cell>, x: nat, y: nat)
    requires x < |cells| && y < |cells|
  {
    && cells[x].link.Some?
    && forall z :: 0 <= z < |cells| && (x <= z <= y || y <= z <= x) ==> cells[z].link == cells[x].link
  }

  /** Two streaks with a common cell are the same. */
  lemma StreaksDisjoint(cells: seq<Cell>, a: Range, b: Range, x: nat)
    requires IsStreak(cells, a) && IsStreak(cells, b)
    requires a.start <= x < a.end && b.start <= x < b.end
    ensures a == b
  {
    assert cells[x].link == cells[a.start].link == cells[b.start].link;
    assert a.start < b.start ==> a.start <= b.start - 1 < a.end;
    assert b.start < a.start ==> b.start <= a.start - 1 < b.end;
  }

  lemma StreakIsShared(cells: seq<Cell>, r: Range, x: nat, y: nat)
    requires IsStreak(cells, r) && r.start <= x < r.end && y < |cells|
    ensures r.start <= y < r.end <==> SameStreak(cells, x, y)
  {
    assert cells[x].link == cells[r.start].link;
  }

  function StreakEnd(cells: seq<Cell>, start: nat, x: nat): (end: nat)
    requires start < x <= |cells|
    ensures x <= end <= |cells|
    decreases |cells| - x
  {
    if x < |cells| && cells[x].link == cells[start].link then StreakEnd(cells, start, x + 1) else x
  }

  lemma {:induction false} StreakEndIs(cells: seq<Cell>, start: nat, x: nat)
    requires start < x <= |cells|
    ensures var end := StreakEnd(cells, start, x);
      && (forall y :: x <= y < end ==> cells[y].link == cells[start].link)
      && (end < |cells| ==> cells[end].link != cells[start].link)
    decreases |cells| - x
  {
    if x < |cells| && cells[x].link == cells[start].link {
      StreakEndIs(cells, start, x + 1);
    }
  }

  /** The streaks of a line from x on, left to right. */
  function StreaksFrom(cells: seq<Cell>, x: nat): (rs: seq<Range>)
    requires x <= |cells|
    decreases |cells| - x
  {
    if x == |cells| then []
    else if cells[x].link.None? then StreaksFrom(cells, x + 1)
    else [Range(x, StreakEnd(cells, x, x + 1))] + StreaksFrom(cells, StreakEnd(cells, x, x + 1))
  }

  predicate Ascend(rs: seq<Range>) {
    forall i, j :: 0 <= i < j < |rs| ==> rs[i].end <= rs[j].start
  }

  predicate Covered(rs: seq<Range>, x: nat) {
    exists i :: 0 <= i < |rs| && rs[i].start <= x < rs[i].end
  }

  lemma ConsRanges(first: Range, others: seq<Range>)
    requires Ascend(others) && forall r :: r in others ==> first.end <= r.start
    ensures Ascend([first] + others)
    ensures forall y: nat :: Covered(others, y) || first.start <= y < first.end ==> Covered([first] + others, y)
  {
    var all := [first] + others;
    assert forall i :: 0 < i < |all| ==> all[i] == others[i - 1] && all[i] in others;
    forall y: nat | Covered(others, y) || first.start <= y < first.end
      ensures Covered(all, y)
    {
      if first.start <= y < first.end {
        assert all[0] == first;
      } else {
        var i :| 0 <= i < |others| && others[i].start <= y < others[i].end;
        assert all[i + 1] == others[i];
      }
    }
  }

  predicate NoStreakCrosses(cells: seq<Cell>, x: nat) {
    0 < x < |cells| ==> cells[x - 1].link.None? || cells[x - 1].link != cells[x].link
  }

  lemma FirstStreak(cells: seq<Cell>, x: nat)
    requires x < |cells| && NoStreakCrosses(cells, x) && cells[x].link.Some?
    ensures IsStreak(cells, Range(x, StreakEnd(cells, x, x + 1)))
    ensures NoStreakCrosses(cells, StreakEnd(cells, x, x + 1))
  {
    var end := StreakEnd(cells, x, x + 1);
    StreakEndIs(cells, x, x + 1);
    assert cells[end - 1].link == cells[x].link;
  }

  /** What the streaks found from x on are, if no streak crosses x. */
  lemma {:induction false} StreaksFromAre(cells: seq<Cell>, x: nat)
    requires x <= |cells| && NoStreakCrosses(cells, x)
    ensures forall r :: r in StreaksFrom(cells, x) ==> IsStreak(cells, r) && x <= r.start
    ensures Ascend(StreaksFrom(cells, x))
    ensures forall y :: x <= y < |cells| && cells[y].link.Some? ==> Covered(StreaksFrom(cells, x), y)
    decreases |cells| - x
  {
    if x < |cells| {
      if cells[x].link.None? {
        StreaksFromAre(cells, x + 1);
      } else {
        var end := StreakEnd(cells, x, x + 1);
        FirstStreak(cells, x);
        StreaksFromAre(cells, end);
        ConsRanges(Range(x, end), StreaksFrom(cells, end));
      }
    }
  }

  /** The recorded ranges of a line: exactly its streaks, in ascending order. */
  lemma StreaksExact(cells: seq<Cell>)
    ensures Ascend(StreaksFrom(cells, 0))
    ensures forall r :: r in StreaksFrom(cells, 0) <==> IsStreak(cells, r)
    ensures forall y :: 0 <= y < |cells| ==> (cells[y].link.Some? <==> Covered(StreaksFrom(cells, 0), y))
  {
    var rs := StreaksFrom(cells, 0);
    StreaksFromAre(cells, 0);
    forall r | IsStreak(cells, r)
      ensures r in rs
    {
      assert Covered(rs, r.start);
      var i :| 0 <= i < |rs| && rs[i].start <= r.start < rs[i].end;
      assert rs[i] in rs;
      StreaksDisjoint(cells, rs[i], r, r.start);
    }
    forall y | 0 <= y < |cells| && Covered(rs, y)
      ensures cells[y].link.Some?
    {
      var i :| 0 <= i < |rs| && rs[i].start <= y < rs[i].end;
      assert rs[i] in rs;
    }
  }

  // ----- taking hyperlinks out -----

  function Stripped(cells: seq<Cell>): (r: seq<Cell>)
    ensures |r| == |cells|
    ensures forall x :: 0 <= x < |r| ==> r[x] == cells[x].(link := None)
  {
    seq(|cells|, x requires 0 <= x < |cells| => cells[x].(link := None))
  }

  function Recorded(cells: seq<Cell>, line: nat, r: Range): LineHyperlink
    requires r.start < |cells| && cells[r.start].link.Some?
  {
    LineHyperlink(cells[r.start].link.value.data, [CellCoordinates(line, r)])
  }

  function RecordedFrom(cells: seq<Cell>, line: nat, x: nat): (hs: seq<LineHyperlink>)
    requires x <= |cells|
    decreases |cells| - x
  {
    if x == |cells| then []
    else if cells[x].link.None? then RecordedFrom(cells, line, x + 1)
    else
      var end := StreakEnd(cells, x, x + 1);
      [Recorded(cells, line, Range(x, end))] + RecordedFrom(cells, line, end)
  }

  lemma {:induction false} RecordedAre(cells: seq<Cell>, line: nat, x: nat)
    requires x <= |cells|
    ensures var hs, rs := RecordedFrom(cells, line, x), StreaksFrom(cells, x);
      && |hs| == |rs|
      && forall i :: 0 <= i < |hs| ==>
           rs[i].start < |cells| && cells[rs[i].start].link.Some? && hs[i] == Recorded(cells, line, rs[i])
    decreases |cells| - x
  {
    if x < |cells| {
      if cells[x].link.None? {
        RecordedAre(cells, line, x + 1);
      } else {
        RecordedAre(cells, line, StreakEnd(cells, x, x + 1));
      }
    }
  }

  /** The records still to come when the cells before x have been seen and a streak from `open`
      may be under way. */
  function Unrecorded(cells: seq<Cell>, line: nat, x: nat, open: Option<nat>): seq<LineHyperlink>
    requires x <= |cells|
    requires open.Some? ==> open.value < x && cells[open.value].link.Some?
  {
    match open
    case None => RecordedFrom(cells, line, x)
    case Some(start) =>
      var end := StreakEnd(cells, start, x);
      [Recorded(cells, line, Range(start, end))] + RecordedFrom(cells, line, end)
  }

  function StepOpen(cells: seq<Cell>, x: nat, open: Option<nat>): Option<nat>
    requires x < |cells|
    requires open.Some? ==> open.value < x
  {
    if open.Some? && cells[x].link == cells[open.value].link then open
    else if cells[x].link.Some? then Some(x)
    else None
  }

  function StepRecords(cells: seq<Cell>, line: nat, x: nat, open: Option<nat>): seq<LineHyperlink>
    requires x < |cells|
    requires open.Some? ==> open.value < x && cells[open.value].link.Some?
  {
    if open.Some? && cells[x].link != cells[open.value].link
    then [Recorded(cells, line, Range(open.value, x))]
    else []
  }

  /** With no streak under way, a linked cell begins one. */
  lemma UnrecordedFirst(cells: seq<Cell>, line: nat, x: nat)
    requires x < |cells|
    ensures RecordedFrom(cells, line, x) == Unrecorded(cells, line, x + 1, if cells[x].link.Some? then Some(x) else None)
  {
  }

  /** What seeing the cell at x does to the records still to come. */
  lemma UnrecordedStep(cells: seq<Cell>, line: nat, x: nat, open: Option<nat>)
    requires x < |cells|
    requires open.Some? ==> open.value < x && cells[open.value].link.Some?
    ensures Unrecorded(cells, line, x, open)
         == StepRecords(cells, line, x, open) + Unrecorded(cells, line, x + 1, StepOpen(cells, x, open))
  {
    UnrecordedFirst(cells, line, x);
    match open {
      case None =>
        assert StepRecords(cells, line, x, open) == [];
      case Some(start) =>
        if cells[x].link == cells[start].link {
          assert StepRecords(cells, line, x, open) == [] && StepOpen(cells, x, open) == open;
          assert StreakEnd(cells, start, x) == StreakEnd(cells, start, x + 1);
        } else {
          assert StreakEnd(cells, start, x) == x;
          assert StepRecords(cells, line, x, open) == [Recorded(cells, line, Range(start, x))];
        }
    }
  }

  lemma LastRecord(cells: seq<Cell>, line: nat, open: Option<nat>)
    requires open.Some? ==> open.value < |cells| && cells[open.value].link.Some?
    ensures Unrecorded(cells, line, |cells|, open)
         == if open.Some? then [Recorded(cells, line, Range(open.value, |cells|))] else []
  {
  }

  lemma StepKeeps(cells: seq<Cell>, line: nat, x: nat, open: Option<nat>, links: seq<LineHyperlink>)
    requires x < |cells|
    requires open.Some? ==> open.value < x && cells[open.value].link.Some?
    ensures links + Unrecorded(cells, line, x, open)
         == links + StepRecords(cells, line, x, open) + Unrecorded(cells, line, x + 1, StepOpen(cells, x, open))
  {
    var now, later := StepRecords(cells, line, x, open), Unrecorded(cells, line, x + 1, StepOpen(cells, x, open));
    UnrecordedStep(cells, line, x, open);
    Associative(links, now, later);
  }

  /** The streak under way at x: its hyperlink and range. */
  ghost predicate UnderWay(cells: seq<Cell>, x: nat, link: Option<Hyperlink>, r: Range) {
    x <= |cells| &&
    (link.Some? ==> r.start < x && r.end == x && cells[r.start].link == link)
  }

  ghost function Open(link: Option<Hyperlink>, r: Range): Option<nat> {
    if link.Some? then Some(r.start) else None
  }

  /** Records the hyperlink of one cell, which ends a streak, starts one or continues one. */
  method TakeLink(line: nat, ghost cells: seq<Cell>, x: nat, found: Option<Hyperlink>, hyperlinks: seq<LineHyperlink>,
                  link: Option<Hyperlink>, range: Range)
    returns (links: seq<LineHyperlink>, currentLink: Option<Hyperlink>, currentRange: Range)
    requires x < |cells| && found == cells[x].link && UnderWay(cells, x, link, range)
    ensures UnderWay(cells, x + 1, currentLink, currentRange)
    ensures links == hyperlinks + StepRecords(cells, line, x, Open(link, range))
    ensures Open(currentLink, currentRange) == StepOpen(cells, x, Open(link, range))
  {
    links, currentLink, currentRange := hyperlinks, link, range;
    match found {
      case Some(next) =>
        match link {
          case Some(current) =>
            if current == next {
              currentRange := RangeUnion(range, Range(x, x + 1));
            } else {
              links := links + [LineHyperlink(current.data, [CellCoordinates(line, range)])];
              currentRange := Range(x, x + 1);
              currentLink := found;
            }
          case None =>
            currentRange := Range(x, x + 1);
            currentLink := found;
        }
      case None =>
        match link {
          case Some(current) =>
            currentLink := None;
            links := links + [LineHyperlink(current.data, [CellCoordinates(line, range)])];
            currentRange := Range(0, 0);
          case None =>
        }
    }
  }

  method TakeLinks(line: nat, cells: seq<Cell>, hyperlinks: seq<LineHyperlink>)
    returns (stripped: seq<Cell>, links: seq<LineHyperlink>)
    ensures stripped == Stripped(cells)
    ensures links == hyperlinks + RecordedFrom(cells, line, 0)
  {
    stripped, links := cells, hyperlinks;
    var currentLink: Option<Hyperlink> := None;
    var currentRange := Range(0, 0);
    ghost var all := hyperlinks + RecordedFrom(cells, line, 0);
    for x := 0 to |cells|
      invariant |stripped| == |cells|
      invariant forall y :: 0 <= y < |cells| ==> stripped[y] == if y < x then cells[y].(link := None) else cells[y]
      invariant UnderWay(cells, x, currentLink, currentRange)
      invariant all == links + Unrecorded(cells, line, x, Open(currentLink, currentRange))
    {
      var found := stripped[x].link;
      if found.Some? {
        stripped := stripped[x := stripped[x].(link := None)];
      }
      StepKeeps(cells, line, x, Open(currentLink, currentRange), links);
      links, currentLink, currentRange := TakeLink(line, cells, x, found, links, currentLink, currentRange);
    }
    LastRecord(cells, line, Open(currentLink, currentRange));
    match currentLink {
      case Some(link) =>
        links := links + [LineHyperlink(link.data, [CellCoordinates(line, currentRange)])];
      case None =>
        NothingAfter(links);
    }
  }

  function StrippedLines(lines: seq<Line>): (r: seq<Line>)
    ensures |r| == |lines|
    ensures forall i :: 0 <= i < |r| ==> r[i] == Line(lines[i].row, Stripped(lines[i].cells))
  {
    seq(|lines|, i requires 0 <= i < |lines| => Line(lines[i].row, Stripped(lines[i].cells)))
  }

  /** The records of the first n lines. */
  function Records(lines: seq<Line>, n: nat): seq<LineHyperlink>
    requires n <= |lines|
  {
    if n == 0 then [] else Records(lines, n - 1) + RecordedFrom(lines[n - 1].cells, n - 1, 0)
  }

  method FromLines(lines: seq<Line>) returns (r: SerializedLines)
    ensures r == SerializedLines(StrippedLines(lines), Records(lines, |lines|))
  {
    var stripped, hyperlinks := lines, [];
    for i := 0 to |lines|
      invariant |stripped| == |lines| && hyperlinks == Records(lines, i)
      invariant forall j :: 0 <= j < |lines| ==>
        stripped[j] == if j < i then Line(lines[j].row, Stripped(lines[j].cells)) else lines[j]
    {
      var cells: seq<Cell>;
      cells, hyperlinks := TakeLinks(i, stripped[i].cells, hyperlinks);
      stripped := stripped[i := stripped[i].(cells := cells)];
    }
    r := SerializedLines(stripped, hyperlinks);
  }

  // ----- what the records are -----

  predicate IsRecord(lines: seq<Line>, h: LineHyperlink) {
    && |h.coords| == 1
    && h.coords[0].line < |lines|
    && IsStreak(lines[h.coords[0].line].cells, h.coords[0].cols)
    && h.link == lines[h.coords[0].line].cells[h.coords[0].cols.start].link.value.data
  }

  predicate Before(g: LineHyperlink, h: LineHyperlink)
    requires |g.coords| == 1 && |h.coords| == 1
  {
    var a, b := g.coords[0], h.coords[0];
    a.line < b.line || (a.line == b.line && a.cols.end <= b.cols.start)
  }

  /** The record lists the cell at x of a line. */
  predicate Lists(h: LineHyperlink, line: nat, x: nat) {
    |h.coords| == 1 && h.coords[0].line == line && h.coords[0].cols.start <= x < h.coords[0].cols.end
  }

  predicate Listed(hs: seq<LineHyperlink>, line: nat, x: nat) {
    exists k :: 0 <= k < |hs| && Lists(hs[k], line, x)
  }

  ghost predicate BeforeEachOther(hs: seq<LineHyperlink>)
    requires forall k :: 0 <= k < |hs| ==> |hs[k].coords| == 1
  {
    forall j, k :: 0 <= j < k < |hs| ==> Before(hs[j], hs[k])
  }

  /** hs are the records of lines m up to n: each is a streak of such a line, they ascend, and
      every linked cell of these lines is listed. */
  ghost predicate RecordsOf(lines: seq<Line>, m: nat, n: nat, hs: seq<LineHyperlink>)
    requires n <= |lines|
  {
    && (forall k :: 0 <= k < |hs| ==> IsRecord(lines, hs[k]) && m <= hs[k].coords[0].line < n)
    && BeforeEachOther(hs)
    && (forall i: nat, x: nat :: m <= i < n && x < |lines[i].cells| && lines[i].cells[x].link.Some? ==> Listed(hs, i, x))
  }

  lemma StreakRecords(lines: seq<Line>, i: nat, hs: seq<LineHyperlink>, rs: seq<Range>)
    requires i < |lines| && |hs| == |rs| && Ascend(rs)
    requires forall k :: 0 <= k < |rs| ==> IsStreak(lines[i].cells, rs[k]) && hs[k] == Recorded(lines[i].cells, i, rs[k])
    requires forall x :: 0 <= x < |lines[i].cells| && lines[i].cells[x].link.Some? ==> Covered(rs, x)
    ensures RecordsOf(lines, i, i + 1, hs)
  {
    forall x: nat | x < |lines[i].cells| && lines[i].cells[x].link.Some?
      ensures Listed(hs, i, x)
    {
      var k :| 0 <= k < |rs| && rs[k].start <= x < rs[k].end;
      assert Lists(hs[k], i, x);
    }
  }

  lemma LineRecords(lines: seq<Line>, i: nat)
    requires i < |lines|
    ensures RecordsOf(lines, i, i + 1, RecordedFrom(lines[i].cells, i, 0))
  {
    var rs := StreaksFrom(lines[i].cells, 0);
    StreaksExact(lines[i].cells);
    assert forall k :: 0 <= k < |rs| ==> rs[k] in rs;
    RecordedAre(lines[i].cells, i, 0);
    StreakRecords(lines, i, RecordedFrom(lines[i].cells, i, 0), rs);
  }

  lemma ListedInBoth(gs: seq<LineHyperlink>, hs: seq<LineHyperlink>, line: nat, x: nat)
    requires Listed(gs, line, x) || Listed(hs, line, x)
    ensures Listed(gs + hs, line, x)
  {
    if Listed(gs, line, x) {
      var k :| 0 <= k < |gs| && Lists(gs[k], line, x);
      assert (gs + hs)[k] == gs[k];
    } else {
      var k :| 0 <= k < |hs| && Lists(hs[k], line, x);
      assert (gs + hs)[|gs| + k] == hs[k];
    }
  }

  lemma RecordsJoin(lines: seq<Line>, m: nat, n: nat, gs: seq<LineHyperlink>, hs: seq<LineHyperlink>)
    requires m <= n <= |lines| && RecordsOf(lines, 0, m, gs) && RecordsOf(lines, m, n, hs)
    ensures RecordsOf(lines, 0, n, gs + hs)
  {
    var all := gs + hs;
    assert forall k :: 0 <= k < |all| ==> all[k] == if k < |gs| then gs[k] else hs[k - |gs|];
    forall i: nat, x: nat | i < n && x < |lines[i].cells| && lines[i].cells[x].link.Some?
      ensures Listed(all, i, x)
    {
      ListedInBoth(gs, hs, i, x);
    }
  }

  lemma NextRecords(lines: seq<Line>, n: nat, gs: seq<LineHyperlink>)
    requires n < |lines| && RecordsOf(lines, 0, n, gs) && gs == Records(lines, n)
    ensures RecordsOf(lines, 0, n + 1, Records(lines, n + 1))
  {
    LineRecords(lines, n);
    RecordsJoin(lines, n, n + 1, gs, RecordedFrom(lines[n].cells, n, 0));
  }

  lemma {:induction false} RecordsAre(lines: seq<Line>, n: nat)
    requires n <= |lines|
    ensures RecordsOf(lines, 0, n, Records(lines, n))
    decreases n
  {
    if n == 0 {
      assert RecordsOf(lines, 0, 0, []);
    } else {
      var before := n - 1;
      RecordsAre(lines, before);
      NextRecords(lines, before, Records(lines, before));
    }
  }

  // ----- putting hyperlinks back -----

  /** The coordinates cover the cell at x of a line that is `width` cells wide; a range that does
      not fit the line covers nothing. */
  predicate Covers(coords: seq<CellCoordinates>, line: nat, x: nat, width: nat) {
    exists c :: c in coords && c.line == line && c.cols.start <= x < c.cols.end <= width
  }

  /** The last of the first n records that covers a cell. */
  function LastCovering(hs: seq<LineHyperlink>, n: nat, line: nat, x: nat, width: nat): (k: Option<nat>)
    requires n <= |hs|
    ensures k.Some? ==> k.value < n
  {
    if n == 0 then None
    else if Covers(hs[n - 1].coords, line, x, width) then Some(n - 1)
    else LastCovering(hs, n - 1, line, x, width)
  }

  predicate SameShape(a: seq<Line>, b: seq<Line>) {
    |a| == |b| && forall i :: 0 <= i < |a| ==> a[i].row == b[i].row && |a[i].cells| == |b[i].cells|
  }

  method SetRange(cells: seq<Cell>, cols: Range, url: Hyperlink) returns (r: seq<Cell>)
    requires cols.start <= cols.end <= |cells|
    ensures |r| == |cells|
    ensures forall x :: 0 <= x < |r| ==>
      r[x] == if cols.start <= x < cols.end then cells[x].(link := Some(url)) else cells[x]
  {
    r := cells;
    for x := cols.start to cols.end
      invariant |r| == |cells|
      invariant forall y :: 0 <= y < |r| ==>
        r[y] == if cols.start <= y < x then cells[y].(link := Some(url)) else cells[y]
    {
      r := r[x := r[x].(link := Some(url))];
    }
  }

  /** Gives one hyperlink to the cells of its coordinates. */
  method SetLink(lines: seq<Line>, coords: seq<CellCoordinates>, url: Hyperlink) returns (r: seq<Line>)
    ensures SameShape(r, lines)
    ensures forall i, x :: 0 <= i < |r| && 0 <= x < |r[i].cells| ==>
      r[i].cells[x] == if Covers(coords, i, x, |lines[i].cells|) then lines[i].cells[x].(link := Some(url))
                       else lines[i].cells[x]
  {
    r := lines;
    for n := 0 to |coords|
      invariant SameShape(r, lines)
      invariant forall i, x :: 0 <= i < |r| && 0 <= x < |r[i].cells| ==>
        r[i].cells[x] == if Covers(coords[..n], i, x, |lines[i].cells|) then lines[i].cells[x].(link := Some(url))
                         else lines[i].cells[x]
    {
      var coord := coords[n];
      if coord.line < |r| {
        var line := r[coord.line];
        if coord.cols.start <= coord.cols.end <= |line.cells| {
          var cells := SetRange(line.cells, coord.cols, url);
          r := r[coord.line := line.(cells := cells)];
        }
      }
      assert coords[..n + 1] == coords[..n] + [coord];
    }
    assert coords[..|coords|] == coords;
  }

  /** Each record becomes one new shared hyperlink; a cell gets that of the last record that
      covers it, or stays as it is. */
  method ExtractData(s: SerializedLines) returns (lines: seq<Line>, ghost urls: seq<Hyperlink>)
    ensures SameShape(lines, s.lines) && |urls| == |s.hyperlinks|
    ensures forall k :: 0 <= k < |urls| ==> fresh(urls[k]) && urls[k].data == s.hyperlinks[k].link
    ensures forall j, k :: 0 <= j < k < |urls| ==> urls[j] != urls[k]
    ensures forall i, x :: 0 <= i < |lines| && 0 <= x < |lines[i].cells| ==>
      lines[i].cells[x] == match LastCovering(s.hyperlinks, |s.hyperlinks|, i, x, |lines[i].cells|)
                           case None => s.lines[i].cells[x]
                           case Some(k) => s.lines[i].cells[x].(link := Some(urls[k]))
  {
    lines, urls := s.lines, [];
    if |s.hyperlinks| == 0 {
      return;
    }
    for n := 0 to |s.hyperlinks|
      invariant SameShape(lines, s.lines) && |urls| == n
      invariant forall k :: 0 <= k < n ==> fresh(urls[k]) && urls[k].data == s.hyperlinks[k].link
      invariant forall j, k :: 0 <= j < k < n ==> urls[j] != urls[k]
      invariant forall i, x :: 0 <= i < |lines| && 0 <= x < |lines[i].cells| ==>
        lines[i].cells[x] == match LastCovering(s.hyperlinks, n, i, x, |lines[i].cells|)
                             case None => s.lines[i].cells[x]
                             case Some(k) => s.lines[i].cells[x].(link := Some(urls[k]))
    {
      var url := new Hyperlink(s.hyperlinks[n].link);
      lines := SetLink(lines, s.hyperlinks[n].coords, url);
      urls := urls + [url];
    }
  }

  // ----- the round trip -----

  lemma {:induction false} LastCoveringIs(hs: seq<LineHyperlink>, n: nat, k: nat, line: nat, x: nat, width: nat)
    requires k < n <= |hs| && Covers(hs[k].coords, line, x, width)
    requires forall j :: k < j < n ==> !Covers(hs[j].coords, line, x, width)
    ensures LastCovering(hs, n, line, x, width) == Some(k)
    decreases n
  {
    if k < n - 1 {
      LastCoveringIs(hs, n - 1, k, line, x, width);
    }
  }

  lemma {:induction false} NoneCovers(hs: seq<LineHyperlink>, n: nat, line: nat, x: nat, width: nat)
    requires n <= |hs|
    requires forall j :: 0 <= j < n ==> !Covers(hs[j].coords, line, x, width)
    ensures LastCovering(hs, n, line, x, width).None?
    decreases n
  {
    if n > 0 {
      NoneCovers(hs, n - 1, line, x, width);
    }
  }

  lemma CoversIsLists(lines: seq<Line>, h: LineHyperlink, i: nat, x: nat)
    requires IsRecord(lines, h) && i < |lines| && x < |lines[i].cells|
    ensures Covers(h.coords, i, x, |lines[i].cells|) <==> Lists(h, i, x)
  {
    assert h.coords[0] in h.coords;
  }

  /** The record that decides about a cell after extraction. */
  function Owner(lines: seq<Line>, i: nat, x: nat): Option<nat>
    requires i < |lines| && x < |lines[i].cells|
  {
    var hs := Records(lines, |lines|);
    LastCovering(hs, |hs|, i, x, |lines[i].cells|)
  }

  lemma ListedOnce(hs: seq<LineHyperlink>, line: nat, x: nat, j: nat, k: nat)
    requires forall j :: 0 <= j < |hs| ==> |hs[j].coords| == 1
    requires BeforeEachOther(hs) && j < |hs| && k < |hs|
    requires Lists(hs[j], line, x) && Lists(hs[k], line, x)
    ensures j == k
  {
  }

  lemma LinkedOwner(lines: seq<Line>, hs: seq<LineHyperlink>, i: nat, x: nat)
    requires RecordsOf(lines, 0, |lines|, hs)
    requires i < |lines| && x < |lines[i].cells|
    requires lines[i].cells[x].link.Some?
    ensures var k := LastCovering(hs, |hs|, i, x, |lines[i].cells|);
      k.Some? && Lists(hs[k.value], i, x)
  {
    var width := |lines[i].cells|;
    assert Listed(hs, i, x);
    var k: nat :| k < |hs| && Lists(hs[k], i, x);
    CoversIsLists(lines, hs[k], i, x);
    forall j | k < j < |hs|
      ensures !Covers(hs[j].coords, i, x, width)
    {
      CoversIsLists(lines, hs[j], i, x);
      if Lists(hs[j], i, x) {
        ListedOnce(hs, i, x, j, k);
      }
    }
    LastCoveringIs(hs, |hs|, k, i, x, width);
  }

  lemma UnlinkedOwner(lines: seq<Line>, hs: seq<LineHyperlink>, i: nat, x: nat)
    requires RecordsOf(lines, 0, |lines|, hs)
    requires i < |lines| && x < |lines[i].cells|
    requires lines[i].cells[x].link.None?
    ensures LastCovering(hs, |hs|, i, x, |lines[i].cells|).None?
  {
    var width := |lines[i].cells|;
    forall j | 0 <= j < |hs|
      ensures !Covers(hs[j].coords, i, x, width)
    {
      CoversIsLists(lines, hs[j], i, x);
    }
    NoneCovers(hs, |hs|, i, x, width);
  }

  /** A cell has a deciding record exactly if it had a hyperlink; the record is the cell's streak
      and holds the value of its hyperlink. */
  lemma OwnerIsStreak(lines: seq<Line>, i: nat, x: nat)
    requires i < |lines| && x < |lines[i].cells|
    ensures var hs, k := Records(lines, |lines|), Owner(lines, i, x);
      && (k.Some? <==> lines[i].cells[x].link.Some?)
      && (k.Some? ==> IsRecord(lines, hs[k.value]) && Lists(hs[k.value], i, x)
                      && hs[k.value].link == lines[i].cells[x].link.value.data)
  {
    RecordsAre(lines, |lines|);
    if lines[i].cells[x].link.Some? {
      LinkedOwner(lines, Records(lines, |lines|), i, x);
    } else {
      UnlinkedOwner(lines, Records(lines, |lines|), i, x);
    }
  }

  lemma SameRecord(hs: seq<LineHyperlink>, k: nat, l: nat)
    requires forall j :: 0 <= j < |hs| ==> |hs[j].coords| == 1
    requires BeforeEachOther(hs) && k < |hs| && l < |hs|
    requires hs[k].coords[0] == hs[l].coords[0] && hs[k].coords[0].cols.start < hs[k].coords[0].cols.end
    ensures k == l
  {
  }

  /** Two cells share a deciding record exactly if they belong to one streak of one line. */
  lemma SharedOwner(lines: seq<Line>, i: nat, x: nat, j: nat, y: nat)
    requires i < |lines| && x < |lines[i].cells| && j < |lines| && y < |lines[j].cells|
    requires lines[i].cells[x].link.Some? && lines[j].cells[y].link.Some?
    ensures Owner(lines, i, x) == Owner(lines, j, y) <==> i == j && SameStreak(lines[i].cells, x, y)
  {
    var hs := Records(lines, |lines|);
    OwnerIsStreak(lines, i, x);
    OwnerIsStreak(lines, j, y);
    var k, l := Owner(lines, i, x).value, Owner(lines, j, y).value;
    if i == j {
      StreakIsShared(lines[i].cells, hs[k].coords[0].cols, x, y);
      RecordsAre(lines, |lines|);
      if SameStreak(lines[i].cells, x, y) {
        StreaksDisjoint(lines[i].cells, hs[k].coords[0].cols, hs[l].coords[0].cols, y);
        SameRecord(hs, k, l);
      }
    }
  }

  /** The lines after extraction, cell by cell. */
  ghost predicate Restored(lines: seq<Line>, urls: seq<Hyperlink>, r: seq<Line>) {
    && SameShape(r, lines)
    && (forall j, k :: 0 <= j < k < |urls| ==> urls[j] != urls[k])
    && forall i: nat, x: nat :: i < |r| && x < |r[i].cells| ==> CellRestored(lines, urls, r, i, x)
  }

  ghost predicate CellRestored(lines: seq<Line>, urls: seq<Hyperlink>, r: seq<Line>, i: nat, x: nat)
    requires i < |r| && i < |lines| && x < |r[i].cells| && x < |lines[i].cells|
  {
    match Owner(lines, i, x)
    case Some(k) =>
      && lines[i].cells[x].link.Some?
      && k < |urls| && urls[k].data == lines[i].cells[x].link.value.data
      && r[i].cells[x] == lines[i].cells[x].(link := Some(urls[k]))
    case None => lines[i].cells[x].link.None? && r[i].cells[x] == lines[i].cells[x]
  }

  lemma LinksShared(lines: seq<Line>, urls: seq<Hyperlink>, r: seq<Line>, i: nat, x: nat, j: nat, y: nat)
    requires Restored(lines, urls, r)
    requires i < |r| && x < |r[i].cells| && j < |r| && y < |r[j].cells|
    requires r[i].cells[x].link.Some? && r[j].cells[y].link.Some?
    ensures r[i].cells[x].link == r[j].cells[y].link <==> i == j && SameStreak(lines[i].cells, x, y)
  {
    assert CellRestored(lines, urls, r, i, x) && CellRestored(lines, urls, r, j, y);
    SharedOwner(lines, i, x, j, y);
  }

  lemma ExtractionRestores(lines: seq<Line>, urls: seq<Hyperlink>, r: seq<Line>)
    requires SameShape(r, StrippedLines(lines)) && |urls| == |Records(lines, |lines|)|
    requires forall k :: 0 <= k < |urls| ==> urls[k].data == Records(lines, |lines|)[k].link
    requires forall j, k :: 0 <= j < k < |urls| ==> urls[j] != urls[k]
    requires forall i, x :: 0 <= i < |r| && 0 <= x < |r[i].cells| ==>
      r[i].cells[x] == match Owner(lines, i, x)
                       case None => StrippedLines(lines)[i].cells[x]
                       case Some(k) => StrippedLines(lines)[i].cells[x].(link := Some(urls[k]))
    ensures Restored(lines, urls, r)
  {
    forall i: nat, x: nat | i < |r| && x < |r[i].cells|
      ensures CellRestored(lines, urls, r, i, x)
    {
      OwnerIsStreak(lines, i, x);
    }
  }

  /** Sending and receiving: every cell gets its hyperlink's value back and nothing else about it
      changes; two cells share a hyperlink afterwards exactly if they belong to one streak. */
  method RoundTrip(lines: seq<Line>) returns (r: seq<Line>)
    ensures SameShape(r, lines)
    ensures forall i, x :: 0 <= i < |r| && 0 <= x < |r[i].cells| ==>
      && r[i].cells[x].content == lines[i].cells[x].content
      && (r[i].cells[x].link.Some? <==> lines[i].cells[x].link.Some?)
      && (r[i].cells[x].link.Some? ==> r[i].cells[x].link.value.data == lines[i].cells[x].link.value.data)
    ensures forall i, x, j, y ::
      0 <= i < |r| && 0 <= x < |r[i].cells| && 0 <= j < |r| && 0 <= y < |r[j].cells| &&
      r[i].cells[x].link.Some? && r[j].cells[y].link.Some? ==>
      (r[i].cells[x].link == r[j].cells[y].link <==> i == j && SameStreak(lines[i].cells, x, y))
  {
    var s := FromLines(lines);
    ghost var urls: seq<Hyperlink>;
    r, urls := ExtractData(s);
    ExtractionRestores(lines, urls, r);
    forall i, x | 0 <= i < |r| && 0 <= x < |r[i].cells|
      ensures
        && r[i].cells[x].content == lines[i].cells[x].content
        && (r[i].cells[x].link.Some? <==> lines[i].cells[x].link.Some?)
        && (r[i].cells[x].link.Some? ==> r[i].cells[x].link.value.data == lines[i].cells[x].link.value.data)
    {
      assert CellRestored(lines, urls, r, i, x);
    }
    forall i, x, j, y | 0 <= i < |r| && 0 <= x < |r[i].cells| && 0 <= j < |r| && 0 <= y < |r[j].cells| &&
                        r[i].cells[x].link.Some? && r[j].cells[y].link.Some?
      ensures r[i].cells[x].link == r[j].cells[y].link <==> i == j && SameStreak(lines[i].cells, x, y)
    {
      LinksShared(lines, urls, r, i, x, j, y);
    }
  }
}
