/** BD16 and N0 as UAX #9 words them: over the classes and characters of one sequence. */
module BracketStatements {
  import opened Wrappers
  import opened BidiTypes
  import opened WeakRules
  import opened NeutralRules
  import opened Brackets
  import opened BracketRules
  import opened ChainOutcomes
  import opened RuleStatements

  // ----- BD16 -----

  /** Character k is an opening, or a closing, paired bracket: its class is still ON. */
  predicate Opening(v: Classes, chars: seq<char>, table: BracketTable, k: nat) {
    k < |v| == |chars| && v[k].ON? && chars[k] in table && table[chars[k]].1.Open?
  }

  predicate Closing(v: Classes, chars: seq<char>, table: BracketTable, k: nat) {
    k < |v| == |chars| && v[k].ON? && chars[k] in table && table[chars[k]].1.Close?
  }

  /** The bracket at c closes the one at o: it is the other one of its pair, or canonically equivalent
      to that. */
  predicate Fits(chars: seq<char>, table: BracketTable, o: nat, c: nat) {
    && o < |chars| && c < |chars| && chars[o] in table
    && var partner := table[chars[o]].0;
       partner == chars[c] || {partner, chars[c]} == {'\U{232A}', '\U{3009}'}
  }

  /** No pair that ends before c begins at o or encloses o. */
  predicate Waiting(pairs: seq<Pair>, o: nat, c: nat) {
    o < c && forall p :: p in pairs && p.closing < c ==> !(p.opening <= o < p.closing)
  }

  ghost predicate IsPair(v: Classes, chars: seq<char>, table: BracketTable, pairs: seq<Pair>, o: nat, c: nat) {
    && Opening(v, chars, table, o) && Closing(v, chars, table, c) && Waiting(pairs, o, c) && Fits(chars, table, o, c)
    && forall h: nat :: o < h < c && Opening(v, chars, table, h) && Waiting(pairs, h, c) ==> !Fits(chars, table, h, c)
  }

  lemma MarksState(v: Classes, chars: seq<char>, table: BracketTable, o: nat, c: nat)
    requires |v| == |chars| && o < |v| && c < |v|
    ensures var marks := MarksOf(v, chars, table);
            && (marks[o].OpenMark? <==> Opening(v, chars, table, o))
            && (marks[c].CloseMark? <==> Closing(v, chars, table, c))
            && (marks[o].OpenMark? && marks[c].CloseMark? ==>
                  (Compatible(marks[o].closing, marks[c].bracket) <==> Fits(chars, table, o, c)))
  {
    if Opening(v, chars, table, o) {
      var partner, close := table[chars[o]].0, chars[c];
      assert {partner, close} == {'\U{232A}', '\U{3009}'} ==> partner in {'\U{232A}', '\U{3009}'} && '\U{232A}' in {partner, close} && '\U{3009}' in {partner, close};
    }
  }

  lemma WaitingIsPending(v: Classes, chars: seq<char>, table: BracketTable, pairs: seq<Pair>, o: nat, c: nat)
    requires |v| == |chars| && o < c < |v|
    ensures Pending(MarksOf(v, chars, table), pairs, o, c)
       <==> Opening(v, chars, table, o) && Waiting(pairs, o, c)
  {
    MarksState(v, chars, table, o, c);
    UnclaimedIsWaiting(pairs, o, c);
  }

  lemma PairsState(v: Classes, chars: seq<char>, table: BracketTable, pairs: seq<Pair>, o: nat, c: nat)
    requires |v| == |chars|
    ensures Pairs(MarksOf(v, chars, table), pairs, o, c) <==> IsPair(v, chars, table, pairs, o, c)
  {
    if o < c < |v| {
      forall h: nat | h < c
        ensures Pending(MarksOf(v, chars, table), pairs, h, c) <==> Opening(v, chars, table, h) && Waiting(pairs, h, c)
        ensures MarksOf(v, chars, table)[c].CloseMark? <==> Closing(v, chars, table, c)
        ensures MarksOf(v, chars, table)[h].OpenMark? && MarksOf(v, chars, table)[c].CloseMark? ==>
                (Compatible(MarksOf(v, chars, table)[h].closing, MarksOf(v, chars, table)[c].bracket) <==> Fits(chars, table, h, c))
      {
        MarksState(v, chars, table, h, c);
        WaitingIsPending(v, chars, table, pairs, h, c);
      }
    }
  }

  /** BD16: the pairs N0 resolves are exactly the bracket pairs, in the order of their opening
      brackets. */
  lemma PairsAreBracketPairs(v: Classes, chars: seq<char>, table: BracketTable)
    requires |v| == |chars| && Pairing(MarksOf(v, chars, table), |v|).Some?
    ensures var pairs := SortedPairs(v, chars, table);
            && SortedByOpening(pairs) && AllApart(pairs)
            && forall o: nat, c: nat :: Pair(o, c) in pairs <==> IsPair(v, chars, table, pairs, o, c)
  {
    var marks, sorted := MarksOf(v, chars, table), SortedPairs(v, chars, table);
    var pairs := Pairing(marks, |v|).value.pairs;
    PairingIsBd16(marks, |v|);
    SortSorts(pairs);
    ChainPairsApart(marks);
    forall p ensures p in pairs <==> p in sorted {
      assert p in multiset(pairs) <==> p in multiset(sorted);
    }
    forall o: nat, c: nat ensures Pair(o, c) in sorted <==> IsPair(v, chars, table, sorted, o, c) {
      PairsState(v, chars, table, pairs, o, c);
      assert c < |v| ==> (Pairs(marks, pairs, o, c) <==> Pair(o, c) in pairs);
      forall h: nat ensures Waiting(pairs, h, c) <==> Waiting(sorted, h, c) {
      }
    }
  }

  // ----- overflow -----

  /** The opening brackets before c that still wait for their partner. */
  ghost function WaitingAt(v: Classes, chars: seq<char>, table: BracketTable, pairs: seq<Pair>, c: nat): set<nat> {
    set o: nat | o < c && Opening(v, chars, table, o) && Waiting(pairs, o, c)
  }

  lemma {:induction false} PositionsCount(openers: seq<Opener>, positions: set<nat>)
    requires forall i, j :: 0 <= i < j < |openers| ==> openers[i].pos < openers[j].pos
    requires forall p: nat :: p in positions <==> exists i :: 0 <= i < |openers| && openers[i].pos == p
    ensures |positions| == |openers|
    decreases |openers|
  {
    if openers == [] {
      assert positions == {};
    } else {
      var last := |openers| - 1;
      var front, p := openers[..last], openers[last].pos;
      forall q: nat ensures q in positions - {p} <==> exists i :: 0 <= i < |front| && front[i].pos == q {
        if q in positions - {p} {
          var i :| 0 <= i < |openers| && openers[i].pos == q;
          assert front[i].pos == q;
        }
        if i :| 0 <= i < |front| && front[i].pos == q {
          assert openers[i].pos == q;
        }
      }
      PositionsCount(front, positions - {p});
    }
  }

  /** The stack holds as many brackets as wait. */
  lemma StackCounts(v: Classes, chars: seq<char>, table: BracketTable, c: nat)
    requires |v| == |chars| && c <= |v| && Pairing(MarksOf(v, chars, table), c).Some?
    ensures var s := Pairing(MarksOf(v, chars, table), c).value;
            |WaitingAt(v, chars, table, s.pairs, c)| == |s.openers|
  {
    var marks := MarksOf(v, chars, table);
    var s := Pairing(marks, c).value;
    PairingIsBd16(marks, c);
    var positions := WaitingAt(v, chars, table, s.pairs, c);
    forall p: nat ensures p in positions <==> exists i :: 0 <= i < |s.openers| && s.openers[i].pos == p {
      if p < c {
        MarkOfOpening(v, chars, table, p);
        UnclaimedIsWaiting(s.pairs, p, c);
        if marks[p].OpenMark? && Opener(marks[p].closing, p) in s.openers {
          var i :| 0 <= i < |s.openers| && s.openers[i] == Opener(marks[p].closing, p);
        }
        if i :| 0 <= i < |s.openers| && s.openers[i].pos == p {
          assert s.openers[i] == Opener(marks[p].closing, p);
        }
      }
    }
    PositionsCount(s.openers, positions);
  }

  lemma MarkOfOpening(v: Classes, chars: seq<char>, table: BracketTable, p: nat)
    requires |v| == |chars| && p < |v|
    ensures MarksOf(v, chars, table)[p].OpenMark? <==> Opening(v, chars, table, p)
  {
  }

  lemma UnclaimedIsWaiting(pairs: seq<Pair>, o: nat, c: nat)
    requires o < c
    ensures Unclaimed(pairs, o, c) <==> Waiting(pairs, o, c)
  {
    if Unclaimed(pairs, o, c) {
      forall p | p in pairs && p.closing < c ensures !(p.opening <= o < p.closing) {
        var i :| 0 <= i < |pairs| && pairs[i] == p;
      }
    }
    if Waiting(pairs, o, c) {
      forall i | 0 <= i < |pairs| && pairs[i].closing < c ensures !(pairs[i].opening <= o < pairs[i].closing) {
        assert pairs[i] in pairs;
      }
    }
  }

  /** The opening bracket at k is the first to find 63 others waiting. */
  ghost predicate FindsFull(v: Classes, chars: seq<char>, table: BracketTable, k: nat)
    requires |v| == |chars|
  {
    && Opening(v, chars, table, k) && Pairing(MarksOf(v, chars, table), k).Some?
    && |WaitingAt(v, chars, table, Pairing(MarksOf(v, chars, table), k).value.pairs, k)| >= 63
  }

  lemma FullStops(v: Classes, chars: seq<char>, table: BracketTable, k: nat, next: nat)
    requires |v| == |chars| && k < |v| && next == k + 1 && Pairing(MarksOf(v, chars, table), k).Some?
    ensures Pairing(MarksOf(v, chars, table), next).None? <==> FindsFull(v, chars, table, k)
  {
    StackCounts(v, chars, table, k);
    MarkOfOpening(v, chars, table, k);
  }

  lemma {:induction false} FirstFull(v: Classes, chars: seq<char>, table: BracketTable, n: nat) returns (k: nat)
    requires |v| == |chars| && n <= |v| && Pairing(MarksOf(v, chars, table), n).None?
    ensures FindsFull(v, chars, table, k)
    decreases n
  {
    var j := n - 1;
    if Pairing(MarksOf(v, chars, table), j).None? {
      k := FirstFull(v, chars, table, j);
    } else {
      k := j;
      FullStops(v, chars, table, j, n);
    }
  }

  /** N0 gives up on a sequence exactly if an opening bracket finds 63 others waiting. */
  lemma OverflowStates(v: Classes, nsm: seq<bool>, chars: seq<char>, table: BracketTable, level: Level, sos: BidiClass)
    requires |nsm| == |v| == |chars|
    ensures N0(v, nsm, chars, table, level, sos).None? <==> exists k: nat :: FindsFull(v, chars, table, k)
  {
    var marks := MarksOf(v, chars, table);
    if Pairing(marks, |v|).None? {
      var k := FirstFull(v, chars, table, |v|);
    }
    if k: nat :| FindsFull(v, chars, table, k) {
      FullStops(v, chars, table, k, k + 1);
      PairingStops(marks, k + 1, |v|);
    }
  }

  // ----- N0 -----

  /** Something of direction d stands strictly between a and b; numbers count as R. */
  predicate ShowsIn(w: Classes, a: nat, b: nat, d: BidiClass) {
    exists k :: a < k < b && k < |w| && Shows(w[k]) == d
  }

  function Embedding(level: Level): BidiClass {
    if level % 2 == 1 then R else L
  }

  function Other(d: BidiClass): BidiClass {
    if d == L then R else L
  }

  /** N0 b and c: the pair gets direction d. */
  ghost predicate Gets(w: Classes, pair: Pair, level: Level, sos: BidiClass, d: BidiClass)
    requires PairIn(pair, |w|)
  {
    var e := Embedding(level);
    if ShowsIn(w, pair.opening, pair.closing, e) then d == e
    else
      && ShowsIn(w, pair.opening, pair.closing, Other(e))
      && forall a :: Last(AtSide, w, pair.opening, a) ==>
                     d == if Shows(ClassAt(w, a, sos)) == Other(e) then Other(e) else e
  }

  /** N0 d: nothing strong inside. */
  predicate Keeps(w: Classes, pair: Pair)
  {
    !ShowsIn(w, pair.opening, pair.closing, L) && !ShowsIn(w, pair.opening, pair.closing, R)
  }

  /** Position x is a nonspacing mark behind the bracket at b, with only marks and deleted characters
      between. */
  predicate MarkBehind(w: Classes, nsm: seq<bool>, b: nat, x: nat, end: nat)
    requires |nsm| == |w|
  {
    b < x < end <= |w| && nsm[x] && forall y :: b < y < x ==> nsm[y] || Deleted(w[y])
  }

  /** Both brackets and the marks behind them become d, and nothing else changes. */
  predicate Becomes(w: Classes, w': Classes, nsm: seq<bool>, pair: Pair, d: BidiClass)
    requires |nsm| == |w| && PairIn(pair, |w|)
  {
    && |w'| == |w|
    && forall x :: 0 <= x < |w| ==>
         w'[x] == if x == pair.opening || x == pair.closing || MarkBehind(w, nsm, pair.opening, x, pair.closing)
                     || MarkBehind(w, nsm, pair.closing, x, |w|) then d else w[x]
  }

  /** What the turn of one pair does. */
  ghost predicate Turn(w: Classes, w': Classes, nsm: seq<bool>, pair: Pair, level: Level, sos: BidiClass)
    requires |nsm| == |w| && PairIn(pair, |w|)
  {
    if Keeps(w, pair) then w' == w
    else exists d :: Gets(w, pair, level, sos, d) && Becomes(w, w', nsm, pair, d)
  }

  lemma ShowsIsStrong(w: Classes, a: nat, b: nat)
    ensures Encloses(w, a, b, LTR) <==> ShowsIn(w, a, b, L)
    ensures Encloses(w, a, b, RTL) <==> ShowsIn(w, a, b, R)
  {
    forall k | 0 <= k < |w|
      ensures StrongDirection(w[k]) == Some(LTR) <==> Shows(w[k]) == L
      ensures StrongDirection(w[k]) == Some(RTL) <==> Shows(w[k]) == R
    {
    }
  }

  lemma DirectionStates(w: Classes, pair: Pair, level: Level, sos: BidiClass)
    requires PairIn(pair, |w|) && 0 <= level && (sos.L? || sos.R?)
    ensures match PairDirection(w, pair, DirectionOf(level), sos)
            case Some(d) => !Keeps(w, pair) && Gets(w, pair, level, sos, d.AsBidiClass())
            case None => Keeps(w, pair)
  {
    ShowsIsStrong(w, pair.opening, pair.closing);
    var a := LastExists(AtSide, w, pair.opening);
    PrevSideIsLast(w, pair.opening, sos, a);
  }

  lemma {:induction false} FixMarksStates(v: Classes, nsm: seq<bool>, from: nat, end: nat, bc: BidiClass)
    requires |nsm| == |v| && 0 < from <= end <= |v|
    ensures var r := FixMarks(v, nsm, from, end, bc);
            forall x :: 0 <= x < |v| ==> r[x] == if MarkBehind(v, nsm, from - 1, x, end) then bc else v[x]
    decreases end - from
  {
    if from < end {
      var next := from + 1;
      if nsm[from] {
        var w := v[from := bc];
        FixMarksStates(w, nsm, next, end, bc);
        forall x | 0 <= x < |v| ensures x != from ==> (MarkBehind(w, nsm, from, x, end) <==> MarkBehind(v, nsm, from - 1, x, end)) {
        }
      } else if Deleted(v[from]) {
        FixMarksStates(v, nsm, next, end, bc);
        forall x | 0 <= x < |v|
          ensures MarkBehind(v, nsm, from, x, end) <==> MarkBehind(v, nsm, from - 1, x, end)
        {
        }
      }
    }
  }

  lemma SetPairStates(w: Classes, nsm: seq<bool>, pair: Pair, d: Direction)
    requires |nsm| == |w| && PairIn(pair, |w|)
    ensures Becomes(w, SetPair(w, nsm, pair, d), nsm, pair, d.AsBidiClass())
  {
    var bc := d.AsBidiClass();
    var brackets := w[pair.opening := bc][pair.closing := bc];
    var first := FixMarks(brackets, nsm, pair.opening + 1, pair.closing, bc);
    FixMarksStates(brackets, nsm, pair.opening + 1, pair.closing, bc);
    FixMarksStates(first, nsm, pair.closing + 1, |w|, bc);
    forall x | 0 <= x < |w|
      ensures MarkBehind(brackets, nsm, pair.opening, x, pair.closing) <==> MarkBehind(w, nsm, pair.opening, x, pair.closing)
      ensures MarkBehind(first, nsm, pair.closing, x, |w|) <==> MarkBehind(w, nsm, pair.closing, x, |w|)
    {
    }
  }

  lemma TurnStates(w: Classes, nsm: seq<bool>, pair: Pair, level: Level, sos: BidiClass)
    requires |nsm| == |w| && PairIn(pair, |w|) && 0 <= level && (sos.L? || sos.R?)
    ensures Turn(w, ResolvePair(w, nsm, pair, DirectionOf(level), sos), nsm, pair, level, sos)
  {
    DirectionStates(w, pair, level, sos);
    match PairDirection(w, pair, DirectionOf(level), sos)
    case None =>
    case Some(d) => SetPairStates(w, nsm, pair, d);
  }

  /** Everything N0 does to a sequence: pair by pair, each turn on what the one before left. */
  ghost predicate N0Run(v: Classes, r: Classes, nsm: seq<bool>, pairs: seq<Pair>, level: Level, sos: BidiClass, ws: seq<Classes>)
    requires |nsm| == |v| && PairsIn(pairs, |v|)
  {
    && |ws| == |pairs| + 1 && ws[0] == v && ws[|pairs|] == r
    && (forall i :: 0 <= i <= |pairs| ==> |ws[i]| == |v|)
    && forall i :: 0 <= i < |pairs| ==> Turn(ws[i], ws[i + 1], nsm, pairs[i], level, sos)
  }

  /** The classes at each turn. */
  function Turns(v: Classes, nsm: seq<bool>, pairs: seq<Pair>, level: Level, sos: BidiClass): (ws: seq<Classes>)
    requires |nsm| == |v| && PairsIn(pairs, |v|)
    ensures |ws| == |pairs| + 1
  {
    seq(|pairs| + 1, i requires 0 <= i <= |pairs| => ResolvePairs(v, nsm, pairs, i, DirectionOf(level), sos))
  }

  lemma TurnAt(v: Classes, nsm: seq<bool>, pairs: seq<Pair>, level: Level, sos: BidiClass, i: nat, next: nat)
    requires |nsm| == |v| && PairsIn(pairs, |v|) && 0 <= level && (sos.L? || sos.R?) && i < |pairs| && next == i + 1
    ensures PairIn(pairs[i], |v|)
    ensures Turn(ResolvePairs(v, nsm, pairs, i, DirectionOf(level), sos),
                 ResolvePairs(v, nsm, pairs, next, DirectionOf(level), sos), nsm, pairs[i], level, sos)
  {
    var w := ResolvePairs(v, nsm, pairs, i, DirectionOf(level), sos);
    ResolvePairsStep(v, nsm, pairs, i, next, DirectionOf(level), sos, w);
    assert PairIn(pairs[i], |v|);
    TurnStates(w, nsm, pairs[i], level, sos);
  }

  /** N0 on a sequence: the bracket pairs take their turns in the order of their opening brackets. */
  lemma N0States(v: Classes, nsm: seq<bool>, chars: seq<char>, table: BracketTable, level: Level, sos: BidiClass)
    requires |nsm| == |v| == |chars| && 0 <= level && (sos.L? || sos.R?)
    requires N0(v, nsm, chars, table, level, sos).Some?
    ensures var pairs := SortedPairs(v, chars, table);
            N0Run(v, N0(v, nsm, chars, table, level, sos).value, nsm, pairs, level, sos, Turns(v, nsm, pairs, level, sos))
  {
    var pairs := SortedPairs(v, chars, table);
    var ws := Turns(v, nsm, pairs, level, sos);
    forall i | 0 <= i < |pairs| ensures Turn(ws[i], ws[i + 1], nsm, pairs[i], level, sos) {
      TurnAt(v, nsm, pairs, level, sos, i, i + 1);
    }
  }

  lemma BecomesOne(w: Classes, nsm: seq<bool>, pair: Pair, d: BidiClass, a: Classes, b: Classes)
    requires |nsm| == |w| && PairIn(pair, |w|) && Becomes(w, a, nsm, pair, d) && Becomes(w, b, nsm, pair, d)
    ensures a == b
  {
  }

  lemma GetsOne(w: Classes, pair: Pair, level: Level, sos: BidiClass, d: BidiClass, d': BidiClass)
    requires PairIn(pair, |w|) && Gets(w, pair, level, sos, d) && Gets(w, pair, level, sos, d')
    ensures d == d'
  {
    var a := LastExists(AtSide, w, pair.opening);
  }

  lemma TurnOne(w: Classes, nsm: seq<bool>, pair: Pair, level: Level, sos: BidiClass, a: Classes, b: Classes)
    requires |nsm| == |w| && PairIn(pair, |w|)
    requires Turn(w, a, nsm, pair, level, sos) && Turn(w, b, nsm, pair, level, sos)
    ensures a == b
  {
    if !Keeps(w, pair) {
      var d :| Gets(w, pair, level, sos, d) && Becomes(w, a, nsm, pair, d);
      var d' :| Gets(w, pair, level, sos, d') && Becomes(w, b, nsm, pair, d');
      GetsOne(w, pair, level, sos, d, d');
      BecomesOne(w, nsm, pair, d, a, b);
    }
  }

  /** This description leaves no choice. */
  lemma {:induction false} N0RunUnique(v: Classes, r: Classes, r': Classes, nsm: seq<bool>, pairs: seq<Pair>, level: Level,
                                       sos: BidiClass, ws: seq<Classes>, ws': seq<Classes>, i: nat)
    requires |nsm| == |v| && PairsIn(pairs, |v|) && i <= |pairs|
    requires N0Run(v, r, nsm, pairs, level, sos, ws) && N0Run(v, r', nsm, pairs, level, sos, ws')
    ensures ws[i] == ws'[i]
    decreases i
  {
    if i > 0 {
      var j := i - 1;
      N0RunUnique(v, r, r', nsm, pairs, level, sos, ws, ws', j);
      assert PairIn(pairs[j], |v|);
      assert Turn(ws[j], ws[j + 1], nsm, pairs[j], level, sos) && Turn(ws'[j], ws'[j + 1], nsm, pairs[j], level, sos);
      TurnOne(ws[j], nsm, pairs[j], level, sos, ws[i], ws'[i]);
    }
  }

  /** The outcome for each pair, if no mark is a bracket: what it is given in its turn stays, and a
      pair with nothing strong inside keeps the classes it had before N0. */
  lemma PairStates(v: Classes, nsm: seq<bool>, chars: seq<char>, table: BracketTable, level: Level, sos: BidiClass, i: nat)
    requires |nsm| == |v| == |chars| && 0 <= level && (sos.L? || sos.R?) && MarksAreNoBrackets(nsm, chars, table)
    requires N0(v, nsm, chars, table, level, sos).Some? && i < |SortedPairs(v, chars, table)|
    ensures var pairs, r := SortedPairs(v, chars, table), N0(v, nsm, chars, table, level, sos).value;
            var w, pair := Turns(v, nsm, pairs, level, sos)[i], pairs[i];
            && PairIn(pair, |v|) && |w| == |v|
            && if Keeps(w, pair) then r[pair.opening] == v[pair.opening] && r[pair.closing] == v[pair.closing]
               else r[pair.opening] == r[pair.closing] && Gets(w, pair, level, sos, r[pair.opening])
  {
    var pairs := SortedPairs(v, chars, table);
    assert PairIn(pairs[i], |v|);
    N0Outcome(v, nsm, chars, table, level, sos, i);
    DirectionStates(Turns(v, nsm, pairs, level, sos)[i], pairs[i], level, sos);
  }
}
