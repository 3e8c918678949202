/** Rule N0 of UAX #9: resolving the paired brackets of one text chain. */
module BracketRules {
  import opened Wrappers
  import opened BidiTypes
  import opened WeakRules
  import opened NeutralRules
  import opened Brackets

  /** The bracket table: the bracket that pairs with a character, and which kind it is. */
  type BracketTable = map<char, (char, BracketType)>

  /** Only characters still of class ON take part in the pairing. */
  function MarkOf(bc: BidiClass, c: char, table: BracketTable): Mark {
    if !bc.ON? || c !in table then NoMark
    else if table[c].1 == Open then OpenMark(table[c].0)
    else CloseMark(c)
  }

  function MarksOf(v: Classes, chars: seq<char>, table: BracketTable): (m: seq<Mark>)
    requires |v| == |chars|
    ensures |m| == |v|
  {
    seq(|v|, k requires 0 <= k < |v| => MarkOf(v[k], chars[k], table))
  }

  function StrongDirection(bc: BidiClass): Option<Direction> {
    if bc.L? then Some(LTR)
    else if bc.R? || bc.EN? || bc.AN? then Some(RTL)
    else None
  }

  /** A class of direction d occurs strictly between a and b. */
  predicate Encloses(v: Classes, a: nat, b: nat, d: Direction) {
    exists k :: a < k < b && k < |v| && StrongDirection(v[k]) == Some(d)
  }

  /** The nonspacing marks (in the original text) that follow a bracket take its class, up
      to the first character that is neither such a mark nor removed. */
  function FixMarks(v: Classes, nsm: seq<bool>, from: nat, end: nat, bc: BidiClass): (r: Classes)
    requires |nsm| == |v| && from <= end <= |v|
    ensures |r| == |v|
    decreases end - from
  {
    if from == end then v
    else if nsm[from] then FixMarks(v[from := bc], nsm, from + 1, end, bc)
    else if IsRemovedClass(v[from]) then FixMarks(v, nsm, from + 1, end, bc)
    else v
  }

  predicate PairIn(pair: Pair, n: nat) {
    pair.opening < pair.closing < n
  }

  function SetPair(v: Classes, nsm: seq<bool>, pair: Pair, d: Direction): (r: Classes)
    requires |nsm| == |v| && PairIn(pair, |v|)
    ensures |r| == |v|
  {
    var bc := d.AsBidiClass();
    var brackets := v[pair.opening := bc][pair.closing := bc];
    FixMarks(FixMarks(brackets, nsm, pair.opening + 1, pair.closing, bc), nsm, pair.closing + 1, |v|, bc)
  }

  /** The direction N0 gives a pair: the embedding direction if it occurs inside; otherwise,
      if the opposite direction occurs inside, the opposite one if the context before the
      opening bracket has it too and the embedding direction if not; otherwise none. */
  function PairDirection(v: Classes, pair: Pair, embedding: Direction, sos: BidiClass): Option<Direction>
    requires PairIn(pair, |v|)
  {
    if Encloses(v, pair.opening, pair.closing, embedding) then Some(embedding)
    else if Encloses(v, pair.opening, pair.closing, embedding.Opposite()) then
      if PrevSide(v, pair.opening, sos) == embedding.Opposite().AsBidiClass() then Some(embedding.Opposite())
      else Some(embedding)
    else None
  }

  function ResolvePair(v: Classes, nsm: seq<bool>, pair: Pair, embedding: Direction, sos: BidiClass): (r: Classes)
    requires |nsm| == |v| && PairIn(pair, |v|)
    ensures |r| == |v|
  {
    match PairDirection(v, pair, embedding, sos)
    case None => v
    case Some(d) => SetPair(v, nsm, pair, d)
  }

  predicate PairsIn(pairs: seq<Pair>, n: nat) {
    forall i :: 0 <= i < |pairs| ==> PairIn(pairs[i], n)
  }

  /** The first n pairs resolved in turn, each seeing the outcome of those before it. */
  function ResolvePairs(v: Classes, nsm: seq<bool>, pairs: seq<Pair>, n: nat, embedding: Direction, sos: BidiClass): (r: Classes)
    requires |nsm| == |v| && PairsIn(pairs, |v|) && n <= |pairs|
    ensures |r| == |v|
  {
    if n == 0 then v
    else ResolvePair(ResolvePairs(v, nsm, pairs, n - 1, embedding, sos), nsm, pairs[n - 1], embedding, sos)
  }

  lemma ResolvePairsStep(v: Classes, nsm: seq<bool>, pairs: seq<Pair>, i: nat, next: nat, embedding: Direction, sos: BidiClass,
                         before: Classes)
    requires |nsm| == |v| && PairsIn(pairs, |v|) && i < |pairs| && next == i + 1
    requires before == ResolvePairs(v, nsm, pairs, i, embedding, sos)
    ensures ResolvePairs(v, nsm, pairs, next, embedding, sos) == ResolvePair(before, nsm, pairs[i], embedding, sos)
  {
  }

  lemma PairsOfChain(marks: seq<Mark>)
    requires Pairing(marks, |marks|).Some?
    ensures PairsIn(SortByOpening(Pairing(marks, |marks|).value.pairs), |marks|)
  {
    var pairs := Pairing(marks, |marks|).value.pairs;
    PairingIsBd16(marks, |marks|);
    SortSorts(pairs);
    var sorted := SortByOpening(pairs);
    forall i | 0 <= i < |sorted| ensures PairIn(sorted[i], |marks|) {
      assert sorted[i] in multiset(sorted);
      assert sorted[i] in pairs;
    }
  }

  /** Rule N0 for one chain; None when the pairing overflows. */
  function N0(v: Classes, nsm: seq<bool>, chars: seq<char>, table: BracketTable, level: Level, sos: BidiClass): (r: Option<Classes>)
    requires |nsm| == |v| == |chars|
    ensures r.Some? ==> |r.value| == |v|
  {
    var marks := MarksOf(v, chars, table);
    match Pairing(marks, |marks|)
    case None => None
    case Some(s) =>
      PairsOfChain(marks);
      var sorted := SortByOpening(s.pairs);
      Some(ResolvePairs(v, nsm, sorted, |sorted|, DirectionOf(level), sos))
  }

  // ----- what N0 promises -----

  /** A class may only become L or R, and removed characters keep theirs. */
  predicate Strengthens(v: Classes, r: Classes) {
    && |r| == |v|
    && forall k :: 0 <= k < |v| ==>
         r[k] == v[k] || ((r[k].L? || r[k].R?) && !IsRemovedClass(v[k]))
  }

  lemma {:induction false} FixMarksFrame(v: Classes, nsm: seq<bool>, from: nat, end: nat, bc: BidiClass)
    requires |nsm| == |v| && from <= end <= |v|
    ensures var r := FixMarks(v, nsm, from, end, bc);
            forall k :: 0 <= k < |v| ==> r[k] == v[k] || (nsm[k] && r[k] == bc)
    decreases end - from
  {
    if from < end {
      if nsm[from] {
        FixMarksFrame(v[from := bc], nsm, from + 1, end, bc);
      } else if IsRemovedClass(v[from]) {
        FixMarksFrame(v, nsm, from + 1, end, bc);
      }
    }
  }

  /** Resolving a pair sets its two brackets alike and touches nothing else but marks. */
  lemma ResolvePairIs(v: Classes, nsm: seq<bool>, pair: Pair, embedding: Direction, sos: BidiClass)
    requires |nsm| == |v| && PairIn(pair, |v|) && !nsm[pair.opening] && !nsm[pair.closing]
    ensures var r, d := ResolvePair(v, nsm, pair, embedding, sos), PairDirection(v, pair, embedding, sos);
            && (d.None? ==> r == v)
            && (d.Some? ==> r[pair.opening] == r[pair.closing] == d.value.AsBidiClass())
            && forall k :: 0 <= k < |v| && k != pair.opening && k != pair.closing && !nsm[k] ==> r[k] == v[k]
  {
    var d := PairDirection(v, pair, embedding, sos);
    if d.Some? {
      var bc := d.value.AsBidiClass();
      var brackets := v[pair.opening := bc][pair.closing := bc];
      FixMarksFrame(brackets, nsm, pair.opening + 1, pair.closing, bc);
      FixMarksFrame(FixMarks(brackets, nsm, pair.opening + 1, pair.closing, bc), nsm, pair.closing + 1, |v|, bc);
    }
  }

  lemma ResolvePairStrengthens(v: Classes, nsm: seq<bool>, pair: Pair, embedding: Direction, sos: BidiClass)
    requires |nsm| == |v| && PairIn(pair, |v|)
    requires forall k :: 0 <= k < |v| && nsm[k] ==> !IsRemovedClass(v[k])
    requires !IsRemovedClass(v[pair.opening]) && !IsRemovedClass(v[pair.closing])
    ensures Strengthens(v, ResolvePair(v, nsm, pair, embedding, sos))
  {
    var d := PairDirection(v, pair, embedding, sos);
    if d.Some? {
      var bc := d.value.AsBidiClass();
      var brackets := v[pair.opening := bc][pair.closing := bc];
      FixMarksFrame(brackets, nsm, pair.opening + 1, pair.closing, bc);
      FixMarksFrame(FixMarks(brackets, nsm, pair.opening + 1, pair.closing, bc), nsm, pair.closing + 1, |v|, bc);
    }
  }

  lemma {:induction false} ResolvePairsStrengthens(v: Classes, nsm: seq<bool>, pairs: seq<Pair>, n: nat, embedding: Direction, sos: BidiClass)
    requires |nsm| == |v| && PairsIn(pairs, |v|) && n <= |pairs|
    requires forall k :: 0 <= k < |v| && nsm[k] ==> !IsRemovedClass(v[k])
    requires forall i :: 0 <= i < |pairs| ==> !IsRemovedClass(v[pairs[i].opening]) && !IsRemovedClass(v[pairs[i].closing])
    ensures Strengthens(v, ResolvePairs(v, nsm, pairs, n, embedding, sos))
  {
    if n > 0 {
      ResolvePairsStrengthens(v, nsm, pairs, n - 1, embedding, sos);
      ResolvePairStrengthens(ResolvePairs(v, nsm, pairs, n - 1, embedding, sos), nsm, pairs[n - 1], embedding, sos);
    }
  }

  /** The two ends of a pair are distinct from those of every other pair. */
  predicate EndsApart(a: Pair, b: Pair) {
    && a.opening != b.opening && a.opening != b.closing
    && a.closing != b.opening && a.closing != b.closing
  }

  predicate AllApart(pairs: seq<Pair>) {
    forall i, j :: 0 <= i < j < |pairs| ==> EndsApart(pairs[i], pairs[j])
  }

  predicate BracketsAreNotMarks(nsm: seq<bool>, pairs: seq<Pair>) {
    PairsIn(pairs, |nsm|) && forall i :: 0 <= i < |pairs| ==> !nsm[pairs[i].opening] && !nsm[pairs[i].closing]
  }

  /** The outcome of N0 for each pair: both brackets end with the class of the direction
      the rule finds for the pair when its turn comes, and keep their class if it finds none. */
  lemma {:induction false} PairOutcome(v: Classes, nsm: seq<bool>, pairs: seq<Pair>, n: nat, i: nat, embedding: Direction, sos: BidiClass)
    requires |nsm| == |v| && BracketsAreNotMarks(nsm, pairs) && AllApart(pairs) && i < n <= |pairs|
    ensures var w := ResolvePairs(v, nsm, pairs, i, embedding, sos);
            var r := ResolvePairs(v, nsm, pairs, n, embedding, sos);
            match PairDirection(w, pairs[i], embedding, sos)
            case Some(d) => r[pairs[i].opening] == r[pairs[i].closing] == d.AsBidiClass()
            case None => r[pairs[i].opening] == v[pairs[i].opening] && r[pairs[i].closing] == v[pairs[i].closing]
    decreases n
  {
    var before := ResolvePairs(v, nsm, pairs, n - 1, embedding, sos);
    ResolvePairIs(before, nsm, pairs[n - 1], embedding, sos);
    if i < n - 1 {
      PairOutcome(v, nsm, pairs, n - 1, i, embedding, sos);
      assert EndsApart(pairs[i], pairs[n - 1]);
    } else {
      Untouched(v, nsm, pairs, i, i, embedding, sos);
    }
  }

  /** Until its turn comes a bracket keeps its class. */
  lemma {:induction false} Untouched(v: Classes, nsm: seq<bool>, pairs: seq<Pair>, n: nat, i: nat, embedding: Direction, sos: BidiClass)
    requires |nsm| == |v| && BracketsAreNotMarks(nsm, pairs) && AllApart(pairs) && n <= i < |pairs|
    ensures var w := ResolvePairs(v, nsm, pairs, n, embedding, sos);
            w[pairs[i].opening] == v[pairs[i].opening] && w[pairs[i].closing] == v[pairs[i].closing]
    decreases n
  {
    if n > 0 {
      Untouched(v, nsm, pairs, n - 1, i, embedding, sos);
      ResolvePairIs(ResolvePairs(v, nsm, pairs, n - 1, embedding, sos), nsm, pairs[n - 1], embedding, sos);
      assert EndsApart(pairs[n - 1], pairs[i]);
    }
  }

  lemma TwiceIn(pairs: seq<Pair>, i: nat, j: nat)
    requires i < j < |pairs| && pairs[i] == pairs[j]
    ensures multiset(pairs)[pairs[i]] >= 2
  {
    assert pairs == pairs[..j] + pairs[j..];
    assert pairs[i] in pairs[..j] && pairs[j] in pairs[j..];
  }

  lemma {:induction false} OnceIn(pairs: seq<Pair>, p: Pair)
    requires forall i, j :: 0 <= i < j < |pairs| ==> pairs[i] != pairs[j]
    ensures multiset(pairs)[p] <= 1
  {
    if pairs != [] {
      var front, last := pairs[..|pairs| - 1], pairs[|pairs| - 1];
      assert pairs == front + [last];
      OnceIn(front, p);
      if last == p {
        assert p !in front;
        assert p !in multiset(front);
      }
    }
  }

  /** The sorted pairs of a chain share no positions, so PairOutcome applies to them all. */
  lemma ChainPairsApart(marks: seq<Mark>)
    requires Pairing(marks, |marks|).Some?
    ensures AllApart(SortByOpening(Pairing(marks, |marks|).value.pairs))
  {
    var pairs := Pairing(marks, |marks|).value.pairs;
    var sorted := SortByOpening(pairs);
    PairingIsBd16(marks, |marks|);
    SortSorts(pairs);
    forall i, j | 0 <= i < j < |sorted| ensures EndsApart(sorted[i], sorted[j]) {
      assert sorted[i] in multiset(sorted) && sorted[j] in multiset(sorted);
      var a :| 0 <= a < |pairs| && pairs[a] == sorted[i];
      var b :| 0 <= b < |pairs| && pairs[b] == sorted[j];
      if a == b {
        TwiceIn(sorted, i, j);
        OnceIn(pairs, sorted[i]);
      } else if a < b {
        PairsAreApart(pairs, |marks|, a, b);
      } else {
        PairsAreApart(pairs, |marks|, b, a);
      }
    }
  }

  /** N0 makes classes strong or leaves them, and never touches a removed character. */
  lemma N0Strengthens(v: Classes, nsm: seq<bool>, chars: seq<char>, table: BracketTable, level: Level, sos: BidiClass)
    requires |nsm| == |v| == |chars|
    requires forall k :: 0 <= k < |v| && nsm[k] ==> !IsRemovedClass(v[k])
    requires N0(v, nsm, chars, table, level, sos).Some?
    ensures Strengthens(v, N0(v, nsm, chars, table, level, sos).value)
  {
    var marks := MarksOf(v, chars, table);
    var pairs := Pairing(marks, |marks|).value.pairs;
    var sorted := SortByOpening(pairs);
    PairsOfChain(marks);
    forall i | 0 <= i < |sorted|
      ensures !IsRemovedClass(v[sorted[i].opening]) && !IsRemovedClass(v[sorted[i].closing])
    {
      PairMarks(marks, i);
    }
    ResolvePairsStrengthens(v, nsm, sorted, |sorted|, DirectionOf(level), sos);
  }

  lemma PairMarks(marks: seq<Mark>, i: nat)
    requires Pairing(marks, |marks|).Some?
    requires i < |SortByOpening(Pairing(marks, |marks|).value.pairs)|
    ensures var p := SortByOpening(Pairing(marks, |marks|).value.pairs)[i];
            PairIn(p, |marks|) && marks[p.opening].OpenMark? && marks[p.closing].CloseMark?
  {
    var pairs := Pairing(marks, |marks|).value.pairs;
    var sorted := SortByOpening(pairs);
    PairsOfChain(marks);
    PairingIsBd16(marks, |marks|);
    SortSorts(pairs);
    assert sorted[i] in multiset(sorted);
    assert Pair(sorted[i].opening, sorted[i].closing) in pairs;
    assert Pairs(marks, pairs, sorted[i].opening, sorted[i].closing);
  }
}
