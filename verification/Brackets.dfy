/** BD16: pairing brackets with a stack of 63 pending openers. */
module Brackets {
  import opened Wrappers
  import opened BidiTypes

  const MAX_PAIRING_DEPTH := 63

  datatype BracketType = Open | Close

  datatype Opener = Opener(closing: char, pos: nat)

  datatype Pair = Pair(opening: nat, closing: nat)

  /** What a chain position means to the pairing: an opening bracket with the bracket that
      closes it, a closing bracket, or nothing. */
  datatype Mark = NoMark | OpenMark(closing: char) | CloseMark(bracket: char)

  /** The canonical equivalents U+232A and U+3009 close each other's openers. */
  predicate Compatible(expected: char, bracket: char) {
    || expected == bracket
    || (expected == '\U{232A}' && bracket == '\U{3009}')
    || (expected == '\U{3009}' && bracket == '\U{232A}')
  }

  datatype PairState = PairState(openers: seq<Opener>, pairs: seq<Pair>)

  /** The number of openers below the topmost compatible one, if there is one. */
  function Seek(openers: seq<Opener>, bracket: char): (r: Option<nat>)
    ensures r.Some? ==> r.value < |openers|
  {
    if openers == [] then None
    else
      var last := |openers| - 1;
      if Compatible(openers[last].closing, bracket) then Some(last)
      else Seek(openers[..last], bracket)
  }

  function CloseBracket(s: PairState, bracket: char, pos: nat): PairState {
    match Seek(s.openers, bracket)
    case None => s
    case Some(d) => PairState(s.openers[..d], s.pairs + [Pair(s.openers[d].pos, pos)])
  }

  /** One position: None when an opener finds no slot. */
  function PairingStep(s: PairState, mark: Mark, pos: nat): Option<PairState> {
    match mark
    case NoMark => Some(s)
    case OpenMark(closing) =>
      if |s.openers| >= MAX_PAIRING_DEPTH then None
      else Some(s.(openers := s.openers + [Opener(closing, pos)]))
    case CloseMark(bracket) => Some(CloseBracket(s, bracket, pos))
  }

  /** The pairing state after the first k positions. */
  function Pairing(marks: seq<Mark>, k: nat): Option<PairState>
    requires k <= |marks|
  {
    if k == 0 then Some(PairState([], []))
    else
      match Pairing(marks, k - 1)
      case None => None
      case Some(s) => PairingStep(s, marks[k - 1], k - 1)
  }

  /** An overflow is final. */
  lemma {:induction false} PairingStops(marks: seq<Mark>, j: nat, k: nat)
    requires j <= k <= |marks| && Pairing(marks, j).None?
    ensures Pairing(marks, k).None?
  {
    if j < k {
      PairingStops(marks, j, k - 1);
    }
  }

  // ----- the stack of the source -----

  class BracketStack {
    const closingBracket: array<char>
    const position: array<nat>
    var depth: nat
    var pairs: seq<Pair>
    ghost var Openers: seq<Opener>
    ghost const Repr: set<object>

    ghost predicate Valid()
      reads this, Repr
    {
      && Repr == {this, closingBracket, position}
      && closingBracket.Length == position.Length == MAX_PAIRING_DEPTH
      && depth <= MAX_PAIRING_DEPTH && |Openers| == depth
      && forall i :: 0 <= i < depth ==> Openers[i] == Opener(closingBracket[i], position[i])
    }

    ghost function State(): PairState
      reads this
    {
      PairState(Openers, pairs)
    }

    constructor ()
      ensures Valid() && fresh(Repr)
      ensures State() == PairState([], [])
    {
      closingBracket := new char[MAX_PAIRING_DEPTH](_ => ' ');
      position := new nat[MAX_PAIRING_DEPTH](_ => 0);
      depth := 0;
      pairs := [];
      Openers := [];
      Repr := {this, closingBracket, position};
    }

    method Clear()
      requires Valid()
      modifies Repr
      ensures Valid()
      ensures State() == PairState([], [])
    {
      pairs := [];
      depth := 0;
      Openers := [];
    }

    method Push(closing: char, pos: nat) returns (ok: bool)
      requires Valid()
      modifies Repr
      ensures Valid() && pairs == old(pairs)
      ensures ok == (|old(Openers)| < MAX_PAIRING_DEPTH)
      ensures Openers == if ok then old(Openers) + [Opener(closing, pos)] else old(Openers)
    {
      if depth >= MAX_PAIRING_DEPTH {
        return false;
      }
      closingBracket[depth] := closing;
      position[depth] := pos;
      depth := depth + 1;
      Openers := Openers + [Opener(closing, pos)];
      return true;
    }

    method SeekMatchingOpenBracket(bracket: char, pos: nat) returns (found: bool)
      requires Valid()
      modifies Repr
      ensures Valid() && found == Seek(old(Openers), bracket).Some?
      ensures State() == CloseBracket(old(State()), bracket, pos)
    {
      var d := depth;
      assert Openers[..d] == Openers;
      while d > 0
        invariant Valid() && d <= depth && State() == old(State())
        invariant Seek(Openers, bracket) == Seek(Openers[..d], bracket)
      {
        d := d - 1;
        assert Openers[..d + 1][..d] == Openers[..d];
        if Compatible(closingBracket[d], bracket) {
          pairs := pairs + [Pair(position[d], pos)];
          depth := d;
          Openers := Openers[..d];
          return true;
        }
      }
      return false;
    }
  }

  // ----- BD16, declaratively -----

  /** No pair closed before k encloses position o or opens there. */
  predicate Unclaimed(pairs: seq<Pair>, o: nat, k: nat) {
    forall i :: 0 <= i < |pairs| && pairs[i].closing < k ==> !(pairs[i].opening <= o < pairs[i].closing)
  }

  /** At position k the opening bracket at o is still waiting for its closing bracket. */
  predicate Pending(marks: seq<Mark>, pairs: seq<Pair>, o: nat, k: nat) {
    o < k <= |marks| && marks[o].OpenMark? && Unclaimed(pairs, o, k)
  }

  /** BD16: c closes o, the nearest compatible opener still pending. */
  predicate Pairs(marks: seq<Mark>, pairs: seq<Pair>, o: nat, c: nat) {
    && c < |marks| && marks[c].CloseMark?
    && Pending(marks, pairs, o, c)
    && Compatible(marks[o].closing, marks[c].bracket)
    && forall o': nat :: o < o' < c && Pending(marks, pairs, o', c) ==> !Compatible(marks[o'].closing, marks[c].bracket)
  }

  /** The openers are exactly the pending ones, in text order. */
  ghost predicate OpenersArePending(marks: seq<Mark>, s: PairState, k: nat)
    requires k <= |marks|
  {
    && (forall i :: 0 <= i < |s.openers| ==>
          s.openers[i].pos < k && marks[s.openers[i].pos] == OpenMark(s.openers[i].closing))
    && (forall i, j :: 0 <= i < j < |s.openers| ==> s.openers[i].pos < s.openers[j].pos)
    && (forall o :: 0 <= o < k && marks[o].OpenMark? ==>
          (Unclaimed(s.pairs, o, k) <==> Opener(marks[o].closing, o) in s.openers))
  }

  /** Pairs come in the order of their closing brackets, and two pairs are nested or apart. */
  predicate WellNestedPairs(pairs: seq<Pair>, k: nat) {
    && (forall i :: 0 <= i < |pairs| ==> pairs[i].opening < pairs[i].closing < k)
    && (forall i, j :: 0 <= i < j < |pairs| ==>
          && pairs[i].closing < pairs[j].closing
          && (pairs[j].opening < pairs[i].opening || pairs[i].closing < pairs[j].opening))
  }

  /** The whole invariant of BD16 after k positions. */
  ghost predicate Bd16(marks: seq<Mark>, s: PairState, k: nat)
    requires k <= |marks|
  {
    && OpenersArePending(marks, s, k)
    && WellNestedPairs(s.pairs, k)
    && (forall o: nat, c: nat :: c < k ==> (Pairs(marks, s.pairs, o, c) <==> Pair(o, c) in s.pairs))
  }

  lemma {:induction false} SeekIs(openers: seq<Opener>, bracket: char)
    ensures match Seek(openers, bracket)
            case Some(d) => && Compatible(openers[d].closing, bracket)
                            && forall i :: d < i < |openers| ==> !Compatible(openers[i].closing, bracket)
            case None => forall i :: 0 <= i < |openers| ==> !Compatible(openers[i].closing, bracket)
  {
    if openers != [] {
      SeekIs(openers[..|openers| - 1], bracket);
    }
  }

  /** A pair closed at k or later does not matter to positions up to k. */
  lemma UnclaimedLocal(pairs: seq<Pair>, pair: Pair, o: nat, k: nat)
    requires k <= pair.closing
    ensures Unclaimed(pairs + [pair], o, k) == Unclaimed(pairs, o, k)
  {
    var more := pairs + [pair];
    assert forall i :: 0 <= i < |pairs| ==> more[i] == pairs[i];
  }

  lemma PairsLocal(marks: seq<Mark>, pairs: seq<Pair>, pair: Pair, o: nat, c: nat)
    requires c <= pair.closing
    ensures Pairs(marks, pairs + [pair], o, c) == Pairs(marks, pairs, o, c)
  {
    forall o': nat | o' < c ensures Pending(marks, pairs + [pair], o', c) == Pending(marks, pairs, o', c) {
      UnclaimedLocal(pairs, pair, o', c);
    }
  }

  /** A position that closes no pair: the invariant goes on, and an opener becomes pending. */
  lemma Bd16Unpaired(marks: seq<Mark>, s: PairState, s': PairState, k: nat)
    requires k < |marks| && Bd16(marks, s, k) && s'.pairs == s.pairs
    requires marks[k].CloseMark? ==> forall i :: 0 <= i < |s.openers| ==> !Compatible(s.openers[i].closing, marks[k].bracket)
    requires s'.openers == s.openers + if marks[k].OpenMark? then [Opener(marks[k].closing, k)] else []
    ensures Bd16(marks, s', k + 1)
  {
    forall o | 0 <= o < k + 1 && marks[o].OpenMark?
      ensures Unclaimed(s'.pairs, o, k + 1) <==> Opener(marks[o].closing, o) in s'.openers
    {
      assert Unclaimed(s.pairs, o, k + 1) == Unclaimed(s.pairs, o, k);
      if o == k {
        assert Unclaimed(s.pairs, o, k + 1);
        assert s'.openers[|s.openers|] == Opener(marks[k].closing, k);
      }
    }
    forall o: nat ensures !Pairs(marks, s.pairs, o, k) {
      if Pending(marks, s.pairs, o, k) {
        assert Opener(marks[o].closing, o) in s.openers;
      }
    }
  }

  /** A closing bracket with a compatible pending opener. */
  lemma Bd16Paired(marks: seq<Mark>, s: PairState, d: nat, k: nat)
    requires k < |marks| && Bd16(marks, s, k) && marks[k].CloseMark?
    requires Seek(s.openers, marks[k].bracket) == Some(d)
    ensures Bd16(marks, CloseBracket(s, marks[k].bracket, k), k + 1)
  {
    var pair := Pair(s.openers[d].pos, k);
    var s' := CloseBracket(s, marks[k].bracket, k);
    assert s'.pairs == s.pairs + [pair] && s'.openers == s.openers[..d];
    Bd16Openers(marks, s, d, k);
    Bd16Nests(marks, s, d, k);
    Bd16Chooses(marks, s, d, k);
    forall o: nat, c: nat | c < k + 1 ensures Pairs(marks, s'.pairs, o, c) <==> Pair(o, c) in s'.pairs {
      PairsLocal(marks, s.pairs, pair, o, c);
      if c < k {
        assert Pair(o, c) in s'.pairs <==> Pair(o, c) in s.pairs;
      } else {
        assert Pair(o, c) in s.pairs ==> false;
        assert s'.pairs[|s.pairs|] == pair;
      }
    }
  }

  lemma Bd16Openers(marks: seq<Mark>, s: PairState, d: nat, k: nat)
    requires k < |marks| && OpenersArePending(marks, s, k) && marks[k].CloseMark? && d < |s.openers|
    requires forall i :: 0 <= i < |s.pairs| ==> s.pairs[i].closing < k
    ensures OpenersArePending(marks, PairState(s.openers[..d], s.pairs + [Pair(s.openers[d].pos, k)]), k + 1)
  {
    var o_d := s.openers[d].pos;
    var pairs' := s.pairs + [Pair(o_d, k)];
    forall o | 0 <= o < k + 1 && marks[o].OpenMark?
      ensures Unclaimed(pairs', o, k + 1) <==> Opener(marks[o].closing, o) in s.openers[..d]
    {
      assert pairs'[|s.pairs|] == Pair(o_d, k);
      assert forall i :: 0 <= i < |s.pairs| ==> pairs'[i] == s.pairs[i];
      assert Unclaimed(pairs', o, k + 1) <==> Unclaimed(s.pairs, o, k) && o < o_d;
      if Opener(marks[o].closing, o) in s.openers {
        var i :| 0 <= i < |s.openers| && s.openers[i] == Opener(marks[o].closing, o);
        assert o < o_d <==> i < d;
        if i < d {
          assert s.openers[..d][i] == s.openers[i];
        }
      }
    }
  }

  lemma Bd16Nests(marks: seq<Mark>, s: PairState, d: nat, k: nat)
    requires k < |marks| && Bd16(marks, s, k) && d < |s.openers|
    ensures WellNestedPairs(s.pairs + [Pair(s.openers[d].pos, k)], k + 1)
  {
    var o := s.openers[d].pos;
    assert Opener(marks[o].closing, o) in s.openers;
    assert Unclaimed(s.pairs, o, k);
    forall i | 0 <= i < |s.pairs| ensures o < s.pairs[i].opening || s.pairs[i].closing < o {
      assert Pairs(marks, s.pairs, s.pairs[i].opening, s.pairs[i].closing) by {
        assert Pair(s.pairs[i].opening, s.pairs[i].closing) == s.pairs[i] && s.pairs[i] in s.pairs;
      }
    }
  }

  lemma Bd16Chooses(marks: seq<Mark>, s: PairState, d: nat, k: nat)
    requires k < |marks| && OpenersArePending(marks, s, k) && marks[k].CloseMark?
    requires Seek(s.openers, marks[k].bracket) == Some(d)
    ensures forall o: nat :: Pairs(marks, s.pairs, o, k) <==> o == s.openers[d].pos
  {
    SeekIs(s.openers, marks[k].bracket);
    var o_d := s.openers[d].pos;
    assert Pending(marks, s.pairs, o_d, k) by {
      assert Opener(marks[o_d].closing, o_d) == s.openers[d] && s.openers[d] in s.openers;
    }
    forall o: nat | o < k && Pending(marks, s.pairs, o, k)
      ensures o > o_d ==> !Compatible(marks[o].closing, marks[k].bracket)
    {
      var i :| 0 <= i < |s.openers| && s.openers[i] == Opener(marks[o].closing, o);
    }
  }

  lemma Bd16Next(marks: seq<Mark>, s: PairState, k: nat)
    requires k < |marks| && Bd16(marks, s, k) && PairingStep(s, marks[k], k).Some?
    ensures Bd16(marks, PairingStep(s, marks[k], k).value, k + 1)
  {
    if marks[k].CloseMark? && Seek(s.openers, marks[k].bracket).Some? {
      Bd16Paired(marks, s, Seek(s.openers, marks[k].bracket).value, k);
    } else {
      if marks[k].CloseMark? {
        SeekIs(s.openers, marks[k].bracket);
      }
      Bd16Unpaired(marks, s, PairingStep(s, marks[k], k).value, k);
    }
  }

  /** BD16 for every chain and every position before an overflow: the code pairs exactly
      the brackets BD16 pairs, and the pairs are nested or apart. */
  lemma {:induction false} PairingIsBd16(marks: seq<Mark>, k: nat)
    requires k <= |marks| && Pairing(marks, k).Some?
    ensures Bd16(marks, Pairing(marks, k).value, k)
  {
    if k > 0 {
      PairingIsBd16(marks, k - 1);
      Bd16Next(marks, Pairing(marks, k - 1).value, k - 1);
    }
  }

  /** No two pairs share a position. */
  lemma PairsAreApart(pairs: seq<Pair>, k: nat, i: nat, j: nat)
    requires WellNestedPairs(pairs, k) && i < j < |pairs|
    ensures pairs[i].opening != pairs[j].opening && pairs[i].closing != pairs[j].closing
    ensures pairs[i].opening != pairs[j].closing && pairs[i].closing != pairs[j].opening
    ensures !(pairs[i].opening < pairs[j].opening < pairs[i].closing < pairs[j].closing)
  {
  }

  // ----- the order of resolution -----

  function InsertPair(sorted: seq<Pair>, p: Pair): seq<Pair> {
    if sorted == [] || sorted[|sorted| - 1].opening <= p.opening then sorted + [p]
    else InsertPair(sorted[..|sorted| - 1], p) + [sorted[|sorted| - 1]]
  }

  /** The pairs by the position of their opening brackets. */
  function SortByOpening(pairs: seq<Pair>): seq<Pair> {
    if pairs == [] then []
    else InsertPair(SortByOpening(pairs[..|pairs| - 1]), pairs[|pairs| - 1])
  }

  predicate SortedByOpening(pairs: seq<Pair>) {
    forall i, j :: 0 <= i < j < |pairs| ==> pairs[i].opening <= pairs[j].opening
  }

  lemma {:induction false} InsertPermutes(sorted: seq<Pair>, p: Pair)
    ensures multiset(InsertPair(sorted, p)) == multiset(sorted) + multiset{p}
  {
    if sorted != [] && sorted[|sorted| - 1].opening > p.opening {
      InsertPermutes(sorted[..|sorted| - 1], p);
      assert sorted == sorted[..|sorted| - 1] + [sorted[|sorted| - 1]];
    }
  }

  lemma {:induction false} InsertSorts(sorted: seq<Pair>, p: Pair, top: nat)
    requires SortedByOpening(sorted) && p.opening <= top
    requires forall i :: 0 <= i < |sorted| ==> sorted[i].opening <= top
    ensures SortedByOpening(InsertPair(sorted, p))
    ensures forall i :: 0 <= i < |InsertPair(sorted, p)| ==> InsertPair(sorted, p)[i].opening <= top
  {
    if sorted != [] && sorted[|sorted| - 1].opening > p.opening {
      var last := sorted[|sorted| - 1];
      InsertSorts(sorted[..|sorted| - 1], p, last.opening);
    }
  }

  lemma {:induction false} SortSorts(pairs: seq<Pair>)
    ensures SortedByOpening(SortByOpening(pairs))
    ensures multiset(SortByOpening(pairs)) == multiset(pairs)
  {
    if pairs != [] {
      var sorted, p := SortByOpening(pairs[..|pairs| - 1]), pairs[|pairs| - 1];
      SortSorts(pairs[..|pairs| - 1]);
      InsertPermutes(sorted, p);
      InsertSorts(sorted, p, if sorted == [] then p.opening else sorted[|sorted| - 1].opening + p.opening);
      assert pairs == pairs[..|pairs| - 1] + [pairs[|pairs| - 1]];
    }
  }
}
