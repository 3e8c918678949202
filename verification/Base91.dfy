/** basE91 as a relation between bit strings, digits and characters. */
module Base91 {

  import opened Sequences
  import opened BitStrings

  const UPPER := "ABCDEFGHIJKLMNOPQRSTUVWXYZ"
  const LOWER := "abcdefghijklmnopqrstuvwxyz"
  const DECIMALS := "0123456789"
  const SIGNS := "!#$%&()*+,./:;<=>?@[]^_`{|}~\""
  const ALPHABET := UPPER + LOWER + DECIMALS + SIGNS

  /** What the decoding table holds for a byte outside the alphabet. */
  const INV := 91

  type Digit = d: int | 0 <= d < 91

  /** The encoding table: the character code of a digit, one line for each stretch of
      consecutive characters. */
  function Encoded(d: Digit): (b: Byte) {
    if d < 26 then d + 65
    else if d < 52 then d - 26 + 97
    else if d < 62 then d - 52 + 48
    else SignCode(d - 62)
  }

  /** The decoding table, one line for each stretch of consecutive characters. */
  function Decoded(b: Byte): (d: int)
    ensures 0 <= d <= INV
  {
    if b == 33 then 62
    else if b == 34 then 90
    else if 35 <= b <= 38 then b - 35 + 63
    else if 40 <= b <= 44 then b - 40 + 67
    else if 46 <= b <= 47 then b - 46 + 72
    else if 48 <= b <= 57 then b - 48 + 52
    else if 58 <= b <= 64 then b - 58 + 74
    else if 65 <= b <= 90 then b - 65
    else if b == 91 then 81
    else if 93 <= b <= 96 then b - 93 + 82
    else if 97 <= b <= 122 then b - 97 + 26
    else if 123 <= b <= 126 then b - 123 + 86
    else INV
  }

  predicate InAlphabet(b: Byte) {
    Decoded(b) != INV
  }

  function SignCode(k: nat): (b: Byte) {
    if k == 0 then 33
    else if k < 5 then k - 1 + 35
    else if k < 10 then k - 5 + 40
    else if k < 12 then k - 10 + 46
    else if k < 19 then k - 12 + 58
    else if k == 19 then 91
    else if k < 24 then k - 20 + 93
    else if k < 28 then k - 24 + 123
    else 34
  }

  lemma UpperCodes(k: nat)
    requires k < 26
    ensures UPPER[k] as int == 65 + k
  {
  }

  lemma LowerCodes(k: nat)
    requires k < 26
    ensures LOWER[k] as int == 97 + k
  {
  }

  lemma SignCodes(k: nat)
    requires k < 29
    ensures SIGNS[k] as int == SignCode(k)
  {
  }

  /** The table written out as a string. */
  lemma EncodedIsAlphabet(d: Digit)
    ensures |ALPHABET| == 91
    ensures ALPHABET[d] as int == Encoded(d)
  {
    if d < 26 {
      UpperCodes(d);
      assert ALPHABET[d] == UPPER[d];
    } else if d < 52 {
      LowerCodes(d - 26);
      assert ALPHABET[d] == LOWER[d - 26];
    } else if d < 62 {
      assert ALPHABET[d] == DECIMALS[d - 52];
    } else {
      SignCodes(d - 62);
      assert ALPHABET[d] == SIGNS[d - 62];
    }
  }

  /** The two tables are inverse to each other. */
  lemma TablesAgree(d: Digit)
    ensures Decoded(Encoded(d)) == d
  {
  }

  lemma AlphabetCovered(b: Byte)
    requires InAlphabet(b)
    ensures Encoded(Decoded(b)) == b
  {
  }

  // Groups of 13 or 14 bits, two digits each.

  /** How many bits the next pair of digits takes from a bit string. */
  function GroupSize(s: seq<bool>): (k: nat)
    requires 14 <= |s|
    ensures k == 13 || k == 14
  {
    if Value(s[..13]) > 88 then 13 else 14
  }

  function PairOf(v: nat): (ds: seq<Digit>)
    requires v < 8281
    ensures |ds| == 2
  {
    [v % 91, v / 91]
  }

  function PairValue(d: Digit, e: Digit): (v: nat)
    ensures v < 8281
  {
    d + 91 * e
  }

  function GroupLength(v: nat): (k: nat)
    ensures k == 13 || k == 14
  {
    if v % 8192 > 88 then 13 else 14
  }

  /** The bits a pair of digits stands for. */
  function GroupBits(d: Digit, e: Digit): (s: seq<bool>)
    ensures |s| == 13 || |s| == 14
  {
    Bits(PairValue(d, e), GroupLength(PairValue(d, e)))
  }

  lemma DigitMoved(v: nat, bit: nat, low: nat, high: nat, p: nat)
    requires v == bit + 2 * (low + high * p)
    ensures v == (bit + 2 * low) + high * (2 * p)
  {
    DoubleProduct(high, p);
  }

  lemma {:induction false} LowBits(s: seq<bool>, k: nat)
    requires k <= |s|
    ensures Value(s) == Value(s[..k]) + Value(s[k..]) * Pow2(k)
  {
    if k == 0 {
      assert s[..0] == [] && s[0..] == s;
    } else {
      var tail, low, high := s[1..], s[..k], s[k..];
      LowBits(tail, k - 1);
      assert low[1..] == tail[..k - 1] && low[0] == s[0];
      assert high == tail[k - 1..];
      DigitMoved(Value(s), if s[0] then 1 else 0, Value(low[1..]), Value(high), Pow2(k - 1));
    }
  }

  /** A group's value is below 91 * 91 and tells how long the group was. */
  lemma GroupValue(s: seq<bool>)
    requires 14 <= |s|
    ensures Value(s[..GroupSize(s)]) < 8281
    ensures Value(s[..GroupSize(s)]) % 8192 > 88 <==> GroupSize(s) == 13
  {
    assert Pow2(13) == 8192;
    var t := s[..14];
    assert t[..13] == s[..13];
    LowBits(t, 13);
    assert |t[13..]| == 1 && Pow2(1) == 2;
  }

  lemma PairRoundTrip(v: nat)
    requires v < 8281
    ensures PairValue(PairOf(v)[0], PairOf(v)[1]) == v
  {
  }

  /** Writing a group as two digits loses nothing. */
  lemma GroupRoundTrip(s: seq<bool>)
    requires 14 <= |s|
    requires Value(s[..GroupSize(s)]) < 8281
    ensures var ds := PairOf(Value(s[..GroupSize(s)])); GroupBits(ds[0], ds[1]) == s[..GroupSize(s)]
  {
    GroupValue(s);
    PairRoundTrip(Value(s[..GroupSize(s)]));
    BitsOfValue(s[..GroupSize(s)]);
  }

  lemma MarkedLong(v: nat, low: nat, high: nat)
    requires v == low + high * 8192 && low < 8192
    ensures v % 8192 == low
  {
  }

  lemma GroupBitsValue(d: Digit, e: Digit)
    ensures Value(GroupBits(d, e)) == PairValue(d, e)
    ensures Value(GroupBits(d, e)[..13]) > 88 <==> |GroupBits(d, e)| == 13
  {
    var v := PairValue(d, e);
    var g := GroupBits(d, e);
    assert Pow2(13) == 8192 && Pow2(14) == 16384;
    ValueOfBits(v, |g|);
    LowBits(g, 13);
    assert |g| == 13 ==> g[..13] == g;
    MarkedLong(v, Value(g[..13]), Value(g[13..]));
  }

  lemma PairOfPairValue(d: Digit, e: Digit)
    ensures PairOf(PairValue(d, e)) == [d, e]
  {
  }

  /** Conversely every pair of digits is the encoding of exactly one group. */
  lemma DigitPairsAreGroups(d: Digit, e: Digit, more: seq<bool>)
    requires |GroupBits(d, e) + more| >= 14
    ensures var s := GroupBits(d, e) + more;
      && s[..GroupSize(s)] == GroupBits(d, e)
      && Value(GroupBits(d, e)) == PairValue(d, e)
      && PairOf(PairValue(d, e)) == [d, e]
  {
    var g := GroupBits(d, e);
    GroupBitsValue(d, e);
    PairOfPairValue(d, e);
    assert (g + more)[..13] == g[..13];
    assert (g + more)[..|g|] == g;
  }

  /** The digits the whole groups of a bit string give, and the bits left for the end. */
  function GroupDigits(s: seq<bool>): (ds: seq<Digit>)
    ensures |ds| % 2 == 0
    decreases |s|
  {
    if |s| < 14 then [] else
      GroupValue(s);
      PairOf(Value(s[..GroupSize(s)])) + GroupDigits(s[GroupSize(s)..])
  }

  function LeftBits(s: seq<bool>): (r: seq<bool>)
    ensures |r| < 14
    decreases |s|
  {
    if |s| < 14 then s else LeftBits(s[GroupSize(s)..])
  }

  /** What is written for the bits left at the end: nothing, one digit or two. */
  function LastDigits(r: seq<bool>): (ds: seq<Digit>)
    requires |r| < 14
    ensures |ds| <= 2
  {
    var v := Value(r);
    assert Pow2(13) == 8192;
    LastFits(r);
    if r == [] then [] else if |r| > 7 || v > 90 then PairOf(v) else [v]
  }

  lemma {:induction false} Pow2Grows(j: nat, k: nat)
    requires j <= k
    ensures Pow2(j) <= Pow2(k)
  {
    if j < k {
      Pow2Grows(j, k - 1);
    }
  }

  lemma LastFits(r: seq<bool>)
    requires |r| < 14
    ensures Value(r) < 8192
    ensures |r| < 7 ==> Value(r) < 64
    ensures |r| == 7 ==> Value(r) < 128
  {
    assert Pow2(13) == 8192 && Pow2(7) == 128 && Pow2(6) == 64;
    Pow2Grows(|r|, 13);
    if |r| < 7 {
      Pow2Grows(|r|, 6);
    }
  }

  /** Everything encoding does: the digits of a bit string. */
  function DigitsOf(s: seq<bool>): seq<Digit> {
    GroupDigits(s) + LastDigits(LeftBits(s))
  }

  /** The bits that pairs of digits stand for; an odd last digit adds none. */
  function PairBits(ds: seq<Digit>): (s: seq<bool>) {
    if |ds| < 2 then [] else GroupBits(ds[0], ds[1]) + PairBits(ds[2..])
  }

  /** The odd last digit, if there is one. */
  function OddDigit(ds: seq<Digit>): (odd: seq<Digit>)
    ensures |odd| == |ds| % 2
  {
    if |ds| < 2 then ds else OddDigit(ds[2..])
  }

  /** The byte an odd last digit completes. */
  function LastByte(spare: seq<bool>, d: Digit): (b: Byte)
    requires |spare| < 8
  {
    FirstByte(spare + Bits(d, 8))
  }

  /** Everything decoding does: the bytes of a digit string. */
  function BytesOf(ds: seq<Digit>): seq<Byte> {
    var s := PairBits(ds);
    var odd := OddDigit(ds);
    WholeBytes(s) + if odd == [] then [] else [LastByte(SpareBits(s), odd[0])]
  }

  lemma {:induction false} PairsThen(ds: seq<Digit>, es: seq<Digit>)
    requires |ds| % 2 == 0
    ensures PairBits(ds + es) == PairBits(ds) + PairBits(es)
    ensures OddDigit(ds + es) == OddDigit(es)
    decreases |ds|
  {
    if ds == [] {
      assert ds + es == es;
    } else {
      assert (ds + es)[2..] == ds[2..] + es;
      PairsThen(ds[2..], es);
      assert PairBits(ds + es) == GroupBits(ds[0], ds[1]) + (PairBits(ds[2..]) + PairBits(es));
    }
  }

  /** No bit is lost between the whole groups and the bits left. */
  lemma {:induction false} GroupsKeepBits(s: seq<bool>)
    ensures PairBits(GroupDigits(s)) + LeftBits(s) == s
    decreases |s|
  {
    if |s| >= 14 {
      var k := GroupSize(s);
      GroupValue(s);
      GroupRoundTrip(s);
      var ds := PairOf(Value(s[..k]));
      var all := ds + GroupDigits(s[k..]);
      assert all == GroupDigits(s);
      assert all[2..] == GroupDigits(s[k..]);
      GroupsKeepBits(s[k..]);
      assert s == s[..k] + s[k..];
      assert PairBits(all) + LeftBits(s) == s[..k] + (PairBits(GroupDigits(s[k..])) + LeftBits(s[k..]));
    }
  }

  lemma PairBitsOfTwo(d: Digit, e: Digit)
    ensures PairBits([d, e]) == GroupBits(d, e)
  {
    assert [d, e][2..] == [];
  }

  lemma PairBitsOfPair(v: nat)
    requires v < 8281
    ensures PairBits(PairOf(v)) == Bits(v, GroupLength(v))
  {
    PairRoundTrip(v);
    PairBitsOfTwo(PairOf(v)[0], PairOf(v)[1]);
  }

  lemma LastLength(r: seq<bool>)
    requires |r| < 14
    requires |r| > 7 || Value(r) > 90
    ensures Value(r) < 8192
    ensures |r| <= GroupLength(Value(r)) < |r| + 8
  {
    LastFits(r);
  }

  /** Two last digits stand for the bits left and fewer than eight zeros. */
  lemma LastPair(r: seq<bool>) returns (zeros: seq<bool>)
    requires |r| < 14
    requires |r| > 7 || Value(r) > 90
    ensures |zeros| < 8 && PairBits(LastDigits(r)) == r + zeros
  {
    var v := Value(r);
    LastLength(r);
    var more := GroupLength(v) - |r|;
    zeros := Bits(0, more);
    PairBitsOfPair(v);
    BitsOfValue(r);
    BitsPadded(v, |r|, more);
  }

  lemma {:induction false} OneByte(last: seq<bool>)
    requires |last| == 8
    ensures WholeBytes(last) == [FirstByte(last)]
  {
    assert WholeBytes(last[8..]) == [];
  }

  lemma CutAtEight(a: seq<bool>, b: seq<bool>, c: seq<bool>)
    requires |a| + |b| == 8
    ensures FirstByte(a + (b + c)) == FirstByte(a + b)
  {
    assert (a + (b + c))[..8] == a + b == (a + b)[..8];
  }

  lemma LastByteIs(spare: seq<bool>, r: seq<bool>)
    requires |spare| + |r| == 8 && 0 < |r| && Value(r) <= 90
    ensures LastByte(spare, Value(r)) == FirstByte(spare + r)
  {
    var more := 8 - |r|;
    BitsOfValue(r);
    BitsPadded(Value(r), |r|, more);
    CutAtEight(spare, r, Bits(0, more));
  }

  lemma SpareFills(g: seq<bool>, r: seq<bool>, n: nat)
    requires |g| + |r| == 8 * n && 0 < |r| <= 7
    ensures |SpareBits(g)| + |r| == 8
  {
    BytesAndSpare(g);
  }

  /** A single last digit completes the last byte. */
  lemma LastSingle(g: seq<bool>, r: seq<bool>, xs: seq<Byte>)
    requires 0 < |r| <= 7 && Value(r) <= 90
    requires g + r == BitsOfBytes(xs)
    ensures WholeBytes(g) + [LastByte(SpareBits(g), Value(r))] == xs
  {
    assert |g + r| == 8 * |xs|;
    SpareFills(g, r, |xs|);
    LastByteIs(SpareBits(g), r);
    OneByte(SpareBits(g) + r);
    WholeBytesInTwo(g, r);
    NothingAfter(g + r);
    BytesAreTheirBits(xs, []);
  }

  lemma BytesOfPairs(ds: seq<Digit>, xs: seq<Byte>, zeros: seq<bool>)
    requires OddDigit(ds) == [] && |zeros| < 8
    requires PairBits(ds) == BitsOfBytes(xs) + zeros
    ensures BytesOf(ds) == xs
  {
    BytesAreTheirBits(xs, zeros);
  }

  /** The bits of all digits are the data and, after two last digits, a few zeros. */
  lemma NoSingle(xs: seq<Byte>, groups: seq<Digit>, last: seq<Digit>, r: seq<bool>, zeros: seq<bool>)
    requires |groups| % 2 == 0 && OddDigit(last) == [] && |zeros| < 8
    requires PairBits(groups) + r == BitsOfBytes(xs)
    requires PairBits(last) == r + zeros
    ensures BytesOf(groups + last) == xs
  {
    PairsThen(groups, last);
    Associative(PairBits(groups), r, zeros);
    BytesOfPairs(groups + last, xs, zeros);
  }

  lemma OneSingle(xs: seq<Byte>, groups: seq<Digit>, r: seq<bool>)
    requires |groups| % 2 == 0
    requires 0 < |r| <= 7 && Value(r) <= 90
    requires PairBits(groups) + r == BitsOfBytes(xs)
    ensures BytesOf(groups + LastDigits(r)) == xs
  {
    var last := LastDigits(r);
    assert last == [Value(r)];
    PairsThen(groups, last);
    assert PairBits(groups) + PairBits(last) == PairBits(groups);
    LastSingle(PairBits(groups), r, xs);
  }

  /** Decoding the digits of a byte string gives the byte string. */
  lemma DigitsRoundTrip(xs: seq<Byte>)
    ensures BytesOf(DigitsOf(BitsOfBytes(xs))) == xs
  {
    var s := BitsOfBytes(xs);
    var groups, r := GroupDigits(s), LeftBits(s);
    GroupsKeepBits(s);
    if r == [] {
      assert PairBits([]) == r + [] && OddDigit([]) == [];
      NoSingle(xs, groups, [], r, []);
    } else if |r| > 7 || Value(r) > 90 {
      var zeros := LastPair(r);
      assert |OddDigit(LastDigits(r))| == 0;
      NoSingle(xs, groups, LastDigits(r), r, zeros);
    } else {
      OneSingle(xs, groups, r);
    }
  }

  // Characters.

  function Characters(ds: seq<Digit>): (t: seq<Byte>)
    ensures |t| == |ds|
  {
    if ds == [] then [] else [Encoded(ds[0])] + Characters(ds[1..])
  }

  /** The digits of a text; characters outside the alphabet are skipped. */
  function DigitsIn(t: seq<Byte>): (ds: seq<Digit>) {
    if t == [] then []
    else if InAlphabet(t[0]) then [Decoded(t[0])] + DigitsIn(t[1..])
    else DigitsIn(t[1..])
  }

  function EncodedText(xs: seq<Byte>): seq<Byte> {
    Characters(DigitsOf(BitsOfBytes(xs)))
  }

  function DecodedText(t: seq<Byte>): seq<Byte> {
    BytesOf(DigitsIn(t))
  }

  lemma {:induction false} CharactersRoundTrip(ds: seq<Digit>)
    ensures DigitsIn(Characters(ds)) == ds
  {
    if ds != [] {
      TablesAgree(ds[0]);
      var t := Characters(ds);
      assert t[1..] == Characters(ds[1..]);
      CharactersRoundTrip(ds[1..]);
      assert ds == [ds[0]] + ds[1..];
    }
  }

  lemma {:induction false} DigitsInJoin(t: seq<Byte>, u: seq<Byte>)
    ensures DigitsIn(t + u) == DigitsIn(t) + DigitsIn(u)
  {
    if t == [] {
      assert t + u == u;
    } else {
      assert (t + u)[1..] == t[1..] + u;
      DigitsInJoin(t[1..], u);
    }
  }

  lemma {:induction false} NoiseHasNoDigits(noise: seq<Byte>)
    requires forall b :: b in noise ==> !InAlphabet(b)
    ensures DigitsIn(noise) == []
  {
    if noise != [] {
      assert noise[0] in noise;
      NoiseHasNoDigits(noise[1..]);
    }
  }

  /** decode(encode(x)) == x for every byte string. */
  lemma RoundTrip(xs: seq<Byte>)
    ensures DecodedText(EncodedText(xs)) == xs
  {
    CharactersRoundTrip(DigitsOf(BitsOfBytes(xs)));
    DigitsRoundTrip(xs);
  }

  /** Line breaks and any other foreign characters may be put anywhere in the text. */
  lemma NoiseIsSkipped(t: seq<Byte>, noise: seq<Byte>, u: seq<Byte>)
    requires forall b :: b in noise ==> !InAlphabet(b)
    ensures DecodedText(t + noise + u) == DecodedText(t + u)
  {
    DigitsInJoin(t + noise, u);
    DigitsInJoin(t, noise);
    DigitsInJoin(t, u);
    NoiseHasNoDigits(noise);
    assert DigitsIn(t) + [] == DigitsIn(t);
  }

  // Sizes.

  lemma {:induction false} PairBitsSize(ds: seq<Digit>)
    requires |ds| % 2 == 0
    ensures 13 * |ds| <= 2 * |PairBits(ds)| <= 14 * |ds|
    decreases |ds|
  {
    if ds != [] {
      PairBitsSize(ds[2..]);
    }
  }

  /** The text is at least 8/7 and at most 16/13 as long as the data, give or take one character. */
  lemma SizeBounds(xs: seq<Byte>)
    ensures var n := |EncodedText(xs)|; 8 * |xs| <= 7 * n && 13 * n <= 16 * |xs| + 12
  {
    var s := BitsOfBytes(xs);
    var r := LeftBits(s);
    GroupsKeepBits(s);
    PairBitsSize(GroupDigits(s));
    LastFits(r);
    assert |PairBits(GroupDigits(s))| + |r| == 8 * |xs|;
  }
}
