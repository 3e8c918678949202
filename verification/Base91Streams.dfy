/** The streaming encoder and decoder, proved against the digit strings of Base91. */
module Base91Streams {

  import opened Wrappers
  import opened Sequences
  import opened BitStrings
  import opened Base91

  // ----- what a sequence of writes amounts to -----

  lemma {:induction false} CharactersJoin(ds: seq<Digit>, es: seq<Digit>)
    ensures Characters(ds + es) == Characters(ds) + Characters(es)
  {
    if ds == [] {
      assert ds + es == es;
    } else {
      assert (ds + es)[1..] == ds[1..] + es;
      CharactersJoin(ds[1..], es);
    }
  }

  /** A bit string may be grouped in two goes: the bits left by the first go start the second. */
  lemma {:induction false} GroupsInTwo(s: seq<bool>, t: seq<bool>)
    ensures GroupDigits(s + t) == GroupDigits(s) + GroupDigits(LeftBits(s) + t)
    ensures LeftBits(s + t) == LeftBits(LeftBits(s) + t)
    decreases |s|
  {
    if |s| >= 14 {
      var k := GroupSize(s);
      assert (s + t)[..13] == s[..13] && (s + t)[..k] == s[..k];
      assert (s + t)[k..] == s[k..] + t;
      GroupsInTwo(s[k..], t);
    }
  }

  /** One group at the front of a bit string. */
  lemma FirstGroup(g: seq<bool>, rest: seq<bool>)
    requires |g + rest| >= 14 && |g| == GroupSize(g + rest)
    ensures Value(g) < 8281
    ensures GroupDigits(g + rest) == PairOf(Value(g)) + GroupDigits(rest)
    ensures LeftBits(g + rest) == LeftBits(rest)
  {
    var s := g + rest;
    GroupValue(s);
    assert s[..|g|] == g && s[|g|..] == rest;
  }

  lemma CharactersOfPair(v: nat)
    requires v < 8281
    ensures Characters(PairOf(v)) == [Encoded(v % 91), Encoded(v / 91)]
  {
    var ds := PairOf(v);
    assert ds[1..] == [v / 91] && ds[1..][1..] == [];
  }

  /** The characters written, and the bits then pending, for bytes that follow pending bits. */
  function WrittenFor(pending: seq<bool>, buf: seq<Byte>): seq<Byte> {
    Characters(GroupDigits(pending + BitsOfBytes(buf)))
  }

  function PendingAfter(pending: seq<bool>, buf: seq<Byte>): seq<bool> {
    LeftBits(pending + BitsOfBytes(buf))
  }

  /** Two writes have the effect of one: output and pending bits depend only on the data. */
  lemma WritesJoin(p: seq<bool>, xs: seq<Byte>, ys: seq<Byte>)
    ensures WrittenFor(p, xs + ys) == WrittenFor(p, xs) + WrittenFor(PendingAfter(p, xs), ys)
    ensures PendingAfter(p, xs + ys) == PendingAfter(PendingAfter(p, xs), ys)
  {
    BitsOfBytesJoin(xs, ys);
    Associative(p, BitsOfBytes(xs), BitsOfBytes(ys));
    var q := p + BitsOfBytes(xs);
    GroupsInTwo(q, BitsOfBytes(ys));
    CharactersJoin(GroupDigits(q), GroupDigits(LeftBits(q) + BitsOfBytes(ys)));
  }

  lemma WrittenForByte(p: seq<bool>, b: Byte)
    ensures BitsOfBytes([b]) == Bits(b, 8)
  {
    assert [b][1..] == [];
    NothingAfter(Bits(b, 8));
  }

  /** The bytes written, and the bits and digit then pending, for text that follows pending
      bits and perhaps a pending digit. */
  function BytesFor(pending: seq<bool>, carry: seq<Digit>, text: seq<Byte>): seq<Byte> {
    WholeBytes(pending + PairBits(carry + DigitsIn(text)))
  }

  function BitsAfter(pending: seq<bool>, carry: seq<Digit>, text: seq<Byte>): seq<bool> {
    SpareBits(pending + PairBits(carry + DigitsIn(text)))
  }

  function CarryAfter(carry: seq<Digit>, text: seq<Byte>): seq<Digit> {
    OddDigit(carry + DigitsIn(text))
  }

  lemma {:induction false} PairsInTwo(ds: seq<Digit>, es: seq<Digit>)
    ensures PairBits(ds + es) == PairBits(ds) + PairBits(OddDigit(ds) + es)
    ensures OddDigit(ds + es) == OddDigit(OddDigit(ds) + es)
    decreases |ds|
  {
    if |ds| >= 2 {
      var g := GroupBits(ds[0], ds[1]);
      assert (ds + es)[2..] == ds[2..] + es;
      PairsInTwo(ds[2..], es);
      Associative(g, PairBits(ds[2..]), PairBits(OddDigit(ds[2..]) + es));
    }
  }

  /** Decoding in two writes has the effect of one. */
  lemma DecodesJoin(p: seq<bool>, c: seq<Digit>, t: seq<Byte>, u: seq<Byte>)
    ensures BytesFor(p, c, t + u) == BytesFor(p, c, t) + BytesFor(BitsAfter(p, c, t), CarryAfter(c, t), u)
    ensures BitsAfter(p, c, t + u) == BitsAfter(BitsAfter(p, c, t), CarryAfter(c, t), u)
    ensures CarryAfter(c, t + u) == CarryAfter(CarryAfter(c, t), u)
  {
    var ds, es := c + DigitsIn(t), DigitsIn(u);
    DigitsInJoin(t, u);
    Associative(c, DigitsIn(t), es);
    PairsInTwo(ds, es);
    var rest := PairBits(OddDigit(ds) + es);
    Associative(p, PairBits(ds), rest);
    WholeBytesInTwo(p + PairBits(ds), rest);
  }

  lemma DigitsInOne(b: Byte)
    ensures DigitsIn([b]) == if InAlphabet(b) then [Decoded(b)] else []
  {
    assert [b][1..] == [];
  }

  lemma PairFits(d: Digit, e: Digit)
    ensures PairValue(d, e) < Pow2(GroupLength(PairValue(d, e)))
  {
    assert Pow2(13) == 8192 && Pow2(14) == 16384;
  }

  /** A group taken off a number: its value is the masked number, the bits left are those of the
      shifted one. */
  lemma GroupTaken(n: nat, k: nat, j: nat, low: nat, high: nat)
    requires 14 <= k && n < Pow2(k)
    requires j == GroupSize(Bits(n, k))
    requires low < Pow2(j) && n == low + high * Pow2(j)
    ensures low < 8281 && high < Pow2(k - j)
    ensures GroupDigits(Bits(n, k)) == PairOf(low) + GroupDigits(Bits(high, k - j))
    ensures LeftBits(Bits(n, k)) == LeftBits(Bits(high, k - j))
  {
    var s := Bits(n, k);
    SplitAt(n, k, j, low, high);
    assert s[..j] + s[j..] == s;
    FirstGroup(s[..j], s[j..]);
  }

  lemma SizeFromMask(n: nat, k: nat)
    requires 14 <= k && n < Pow2(k)
    ensures GroupSize(Bits(n, k)) == if n % 8192 > 88 then 13 else 14
  {
    assert Pow2(13) == 8192;
    SplitAt(n, k, 13, n % 8192, n / 8192);
  }

  lemma CharactersOfOne(d: Digit)
    ensures Characters([d]) == [Encoded(d)]
  {
    assert [d][1..] == [];
  }

  /** The characters a flush writes. */
  lemma FlushCharacters(n: nat, k: nat)
    requires k < 14 && n < Pow2(k)
    ensures n < 8192
    ensures Characters(LastDigits(Bits(n, k))) ==
      if k == 0 then []
      else if k > 7 || n > 90 then [Encoded(n % 91), Encoded(n / 91)]
      else [Encoded(n)]
  {
    var r := Bits(n, k);
    ValueOfBits(n, k);
    LastFits(r);
    if k > 0 {
      if k > 7 || n > 90 {
        CharactersOfPair(n);
      } else {
        CharactersOfOne(n);
      }
    }
  }

  lemma EncodedInParts(buf: seq<Byte>)
    ensures EncodedText(buf) == WrittenFor([], buf) + Characters(LastDigits(PendingAfter([], buf)))
  {
    var s := BitsOfBytes(buf);
    assert [] + s == s;
    CharactersJoin(GroupDigits(s), LastDigits(LeftBits(s)));
  }

  lemma DecodedInParts(text: seq<Byte>)
    ensures DecodedText(text) == BytesFor([], [], text) +
      if CarryAfter([], text) == [] then []
      else [LastByte(BitsAfter([], [], text), CarryAfter([], text)[0])]
  {
    var ds := DigitsIn(text);
    assert [] + ds == ds;
    assert [] + PairBits(ds) == PairBits(ds);
  }

  /** A completed pair of digits. */
  lemma PairDecoded(p: seq<bool>, first: Digit, b: Byte)
    requires InAlphabet(b)
    ensures var s := p + GroupBits(first, Decoded(b));
      && BytesFor(p, [first], [b]) == WholeBytes(s)
      && BitsAfter(p, [first], [b]) == SpareBits(s)
      && CarryAfter([first], [b]) == []
  {
    DigitsInOne(b);
    var d := Decoded(b);
    PairBitsOfTwo(first, d);
    assert [first] + [d] == [first, d];
    assert [first, d][2..] == [];
  }

  /** A first digit, or a character outside the alphabet, completes nothing. */
  lemma NothingDecoded(p: seq<bool>, c: seq<Digit>, b: Byte)
    requires |p| < 8 && |c| <= 1
    requires InAlphabet(b) ==> c == []
    ensures BytesFor(p, c, [b]) == [] && BitsAfter(p, c, [b]) == p
    ensures CarryAfter(c, [b]) == if InAlphabet(b) then [Decoded(b)] else c
  {
    DigitsInOne(b);
    var ds := c + DigitsIn([b]);
    assert ds == if InAlphabet(b) then [Decoded(b)] else c;
    assert p + [] == p;
  }

  /** The encoder's state between calls: fewer than 14 pending bits, kept as a number. */
  class Base91Encoder {
    var written: seq<Byte>
    var accumulator: nat
    var bits: nat

    ghost predicate Valid()
      reads this
    {
      bits < 14 && accumulator < Pow2(bits)
    }

    ghost function Pending(): (s: seq<bool>)
      reads this
      requires Valid()
      ensures |s| == bits
    {
      Bits(accumulator, bits)
    }

    constructor ()
      ensures Valid() && written == [] && Pending() == []
    {
      written, accumulator, bits := [], 0, 0;
    }

    /** Takes a 13- or 14-bit group off the accumulator. */
    method TakeGroup() returns (value: nat)
      requires 14 <= bits <= 21 && accumulator < Pow2(bits)
      modifies this
      ensures Valid() && written == old(written)
      ensures value < 8281
      ensures GroupDigits(old(Bits(accumulator, bits))) == PairOf(value)
      ensures Pending() == LeftBits(old(Bits(accumulator, bits)))
    {
      ghost var n, k := accumulator, bits;
      assert Pow2(13) == 8192 && Pow2(14) == 16384;
      SizeFromMask(n, k);
      value := accumulator % 8192;
      if value > 88 {
        GroupTaken(n, k, 13, n % 8192, n / 8192);
        accumulator := accumulator / 8192;
        bits := bits - 13;
      } else {
        GroupTaken(n, k, 14, n % 16384, n / 16384);
        value := accumulator % 16384;
        accumulator := accumulator / 16384;
        bits := bits - 14;
      }
    }

    method WriteByte(b: Byte)
      requires Valid()
      modifies this
      ensures Valid()
      ensures written == old(written) + WrittenFor(old(Pending()), [b])
      ensures Pending() == PendingAfter(old(Pending()), [b])
    {
      WrittenForByte(Pending(), b);
      assert Pow2(8) == 256;
      accumulator := OrAbove(accumulator, bits, b, 8);
      bits := bits + 8;
      if bits > 13 {
        var value := TakeGroup();
        written := written + [Encoded(value % 91), Encoded(value / 91)];
        CharactersOfPair(value);
      }
    }

    /** The pending bits and the new bytes are grouped as one bit string. */
    method Write(buf: seq<Byte>) returns (count: nat)
      requires Valid()
      modifies this
      ensures Valid() && count == |buf|
      ensures written == old(written) + WrittenFor(old(Pending()), buf)
      ensures Pending() == PendingAfter(old(Pending()), buf)
    {
      ghost var p := Pending();
      for i := 0 to |buf|
        invariant Valid()
        invariant PendingAfter(p, buf) == PendingAfter(Pending(), buf[i..])
        invariant old(written) + WrittenFor(p, buf) == written + WrittenFor(Pending(), buf[i..])
      {
        ghost var q := PendingAfter(Pending(), [buf[i]]);
        assert buf[i..] == [buf[i]] + buf[i + 1..];
        WritesJoin(Pending(), [buf[i]], buf[i + 1..]);
        Associative(written, WrittenFor(Pending(), [buf[i]]), WrittenFor(q, buf[i + 1..]));
        WriteByte(buf[i]);
      }
      NothingAfter(Pending());
      count := |buf|;
    }

    method Flush()
      requires Valid()
      modifies this
      ensures Valid() && Pending() == []
      ensures written == old(written) + Characters(LastDigits(old(Pending())))
    {
      FlushCharacters(accumulator, bits);
      NothingAfter(written);
      if bits > 0 {
        if bits > 7 || accumulator > 90 {
          written := written + [Encoded(accumulator % 91), Encoded(accumulator / 91)];
        } else {
          written := written + [Encoded(accumulator % 91)];
        }
      }
      bits := 0;
      accumulator := 0;
    }
  }

  /** The decoder's state between calls: fewer than 8 pending bits and perhaps the first digit
      of a pair. */
  class Base91Decoder {
    var written: seq<Byte>
    var accumulator: nat
    var bits: nat
    var value: Option<Digit>

    ghost predicate Valid()
      reads this
    {
      bits < 8 && accumulator < Pow2(bits)
    }

    ghost function Pending(): (s: seq<bool>)
      reads this
      requires Valid()
      ensures |s| == bits
    {
      Bits(accumulator, bits)
    }

    ghost function Carry(): (c: seq<Digit>)
      reads this
    {
      match value
      case None => []
      case Some(d) => [d]
    }

    constructor ()
      ensures Valid() && written == [] && Pending() == [] && Carry() == []
    {
      written, accumulator, bits, value := [], 0, 0, None;
    }

    /** Writes every whole byte the accumulator holds. */
    method WriteWholeBytes()
      requires 8 <= bits && accumulator < Pow2(bits)
      modifies this
      ensures Valid() && value == old(value)
      ensures written == old(written) + WholeBytes(old(Bits(accumulator, bits)))
      ensures Pending() == SpareBits(old(Bits(accumulator, bits)))
    {
      ghost var s := Bits(accumulator, bits);
      assert Pow2(8) == 256;
      while true
        invariant 8 <= bits && accumulator < Pow2(bits) && value == old(value)
        invariant old(written) + WholeBytes(s) == written + WholeBytes(Bits(accumulator, bits))
        invariant SpareBits(s) == SpareBits(Bits(accumulator, bits))
        decreases bits
      {
        ghost var t := Bits(accumulator, bits);
        SplitAt(accumulator, bits, 8, accumulator % 256, accumulator / 256);
        Associative(written, [FirstByte(t)], WholeBytes(t[8..]));
        written := written + [accumulator % 256];
        accumulator := accumulator / 256;
        bits := bits - 8;
        if bits < 8 {
          NothingAfter(written);
          break;
        }
      }
    }

    /** Adds the 13 or 14 bits of a pair of digits. */
    method TakePair(first: Digit, second: Digit)
      requires Valid()
      modifies this
      ensures Valid() && value == old(value)
      ensures written == old(written) + WholeBytes(old(Pending()) + GroupBits(first, second))
      ensures Pending() == SpareBits(old(Pending()) + GroupBits(first, second))
    {
      ghost var s := Pending() + GroupBits(first, second);
      var pair := PairValue(first, second);
      PairFits(first, second);
      accumulator := OrAbove(accumulator, bits, pair, GroupLength(pair));
      bits := bits + GroupLength(pair);
      assert Bits(accumulator, bits) == s;
      WriteWholeBytes();
    }

    method WriteByte(b: Byte)
      requires Valid()
      modifies this
      ensures Valid()
      ensures written == old(written) + BytesFor(old(Pending()), old(Carry()), [b])
      ensures Pending() == BitsAfter(old(Pending()), old(Carry()), [b])
      ensures Carry() == CarryAfter(old(Carry()), [b])
    {
      var d := Decoded(b);
      if d == INV {
        NothingDecoded(Pending(), Carry(), b);
      } else {
        match value {
          case Some(first) =>
            PairDecoded(Pending(), first, b);
            value := None;
            TakePair(first, d);
          case None =>
            NothingDecoded(Pending(), Carry(), b);
            value := Some(d);
        }
      }
    }

    /** Pending state and text are decoded as one digit string. */
    method Write(text: seq<Byte>) returns (count: nat)
      requires Valid()
      modifies this
      ensures Valid() && count == |text|
      ensures written == old(written) + BytesFor(old(Pending()), old(Carry()), text)
      ensures Pending() == BitsAfter(old(Pending()), old(Carry()), text)
      ensures Carry() == CarryAfter(old(Carry()), text)
    {
      ghost var p, c := Pending(), Carry();
      for i := 0 to |text|
        invariant Valid()
        invariant BitsAfter(p, c, text) == BitsAfter(Pending(), Carry(), text[i..])
        invariant CarryAfter(c, text) == CarryAfter(Carry(), text[i..])
        invariant old(written) + BytesFor(p, c, text) == written + BytesFor(Pending(), Carry(), text[i..])
      {
        ghost var q, e := BitsAfter(Pending(), Carry(), [text[i]]), CarryAfter(Carry(), [text[i]]);
        assert text[i..] == [text[i]] + text[i + 1..];
        DecodesJoin(Pending(), Carry(), [text[i]], text[i + 1..]);
        Associative(written, BytesFor(Pending(), Carry(), [text[i]]), BytesFor(q, e, text[i + 1..]));
        WriteByte(text[i]);
      }
      AtEnd();
      count := |text|;
    }

    lemma AtEnd()
      requires Valid()
      ensures BytesFor(Pending(), Carry(), []) == []
      ensures BitsAfter(Pending(), Carry(), []) == Pending()
      ensures CarryAfter(Carry(), []) == Carry()
    {
      NothingAfter(Carry());
      NothingAfter(Pending());
    }

    /** An odd last digit completes a byte; its bits beyond that are dropped. */
    method Flush()
      requires Valid()
      modifies this
      ensures Valid() && Pending() == [] && Carry() == []
      ensures written == old(written) + if old(Carry()) == [] then [] else [LastByte(old(Pending()), old(Carry())[0])]
    {
      match value {
        case Some(d) =>
          value := None;
          var last := OrIntoByte(accumulator, bits, d);
          written := written + [last];
        case None =>
      }
      bits := 0;
      accumulator := 0;
    }
  }

  method Encode(buf: seq<Byte>) returns (text: seq<Byte>)
    ensures text == EncodedText(buf)
    ensures DecodedText(text) == buf
  {
    var writer := new Base91Encoder();
    var n := writer.Write(buf);
    writer.Flush();
    text := writer.written;
    EncodedInParts(buf);
    RoundTrip(buf);
  }

  method Decode(text: seq<Byte>) returns (data: seq<Byte>)
    ensures data == DecodedText(text)
  {
    var writer := new Base91Decoder();
    var n := writer.Write(text);
    writer.Flush();
    data := writer.written;
    DecodedInParts(text);
  }
}
