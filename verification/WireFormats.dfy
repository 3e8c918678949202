/** The byte formats themselves: which digit, bit and field stands where. */
module WireFormats {
  import opened Wrappers
  import opened BitStrings
  import opened Leb128
  import opened Framing
  import opened AsyncFraming
  import opened Base91

  // ----- LEB128 -----

  /** Byte i of an encoded value holds its base-128 digit i, and its top bit says whether more bytes
      follow. */
  lemma {:induction false} LebDigits(n: nat, i: nat)
    requires i < |Leb(n)|
    ensures Leb(n)[i] % 128 == (n / Pow128(i)) % 128
    ensures Leb(n)[i] >= 128 <==> i < |Leb(n)| - 1
    decreases i
  {
    if i > 0 {
      LebDigits(n / 128, i - 1);
      DivideTwice(n, Pow128(i - 1));
    }
  }

  lemma Scaled(p: nat, b: nat)
    ensures p * (128 * b) == 128 * (p * b)
  {
  }

  lemma DivideTwice(n: nat, b: nat)
    requires b > 0
    ensures (n / 128) / b == n / (128 * b)
  {
    var q, r := n / 128, n % 128;
    DivideBack(q, b);
    var p, t := q / b, q % b;
    Scaled(p, b);
    RemainderIs(n, 128 * b, p, 128 * t + r);
  }

  /** The first n bytes all say that more follow. */
  predicate AllContinue(s: seq<Byte>, n: nat) {
    n <= |s| && forall i :: 0 <= i < n ==> s[i] >= 128
  }

  lemma {:induction false} LebErrorsFrom(s: seq<Byte>, count: nat, left: nat)
    requires count <= 9 && left == 9 - count
    ensures ReadLebFrom(s, count) == Err(Overflow) <==> |s| > left && AllContinue(s, left) && s[left] > 1
    ensures ReadLebFrom(s, count) == Err(Eof) <==> |s| <= left && AllContinue(s, |s|)
    ensures ReadLebFrom(s, count).Err? ==> ReadLebFrom(s, count).error in {Overflow, Eof}
    decreases left
  {
    if s != [] && count < 9 && s[0] >= 128 {
      var rest, n := s[1..], left - 1;
      LebErrorsFrom(rest, count + 1, n);
      ContinuesOn(s, n);
      ContinuesOn(s, |rest|);
    }
  }

  lemma ContinuesOn(s: seq<Byte>, n: nat)
    requires s != [] && s[0] >= 128
    ensures AllContinue(s, n + 1) <==> AllContinue(s[1..], n)
  {
    if AllContinue(s[1..], n) {
      forall i | 0 <= i < n + 1 ensures s[i] >= 128 {
        assert i > 0 ==> s[i] == s[1..][i - 1];
      }
    }
  }

  /** A value is refused as too large exactly if nine bytes continue and the tenth exceeds one, and asks
      for more bytes exactly if all there are continue and there are fewer than ten. */
  lemma LebErrors(s: seq<Byte>)
    ensures ReadLeb(s) == Err(Overflow) <==> |s| >= 10 && AllContinue(s, 9) && s[9] > 1
    ensures ReadLeb(s) == Err(Eof) <==> |s| < 10 && AllContinue(s, |s|)
    ensures ReadLeb(s).Err? ==> ReadLeb(s).error in {Overflow, Eof}
  {
    LebErrorsFrom(s, 0, 9);
  }

  // ----- frames -----

  /** The declared length is the size of what follows it, with the highest of 64 bits set for a
      compressed payload. */
  lemma LengthOnTheWire(f: Frame)
    requires Fits(f) && BodySize(f) < 0x8000_0000_0000_0000
    ensures TaggedLength(f) == (|Leb(f.serial)| + |Leb(f.ident)| + |f.data|) + if f.isCompressed then 0x8000_0000_0000_0000 else 0
  {
    TaggedLengthIs(f);
  }

  lemma HeaderSteps(s: seq<Byte>, t: seq<Byte>, u: seq<Byte>, n: Read<nat>, serial: Read<nat>, ident: Read<nat>)
    requires ReadLeb(s) == Ok(n) && s[n.size..] == t
    requires ReadLeb(t) == Ok(serial) && t[serial.size..] == u && ReadLeb(u) == Ok(ident)
    ensures ReadHeader(s) == Ok(Read(Header(Untagged(n.value), IsTagged(n.value), serial.value, ident.value),
                                     n.size + serial.size + ident.size))
  {
  }

  lemma HeaderOnTheWire(n: nat, serial: nat, ident: nat, a: seq<Byte>, b: seq<Byte>, c: seq<Byte>, rest: seq<Byte>)
    requires n < U64_LIMIT && serial < U64_LIMIT && ident < U64_LIMIT && a == Leb(n) && b == Leb(serial) && c == Leb(ident)
    ensures ReadHeader(a + (b + (c + rest)))
         == Ok(Read(Header(Untagged(n), IsTagged(n), serial, ident), |a| + |b| + |c|))
  {
    LebRoundTrip(n, b + (c + rest));
    AndThen(a, b + (c + rest));
    LebRoundTrip(serial, c + rest);
    AndThen(b, c + rest);
    LebRoundTrip(ident, rest);
    HeaderSteps(a + (b + (c + rest)), b + (c + rest), c + rest, Read(n, |a|), Read(serial, |b|), Read(ident, |c|));
  }

  function FrameOf(h: Header, size: nat, left: int, rest: seq<Byte>): Result<Read<Frame>, ReadError> {
    if left < 0 then Err(BadSizes)
    else if |rest| < left then Err(Eof)
    else Ok(Read(Frame(h.ident, h.serial, rest[..left], h.isCompressed), size + left))
  }

  lemma PayloadSteps(s: seq<Byte>, h: Header, size: nat, left: int, rest: seq<Byte>)
    requires ReadHeader(s) == Ok(Read(h, size)) && |s| == size + |rest| && s[size..] == rest
    requires left == h.length - HeaderSizes(h)
    ensures DecodeFrame(s) == FrameOf(h, size, left, rest)
  {
    assert 0 <= left <= |rest| ==> s[size..size + left] == s[size..][..left];
  }

  lemma BehindThree(a: seq<Byte>, b: seq<Byte>, c: seq<Byte>, rest: seq<Byte>)
    ensures var s, size := a + (b + (c + rest)), |a| + |b| + |c|;
            |s| == size + |rest| && s[size..] == rest
  {
    assert a + (b + (c + rest)) == (a + b + c) + rest;
    AndThen(a + b + c, rest);
  }

  /** What three numbers and the bytes behind them decode to: the size declared by the first, without its
      highest bit, must cover the other two; what is left of it is the payload; and the highest bit says
      whether that is compressed. */
  lemma FrameOnTheWire(n: nat, serial: nat, ident: nat, a: seq<Byte>, b: seq<Byte>, c: seq<Byte>, rest: seq<Byte>)
    requires n < U64_LIMIT && serial < U64_LIMIT && ident < U64_LIMIT && a == Leb(n) && b == Leb(serial) && c == Leb(ident)
    ensures var compressed := n >= 0x8000_0000_0000_0000;
            var length := if compressed then n - 0x8000_0000_0000_0000 else n;
            DecodeFrame(a + (b + (c + rest)))
            == FrameOf(Header(length, compressed, serial, ident), |a| + |b| + |c|, length - |b| - |c|, rest)
  {
    HeaderOnTheWire(n, serial, ident, a, b, c, rest);
    BehindThree(a, b, c, rest);
    var h := Header(Untagged(n), IsTagged(n), serial, ident);
    PayloadSteps(a + (b + (c + rest)), h, |a| + |b| + |c|, h.length - |b| - |c|, rest);
  }

  const HELLO: seq<Byte> := [0x68, 0x65, 0x6c, 0x6c, 0x6f]

  /** The frame of the crate's own test: length, serial, identifier, payload. */
  lemma FrameExample()
    ensures FrameBytes(Frame(0x81, 0x42, HELLO, false)) == [0x08, 0x42, 0x81, 0x01] + HELLO
  {
    assert Leb(1) == [1];
    assert Leb(0x81) == [0x81, 0x01] && Leb(0x42) == [0x42] && Leb(8) == [8];
    assert BodySize(Frame(0x81, 0x42, HELLO, false)) == 8;
  }

  /** The asynchronous decoder refuses a frame exactly if a positive limit is given and the serial
      number is above it. */
  lemma RefusedFrames(f: Frame, rest: seq<Byte>, maxSerial: Option<nat>)
    requires Fits(f)
    ensures SerialIsImplausible(FrameBytes(f) + rest, maxSerial)
       <==> maxSerial.Some? && maxSerial.value > 0 && f.serial > maxSerial.value
  {
    var s := FrameBytes(f) + rest;
    var tagged, body := Leb(TaggedLength(f)), Leb(f.ident) + f.data + rest;
    TaggedLengthIs(f);
    assert s == tagged + (Leb(f.serial) + body);
    LebRoundTrip(TaggedLength(f), Leb(f.serial) + body);
    assert s[|tagged|..] == Leb(f.serial) + body;
    LebRoundTrip(f.serial, body);
  }

  // ----- basE91 -----

  /** Bits come byte by byte, the lowest of each byte first. */
  lemma {:induction false} BitOrder(xs: seq<Byte>, i: nat, j: nat)
    requires i < |xs| && j < 8
    ensures BitsOfBytes(xs)[8 * i + j] <==> (xs[i] / Pow2(j)) % 2 == 1
    decreases i
  {
    if i == 0 {
      BitAt(xs[0], 8, j);
    } else {
      BitOrder(xs[1..], i - 1, j);
    }
  }

  lemma Halved(n: nat, p: nat)
    requires p > 0
    ensures (n / 2) / p == n / (2 * p)
  {
    var q := n / 2;
    DivideBack(q, p);
    DoubleProduct(q / p, p);
    RemainderIs(n, 2 * p, q / p, 2 * (q % p) + n % 2);
  }

  lemma {:induction false} BitAt(n: nat, k: nat, j: nat)
    requires j < k
    ensures Bits(n, k)[j] <==> (n / Pow2(j)) % 2 == 1
    decreases j
  {
    if j > 0 {
      BitAt(n / 2, k - 1, j - 1);
      Halved(n, Pow2(j - 1));
    }
  }

  /** Encoding takes 13 bits if they are worth more than 88 and 14 otherwise, writes their value in base
      91 with the low digit first, and goes on with the bits behind. */
  lemma GroupsOnTheWire(s: seq<bool>)
    requires |s| >= 14
    ensures var ds, k := DigitsOf(s), if Value(s[..13]) > 88 then 13 else 14;
            && |ds| >= 2 && ds[0] as int + 91 * (ds[1] as int) == Value(s[..k]) && ds[2..] == DigitsOf(s[k..])
  {
    GroupValue(s);
    var k := GroupSize(s);
    assert DigitsOf(s) == PairOf(Value(s[..k])) + DigitsOf(s[k..]);
  }

  /** What is left at the end takes no digit if it is nothing, one if it is at most seven bits worth at
      most 90, and two otherwise. */
  lemma EndOnTheWire(s: seq<bool>)
    requires |s| < 14
    ensures var ds := DigitsOf(s);
            if s == [] then ds == []
            else if |s| <= 7 && Value(s) <= 90 then |ds| == 1 && ds[0] == Value(s)
            else |ds| == 2 && ds[0] as int + 91 * (ds[1] as int) == Value(s)
  {
    LastFits(s);
  }

  /** The text holds the characters of the digits in order. */
  lemma {:induction false} CharacterAt(ds: seq<Digit>, i: nat)
    requires i < |ds|
    ensures Characters(ds)[i] == ALPHABET[ds[i]] as int
    decreases i
  {
    if i > 0 {
      CharacterAt(ds[1..], i - 1);
    } else {
      EncodedIsAlphabet(ds[0]);
    }
  }
}
