/** Mux protocol frames: a tagged length, a serial number, an identifier and the payload. */
module Framing {

  import opened Wrappers
  import opened Sequences
  import opened BitStrings
  import opened Leb128

  /** The bit of the length that marks a compressed payload. */
  const COMPRESSED_MASK: nat := 0x8000_0000_0000_0000

  datatype Frame = Frame(ident: nat, serial: nat, data: seq<Byte>, isCompressed: bool)

  /** The length a frame declares: everything after the length itself. */
  function BodySize(f: Frame): nat {
    |f.data| + |Leb(f.ident)| + |Leb(f.serial)|
  }

  /** Numbers and length fit their 64-bit types. */
  predicate Fits(f: Frame) {
    f.ident < U64_LIMIT && f.serial < U64_LIMIT && BodySize(f) < U64_LIMIT
  }

  function TaggedLength(f: Frame): nat {
    if f.isCompressed then BitOr(BodySize(f), COMPRESSED_MASK) else BodySize(f)
  }

  function FrameBytes(f: Frame): seq<Byte> {
    Leb(TaggedLength(f)) + (Leb(f.serial) + (Leb(f.ident) + f.data))
  }

  // ----- decoding -----

  datatype Header = Header(length: nat, isCompressed: bool, serial: nat, ident: nat)

  predicate IsTagged(length: nat) {
    length >= COMPRESSED_MASK
  }

  function Untagged(length: nat): nat {
    if IsTagged(length) then length - COMPRESSED_MASK else length
  }

  function ReadIdent(s: seq<Byte>, length: nat, serial: nat, size: nat): (r: Result<Read<Header>, ReadError>)
    ensures r.Ok? ==> size < r.value.size <= size + |s|
  {
    match ReadLeb(s)
    case Ok(ident) => Ok(Read(Header(Untagged(length), IsTagged(length), serial, ident.value), size + ident.size))
    case Err(e) => Err(e)
  }

  function ReadSerial(s: seq<Byte>, length: nat, size: nat): (r: Result<Read<Header>, ReadError>)
    ensures r.Ok? ==> size < r.value.size <= size + |s|
  {
    match ReadLeb(s)
    case Ok(serial) => ReadIdent(s[serial.size..], length, serial.value, size + serial.size)
    case Err(e) => Err(e)
  }

  function ReadHeader(s: seq<Byte>): (r: Result<Read<Header>, ReadError>)
    ensures r.Ok? ==> 0 < r.value.size <= |s|
  {
    match ReadLeb(s)
    case Ok(length) => ReadSerial(s[length.size..], length.value, length.size)
    case Err(e) => Err(e)
  }

  function HeaderSizes(h: Header): nat {
    |Leb(h.ident)| + |Leb(h.serial)|
  }

  /** The frame whose header has been read from the front of s. */
  function FrameAfter(s: seq<Byte>, header: Result<Read<Header>, ReadError>): (r: Result<Read<Frame>, ReadError>)
    requires header.Ok? ==> 0 < header.value.size <= |s|
    ensures r.Ok? ==> 0 < r.value.size <= |s|
  {
    match header
    case Err(e) => Err(e)
    case Ok(h) =>
      if h.value.length < HeaderSizes(h.value) then Err(BadSizes)
      else
        var size := h.value.length - HeaderSizes(h.value);
        if |s| - h.size < size then Err(Eof)
        else Ok(Read(Frame(h.value.ident, h.value.serial, s[h.size..h.size + size], h.value.isCompressed), h.size + size))
  }

  /** The frame at the front of a byte string and the bytes it takes. */
  function DecodeFrame(s: seq<Byte>): (r: Result<Read<Frame>, ReadError>)
    ensures r.Ok? ==> 0 < r.value.size <= |s|
  {
    FrameAfter(s, ReadHeader(s))
  }

  lemma AndThen(a: seq<Byte>, b: seq<Byte>)
    ensures (a + b)[|a|..] == b
  {
  }

  lemma TaggedLengthIs(f: Frame)
    requires Fits(f)
    ensures TaggedLength(f) < U64_LIMIT
    ensures BodySize(f) < COMPRESSED_MASK ==>
      (Untagged(TaggedLength(f)) == BodySize(f) && IsTagged(TaggedLength(f)) == f.isCompressed)
    ensures BodySize(f) >= COMPRESSED_MASK ==>
      (IsTagged(TaggedLength(f)) && Untagged(TaggedLength(f)) == BodySize(f) - COMPRESSED_MASK)
  {
    var size := BodySize(f);
    PowerOfMask(4);
    var k := 16 * 4 - 1;
    if size < COMPRESSED_MASK {
      OrIsSum(size, k, 1);
    } else {
      OrTop(size - COMPRESSED_MASK, k);
    }
  }

  lemma SquarePower(k: nat, p: nat)
    requires Pow2(k) == p
    ensures Pow2(k + k) == p * p
  {
    Pow2Adds(k, k);
  }

  lemma PowerOfMask(k: nat)
    requires Pow2(k) == 16
    ensures Pow2(16 * k - 1) == COMPRESSED_MASK
  {
    SquarePower(k, 16);
    SquarePower(k + k, 256);
    SquarePower(4 * k, 65536);
    SquarePower(8 * k, 0x1_0000_0000);
    assert 2 * Pow2(16 * k - 1) == Pow2(16 * k);
  }

  /** Or-ing in a bit that is set already. */
  lemma {:induction false} OrTop(a: nat, k: nat)
    requires a < Pow2(k)
    ensures BitOr(a + Pow2(k), Pow2(k)) == a + Pow2(k)
    decreases k
  {
    if k > 0 {
      var n := a + Pow2(k);
      assert n % 2 == a % 2 && n / 2 == a / 2 + Pow2(k - 1);
      OrTop(a / 2, k - 1);
    }
  }

  lemma IdentOf(ident: nat, length: nat, serial: nat, size: nat, rest: seq<Byte>)
    requires ident < U64_LIMIT
    ensures ReadIdent(Leb(ident) + rest, length, serial, size)
         == Ok(Read(Header(Untagged(length), IsTagged(length), serial, ident), size + |Leb(ident)|))
  {
    LebRoundTrip(ident, rest);
  }

  lemma SerialOf(serial: nat, length: nat, size: nat, rest: seq<Byte>)
    requires serial < U64_LIMIT
    ensures ReadSerial(Leb(serial) + rest, length, size) == ReadIdent(rest, length, serial, size + |Leb(serial)|)
  {
    LebRoundTrip(serial, rest);
    AndThen(Leb(serial), rest);
  }

  lemma LengthOf(length: nat, rest: seq<Byte>)
    requires length < U64_LIMIT
    ensures ReadHeader(Leb(length) + rest) == ReadSerial(rest, length, |Leb(length)|)
  {
    LebRoundTrip(length, rest);
    AndThen(Leb(length), rest);
  }

  lemma HeaderThen(a: seq<Byte>, b: seq<Byte>, c: seq<Byte>, data: seq<Byte>, rest: seq<Byte>)
    ensures a + (b + (c + data)) + rest == a + (b + (c + (data + rest)))
    ensures (a + (b + (c + data)) + rest)[|a| + |b| + |c|..] == data + rest
  {
  }

  lemma NumbersOf(serial: nat, ident: nat, b: seq<Byte>, c: seq<Byte>, length: nat, size: nat, rest: seq<Byte>)
    requires serial < U64_LIMIT && ident < U64_LIMIT
    requires b == Leb(serial) && c == Leb(ident)
    ensures ReadSerial(b + (c + rest), length, size)
         == Ok(Read(Header(Untagged(length), IsTagged(length), serial, ident), size + |b| + |c|))
  {
    var t := c + rest;
    SerialOf(serial, length, size, t);
    IdentOf(ident, length, serial, size + |b|, rest);
  }

  lemma HeaderParts(length: nat, serial: nat, ident: nat, a: seq<Byte>, b: seq<Byte>, c: seq<Byte>, rest: seq<Byte>)
    requires length < U64_LIMIT && serial < U64_LIMIT && ident < U64_LIMIT
    requires a == Leb(length) && b == Leb(serial) && c == Leb(ident)
    ensures ReadHeader(a + (b + (c + rest)))
         == Ok(Read(Header(Untagged(length), IsTagged(length), serial, ident), |a| + |b| + |c|))
  {
    var t := b + (c + rest);
    NumbersOf(serial, ident, b, c, length, |a|, rest);
    LengthOf(length, t);
  }

  lemma HeaderOf(f: Frame, rest: seq<Byte>)
    requires Fits(f)
    ensures var s := FrameBytes(f) + rest;
            var length := TaggedLength(f);
            var size := |FrameBytes(f)| - |f.data|;
      && ReadHeader(s) == Ok(Read(Header(Untagged(length), IsTagged(length), f.serial, f.ident), size))
      && s[size..] == f.data + rest
  {
    TaggedLengthIs(f);
    var a, b, c := Leb(TaggedLength(f)), Leb(f.serial), Leb(f.ident);
    HeaderThen(a, b, c, f.data, rest);
    HeaderParts(TaggedLength(f), f.serial, f.ident, a, b, c, f.data + rest);
  }

  /** Decoding a frame gives it back and takes exactly its bytes, whatever follows, precisely
      when its declared length leaves the tag bit free. */
  lemma FrameRoundTrip(f: Frame, rest: seq<Byte>)
    requires Fits(f)
    ensures DecodeFrame(FrameBytes(f) + rest) == Ok(Read(f, |FrameBytes(f)|)) <==> BodySize(f) < COMPRESSED_MASK
  {
    HeaderOf(f, rest);
    TaggedLengthIs(f);
    var s := FrameBytes(f) + rest;
    var size := |FrameBytes(f)| - |f.data|;
    if BodySize(f) < COMPRESSED_MASK {
      assert s[size..size + |f.data|] == s[size..][..|f.data|] == f.data;
    }
  }

  /** Any answer other than "more bytes" stays the same when more bytes arrive. */
  lemma HeaderSettled(s: seq<Byte>, t: seq<Byte>)
    requires ReadHeader(s) != Err(Eof)
    ensures ReadHeader(s + t) == ReadHeader(s)
  {
    ReadLebSettled(s, t);
    if ReadLeb(s).Ok? {
      var a := ReadLeb(s).value;
      var s1 := s[a.size..];
      assert (s + t)[a.size..] == s1 + t;
      ReadLebSettled(s1, t);
      if ReadLeb(s1).Ok? {
        var b := ReadLeb(s1).value;
        var s2 := s1[b.size..];
        assert (s1 + t)[b.size..] == s2 + t;
        ReadLebSettled(s2, t);
      }
    }
  }

  lemma FrameSettled(s: seq<Byte>, t: seq<Byte>)
    requires DecodeFrame(s) != Err(Eof)
    ensures DecodeFrame(s + t) == DecodeFrame(s)
  {
    HeaderSettled(s, t);
    if DecodeFrame(s).Ok? {
      var h := ReadHeader(s).value;
      var size := h.value.length - HeaderSizes(h.value);
      assert (s + t)[h.size..h.size + size] == s[h.size..h.size + size];
    }
  }

  lemma CutShort(s: seq<Byte>, k: nat)
    requires DecodeFrame(s).Ok? && DecodeFrame(s).value.size == |s| && k < |s|
    ensures DecodeFrame(s[..k]) == Err(Eof)
  {
    assert s[..k] + s[k..] == s;
    if DecodeFrame(s[..k]) != Err(Eof) {
      FrameSettled(s[..k], s[k..]);
    }
  }

  /** A frame cut short anywhere asks for more bytes. */
  lemma FramePrefix(f: Frame, k: nat)
    requires Fits(f) && BodySize(f) < COMPRESSED_MASK
    requires k < |FrameBytes(f)|
    ensures DecodeFrame(FrameBytes(f)[..k]) == Err(Eof)
  {
    FrameRoundTrip(f, []);
    NothingAfter(FrameBytes(f));
    CutShort(FrameBytes(f), k);
  }

  // ----- streams of frames -----

  /** The frames a byte string starts with, the bytes after them, and why no frame follows. */
  function Frames(s: seq<Byte>): seq<Frame>
    decreases |s|
  {
    match DecodeFrame(s)
    case Ok(r) => [r.value] + Frames(s[r.size..])
    case Err(_) => []
  }

  function Unframed(s: seq<Byte>): (rest: seq<Byte>)
    ensures DecodeFrame(rest).Err?
    decreases |s|
  {
    match DecodeFrame(s)
    case Ok(r) => Unframed(s[r.size..])
    case Err(_) => s
  }

  function AllBytes(fs: seq<Frame>): seq<Byte> {
    if fs == [] then [] else FrameBytes(fs[0]) + AllBytes(fs[1..])
  }

  lemma FramesStep(s: seq<Byte>, f: Frame, size: nat, t: seq<Byte>)
    requires DecodeFrame(s) == Ok(Read(f, size))
    ensures size <= |s|
    ensures Frames(s + t) == [f] + Frames(s[size..] + t)
    ensures Unframed(s + t) == Unframed(s[size..] + t)
  {
    FrameSettled(s, t);
    assert (s + t)[size..] == s[size..] + t;
  }

  /** Frames may be taken from a stream in two goes, wherever it is cut, whether or not the
      bytes are well formed. */
  lemma {:induction false} FramesInTwo(s: seq<Byte>, t: seq<Byte>)
    ensures Frames(s + t) == Frames(s) + Frames(Unframed(s) + t)
    ensures Unframed(s + t) == Unframed(Unframed(s) + t)
    decreases |s|
  {
    var r := DecodeFrame(s);
    if r.Ok? {
      var tail := s[r.value.size..];
      FramesStep(s, r.value.value, r.value.size, t);
      FramesInTwo(tail, t);
      assert Frames(s) == [r.value.value] + Frames(tail);
      assert Unframed(s) == Unframed(tail);
    }
  }

  lemma FramesOfOne(f: Frame, tail: seq<Byte>)
    requires Fits(f) && BodySize(f) < COMPRESSED_MASK
    ensures Frames(FrameBytes(f) + tail) == [f] + Frames(tail)
    ensures Unframed(FrameBytes(f) + tail) == Unframed(tail)
  {
    FrameRoundTrip(f, tail);
    AndThen(FrameBytes(f), tail);
  }

  /** A stream of whole frames and the start of another decodes to exactly those frames. */
  lemma {:induction false} FramesOfAll(fs: seq<Frame>, part: seq<Byte>)
    requires forall f :: f in fs ==> Fits(f) && BodySize(f) < COMPRESSED_MASK
    requires DecodeFrame(part) == Err(Eof)
    ensures Frames(AllBytes(fs) + part) == fs
    ensures Unframed(AllBytes(fs) + part) == part
  {
    if fs == [] {
      assert AllBytes(fs) + part == part;
    } else {
      var f, later := fs[0], AllBytes(fs[1..]);
      assert f in fs;
      FramesOfOne(f, later + part);
      Associative(FrameBytes(f), later, part);
      FramesOfAll(fs[1..], part);
    }
  }

  // ----- encoding and decoding as loops over buffers -----

  method EncodeRaw(ident: nat, serial: nat, data: seq<Byte>, isCompressed: bool) returns (buffer: seq<Byte>)
    ensures buffer == FrameBytes(Frame(ident, serial, data, isCompressed))
  {
    var identSize := EncodedLength(ident);
    var serialSize := EncodedLength(serial);
    var len := |data| + identSize + serialSize;
    var maskedLen := if isCompressed then BitOr(len, COMPRESSED_MASK) else len;
    var n: nat;
    buffer, n := WriteUnsigned([], maskedLen);
    buffer, n := WriteUnsigned(buffer, serial);
    buffer, n := WriteUnsigned(buffer, ident);
    buffer := buffer + data;
  }

  /** The part of the decoding after length and serial number. */
  method ReadRest(s: seq<Byte>, pos: nat, length: nat, serial: nat) returns (r: Result<Frame, ReadError>, next: nat)
    requires 0 < pos <= |s|
    ensures match FrameAfter(s, ReadIdent(s[pos..], length, serial, pos))
            case Ok(f) => r == Ok(f.value) && next == f.size
            case Err(e) => r == Err(e)
  {
    var ident: Result<nat, ReadError>;
    ident, next := ReadUnsigned(s, pos);
    if ident.Err? {
      return Err(ident.error), next;
    }
    var identSize := EncodedLength(ident.value);
    var serialSize := EncodedLength(serial);
    if Untagged(length) < identSize + serialSize {
      return Err(BadSizes), next;
    }
    var size := Untagged(length) - (identSize + serialSize);
    if |s| - next < size {
      return Err(Eof), next;
    }
    r := Ok(Frame(ident.value, serial, s[next..next + size], IsTagged(length)));
    next := next + size;
  }

  /** Decodes the frame at the front of s; `next` is the cursor afterwards. */
  method DecodeRaw(s: seq<Byte>) returns (r: Result<Frame, ReadError>, next: nat)
    ensures match DecodeFrame(s)
            case Ok(f) => r == Ok(f.value) && next == f.size
            case Err(e) => r == Err(e)
  {
    var length: Result<nat, ReadError>;
    length, next := ReadUnsigned(s, 0);
    assert s[0..] == s;
    if length.Err? {
      return Err(length.error), next;
    }
    ghost var s1 := s[next..];
    var serial: Result<nat, ReadError>;
    serial, next := ReadUnsigned(s, next);
    if serial.Err? {
      return Err(serial.error), next;
    }
    assert s1[ReadLeb(s1).value.size..] == s[next..];
    r, next := ReadRest(s, next, length.value, serial.value);
  }
}
