/** Unsigned LEB128, section 7.6 of the DWARF 5 standard, for 64-bit values. */
module Leb128 {

  import opened Wrappers
  import opened Sequences
  import opened BitStrings

  const U64_LIMIT: nat := 0x1_0000_0000_0000_0000

  /** Why bytes do not give a value or a frame: they end too early, a number needs more than 64
      bits, the sizes in a header contradict each other, or the serial number is implausible. */
  datatype ReadError = Eof | Overflow | BadSizes | BadSerial

  /** A value and the number of bytes it took. */
  datatype Read<+T> = Read(value: T, size: nat)

  /** Seven bits a byte, low bits first, the top bit set on all bytes but the last. */
  function Leb(n: nat): (s: seq<Byte>)
    ensures s != []
  {
    if n < 128 then [n] else [n % 128 + 128] + Leb(n / 128)
  }

  /** Reads a value whose first `count` bytes have been read already; a tenth byte may hold
      only the 64th bit. */
  function ReadLebFrom(s: seq<Byte>, count: nat): (r: Result<Read<nat>, ReadError>)
    requires count <= 9
    ensures r.Ok? ==> 1 <= r.value.size <= |s| && r.value.size <= 10 - count
    decreases 10 - count, s
  {
    if s == [] then Err(Eof)
    else if count == 9 && s[0] > 1 then Err(Overflow)
    else if s[0] < 128 then Ok(Read(s[0], 1))
    else
      match ReadLebFrom(s[1..], count + 1)
      case Ok(tail) => Ok(Read(s[0] % 128 + 128 * tail.value, tail.size + 1))
      case Err(e) => Err(e)
  }

  function ReadLeb(s: seq<Byte>): (r: Result<Read<nat>, ReadError>)
    ensures r.Ok? ==> 1 <= r.value.size <= |s| && r.value.size <= 10
  {
    ReadLebFrom(s, 0)
  }

  function Pow128(k: nat): (p: nat)
    ensures 1 <= p
  {
    if k == 0 then 1 else 128 * Pow128(k - 1)
  }

  /** The limit of what may follow `count` bytes: 64 bits in all. */
  function Limit(count: nat): (limit: nat)
    requires count <= 9
    ensures 2 <= limit && (count < 9 ==> 128 <= limit)
    decreases 9 - count
  {
    if count == 9 then 2 else 128 * Limit(count + 1)
  }

  lemma WholeLimit()
    ensures Limit(0) == U64_LIMIT
  {
    assert Limit(6) == 128 * (128 * (128 * 2));
    assert Limit(3) == 128 * (128 * (128 * Limit(6)));
    assert Limit(0) == 128 * (128 * (128 * Limit(3)));
  }

  lemma {:induction false} LebRoundTripFrom(n: nat, rest: seq<Byte>, count: nat)
    requires count <= 9 && n < Limit(count)
    ensures ReadLebFrom(Leb(n) + rest, count) == Ok(Read(n, |Leb(n)|))
    decreases 10 - count
  {
    var s := Leb(n) + rest;
    if n >= 128 {
      assert s[1..] == Leb(n / 128) + rest;
      LebRoundTripFrom(n / 128, rest, count + 1);
    }
  }

  /** Reading back a value gives it and takes exactly its bytes, whatever follows them. */
  lemma LebRoundTrip(n: nat, rest: seq<Byte>)
    requires n < U64_LIMIT
    ensures ReadLeb(Leb(n) + rest) == Ok(Read(n, |Leb(n)|))
  {
    WholeLimit();
    LebRoundTripFrom(n, rest, 0);
  }

  lemma {:induction false} LebPrefixFrom(n: nat, k: nat, count: nat)
    requires count <= 9 && n < Limit(count) && k < |Leb(n)|
    ensures ReadLebFrom(Leb(n)[..k], count) == Err(Eof)
    decreases 10 - count
  {
    if k > 0 {
      var s := Leb(n)[..k];
      assert s[1..] == Leb(n / 128)[..k - 1];
      LebPrefixFrom(n / 128, k - 1, count + 1);
    }
  }

  /** A value cut short always asks for more bytes. */
  lemma LebPrefix(n: nat, k: nat)
    requires n < U64_LIMIT && k < |Leb(n)|
    ensures ReadLeb(Leb(n)[..k]) == Err(Eof)
  {
    WholeLimit();
    LebPrefixFrom(n, k, 0);
  }

  lemma {:induction false} ReadLebSettledFrom(s: seq<Byte>, t: seq<Byte>, count: nat)
    requires count <= 9 && ReadLebFrom(s, count) != Err(Eof)
    ensures ReadLebFrom(s + t, count) == ReadLebFrom(s, count)
    decreases 10 - count
  {
    if s != [] && s[0] >= 128 && count < 9 {
      assert (s + t)[1..] == s[1..] + t;
      ReadLebSettledFrom(s[1..], t, count + 1);
    }
  }

  /** Once it is not "more bytes", the answer does not depend on what follows. */
  lemma ReadLebSettled(s: seq<Byte>, t: seq<Byte>)
    requires ReadLeb(s) != Err(Eof)
    ensures ReadLeb(s + t) == ReadLeb(s)
  {
    ReadLebSettledFrom(s, t, 0);
  }

  lemma {:induction false} ReadLebFitsFrom(s: seq<Byte>, count: nat)
    requires count <= 9 && ReadLebFrom(s, count).Ok?
    ensures var r := ReadLebFrom(s, count).value; r.value < Limit(count) && |Leb(r.value)| <= r.size
    decreases 10 - count
  {
    if s[0] >= 128 {
      ReadLebFitsFrom(s[1..], count + 1);
    }
  }

  /** A value that was read fits 64 bits, and no encoding of it is shorter than Leb's. */
  lemma ReadLebFits(s: seq<Byte>)
    requires ReadLeb(s).Ok?
    ensures var r := ReadLeb(s).value; r.value < U64_LIMIT && |Leb(r.value)| <= r.size
  {
    WholeLimit();
    ReadLebFitsFrom(s, 0);
  }

  /** How many bytes a value takes: the least k with n < 128^k, and at least one. */
  lemma {:induction false} LebSize(n: nat)
    ensures n < Pow128(|Leb(n)|)
    ensures |Leb(n)| > 1 ==> Pow128(|Leb(n)| - 1) <= n
  {
    if n >= 128 {
      LebSize(n / 128);
      var k := |Leb(n / 128)|;
      assert |Leb(n)| == k + 1 && Pow128(k + 1) == 128 * Pow128(k);
      if k > 1 {
        assert Pow128(k) == 128 * Pow128(k - 1);
      }
    }
  }

  /** The standard's encoding loop; `buffer` is what has been written before. */
  method WriteUnsigned(buffer: seq<Byte>, value: nat) returns (r: seq<Byte>, written: nat)
    ensures r == buffer + Leb(value) && written == |Leb(value)|
  {
    r := buffer;
    written := 0;
    var rest := value;
    while true
      invariant r + Leb(rest) == buffer + Leb(value)
      invariant written + |Leb(rest)| == |Leb(value)|
      decreases rest
    {
      var byte := rest % 128;
      var more := rest / 128;
      written := written + 1;
      if more == 0 {
        r := r + [byte];
        break;
      }
      Associative(r, [byte + 128], Leb(more));
      r := r + [byte + 128];
      rest := more;
    }
  }

  /** The encoded length, found by writing to a sink that only counts. */
  method EncodedLength(value: nat) returns (n: nat)
    ensures n == |Leb(value)|
  {
    var sink: seq<Byte>;
    sink, n := WriteUnsigned([], value);
  }

  /** Seven bits shifted into place above the bits read before. */
  function Placed(low: nat, shift: nat): nat {
    low * shift
  }

  /** What the whole value is when `count` bytes gave `result` and `tail` is what comes after. */
  function Continued(tail: Result<Read<nat>, ReadError>, count: nat, result: nat, shift: nat): Result<Read<nat>, ReadError> {
    match tail
    case Ok(more) => Ok(Read(result + Placed(more.value, shift), count + more.size))
    case Err(e) => Err(e)
  }

  lemma ContinuedStep(low: nat, tail: Read<nat>, count: nat, result: nat, shift: nat)
    ensures Continued(Ok(Read(low + 128 * tail.value, tail.size + 1)), count, result, shift)
         == Continued(Ok(tail), count + 1, result + Placed(low, shift), shift * 128)
  {
    assert (low + 128 * tail.value) * shift == low * shift + tail.value * (shift * 128);
  }

  lemma ContinuedByte(s: seq<Byte>, count: nat, result: nat, shift: nat)
    requires count < 9 && s != [] && s[0] >= 128
    ensures Continued(ReadLebFrom(s, count), count, result, shift)
         == Continued(ReadLebFrom(s[1..], count + 1), count + 1, result + Placed(s[0] % 128, shift), shift * 128)
  {
    match ReadLebFrom(s[1..], count + 1)
    case Ok(tail) => ContinuedStep(s[0] % 128, tail, count, result, shift);
    case Err(_) =>
  }

  lemma ContinuedLast(s: seq<Byte>, count: nat, result: nat, shift: nat)
    requires count <= 9 && s != [] && s[0] < 128 && (count == 9 ==> s[0] <= 1)
    ensures Continued(ReadLebFrom(s, count), count, result, shift)
         == Ok(Read(result + Placed(s[0], shift), count + 1))
  {
  }

  /** The decoding loop over the bytes from `pos` on. */
  method ReadUnsigned(s: seq<Byte>, pos: nat) returns (r: Result<nat, ReadError>, next: nat)
    requires pos <= |s|
    ensures pos <= next <= |s|
    ensures match ReadLeb(s[pos..])
            case Ok(v) => r == Ok(v.value) && next == pos + v.size
            case Err(e) => r == Err(e)
  {
    var result: nat, shift: nat, count: nat := 0, 1, 0;
    ghost var whole := ReadLeb(s[pos..]);
    next := pos;
    while true
      invariant count <= 9 && next == pos + count <= |s|
      invariant whole == Continued(ReadLebFrom(s[next..], count), count, result, shift)
      decreases 10 - count
    {
      if next == |s| {
        return Err(Eof), next;
      }
      var byte: nat := s[next];
      ghost var rest := s[next..];
      assert rest[1..] == s[next + 1..];
      next := next + 1;
      if count == 9 && byte > 1 {
        return Err(Overflow), next;
      }
      if byte < 128 {
        ContinuedLast(rest, count, result, shift);
        return Ok(result + Placed(byte, shift)), next;
      }
      ContinuedByte(rest, count, result, shift);
      result := result + Placed(byte % 128, shift);
      shift := shift * 128;
      count := count + 1;
    }
  }
}
