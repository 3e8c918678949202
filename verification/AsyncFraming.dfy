/** The asynchronous decoder, which reads numbers byte by byte, agrees with the other one. */
module AsyncFraming {

  import opened Wrappers
  import opened BitStrings
  import opened Leb128
  import opened Framing

  lemma {:induction false} LebLocalFrom(s: seq<Byte>, count: nat, k: nat)
    requires count <= 9 && ReadLebFrom(s, count).Ok?
    requires ReadLebFrom(s, count).value.size <= k <= |s|
    ensures ReadLebFrom(s[..k], count) == ReadLebFrom(s, count)
    decreases 10 - count
  {
    if s[0] >= 128 {
      assert s[..k][1..] == s[1..][..k - 1];
      LebLocalFrom(s[1..], count + 1, k - 1);
    }
  }

  /** A number found only with the last byte takes all bytes. */
  lemma FoundAtLast(s: seq<Byte>, k: nat)
    requires ReadLeb(s).Ok? && k + 1 == |s| && ReadLeb(s[..k]) == Err(Eof)
    ensures ReadLeb(s).value.size == |s|
  {
    if ReadLeb(s).value.size <= k {
      LebLocalFrom(s, 0, k);
    }
  }

  /** Reads one byte at a time and tries to decode all bytes read so far. */
  method ReadU64(s: seq<Byte>, pos: nat) returns (r: Result<nat, ReadError>, next: nat)
    requires pos <= |s|
    ensures pos <= next <= |s|
    ensures match ReadLeb(s[pos..])
            case Ok(v) => r == Ok(v.value) && next == pos + v.size
            case Err(e) => r == Err(e)
  {
    var buf := [];
    next := pos;
    while true
      invariant pos <= next <= |s| && buf == s[pos..next]
      invariant ReadLeb(buf) == Err(Eof)
      decreases |s| - next
    {
      if next == |s| {
        assert buf == s[pos..];
        return Err(Eof), next;
      }
      ghost var before := buf;
      buf := buf + [s[next]];
      next := next + 1;
      var n: nat;
      r, n := ReadUnsigned(buf, 0);
      assert buf[0..] == buf && buf[..|before|] == before;
      if r.Ok? || r.error != Eof {
        assert buf + s[next..] == s[pos..];
        ReadLebSettled(buf, s[next..]);
        if r.Ok? {
          FoundAtLast(buf, |before|);
        }
        return r, next;
      }
    }
  }

  /** The serial number was read and is greater than the greatest plausible one. */
  predicate SerialIsImplausible(s: seq<Byte>, maxSerial: Option<nat>) {
    match (ReadLeb(s), maxSerial)
    case (Ok(length), Some(max)) =>
      (match ReadLeb(s[length.size..])
       case Ok(serial) => serial.value > max && max > 0
       case Err(_) => false)
    case _ => false
  }

  /** The part of the decoder after length and serial number. */
  method ReadRestAsync(s: seq<Byte>, pos: nat, length: nat, serial: nat) returns (r: Result<Frame, ReadError>, next: nat)
    requires 0 < pos <= |s|
    ensures match FrameAfter(s, ReadIdent(s[pos..], length, serial, pos))
            case Ok(f) => r == Ok(f.value) && next == f.size
            case Err(e) => r == Err(e)
  {
    var ident: Result<nat, ReadError>;
    ident, next := ReadU64(s, pos);
    if ident.Err? {
      return Err(ident.error), next;
    }
    var identSize := EncodedLength(ident.value);
    var serialSize := EncodedLength(serial);
    if Untagged(length) < identSize + serialSize {
      return Err(BadSizes), next;
    }
    var size := Untagged(length) - (identSize + serialSize);
    if |s| - next < size {
      return Err(Eof), next;
    }
    r := Ok(Frame(ident.value, serial, s[next..next + size], IsTagged(length)));
    next := next + size;
  }

  /** The asynchronous decoder is the other one with a check of the serial number. */
  method DecodeRawAsync(s: seq<Byte>, maxSerial: Option<nat>) returns (r: Result<Frame, ReadError>, next: nat)
    ensures SerialIsImplausible(s, maxSerial) ==> r == Err(BadSerial)
    ensures !SerialIsImplausible(s, maxSerial) ==>
            match DecodeFrame(s)
            case Ok(f) => r == Ok(f.value) && next == f.size
            case Err(e) => r == Err(e)
  {
    var length: Result<nat, ReadError>;
    length, next := ReadU64(s, 0);
    assert s[0..] == s;
    if length.Err? {
      return Err(length.error), next;
    }
    ghost var s1 := s[next..];
    var serial: Result<nat, ReadError>;
    serial, next := ReadU64(s, next);
    if serial.Err? {
      return Err(serial.error), next;
    }
    if maxSerial.Some? && serial.value > maxSerial.value && maxSerial.value > 0 {
      return Err(BadSerial), next;
    }
    assert s1[ReadLeb(s1).value.size..] == s[next..];
    r, next := ReadRestAsync(s, next, length.value, serial.value);
  }
}
