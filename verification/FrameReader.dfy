/** Decoding frames out of a growing buffer that is fed by a non-blocking reader. */
module FrameReader {

  import opened Wrappers
  import opened Sequences
  import opened BitStrings
  import opened Leb128
  import opened Framing

  /** The buffer a connection keeps between reads. */
  class ReadBuffer {
    var bytes: seq<Byte>

    constructor ()
      ensures bytes == []
    {
      bytes := [];
    }

    /** Moves the bytes after the first `consumed` to the front, one by one, and truncates. */
    method DropFront(consumed: nat)
      requires consumed <= |bytes|
      modifies this
      ensures bytes == old(bytes)[consumed..]
    {
      var remain := |bytes| - consumed;
      for i := 0 to remain
        invariant |bytes| == consumed + remain
        invariant bytes[..i] == old(bytes)[consumed..][..i]
        invariant forall j :: i <= j < |bytes| ==> bytes[j] == old(bytes)[j]
      {
        bytes := bytes[i := bytes[consumed + i]];
      }
      bytes := bytes[..remain];
    }

    /** One frame off the front of the buffer, if it holds a whole one; otherwise the buffer
        stays as it is. */
    method StreamDecode() returns (r: Result<Option<Frame>, ReadError>)
      modifies this
      ensures match DecodeFrame(old(bytes))
              case Ok(f) => r == Ok(Some(f.value)) && bytes == old(bytes)[f.size..]
              case Err(Eof) => r == Ok(None) && bytes == old(bytes)
              case Err(e) => r == Err(e) && bytes == old(bytes)
    {
      var decoded, consumed := DecodeRaw(bytes);
      match decoded {
        case Ok(f) =>
          DropFront(consumed);
          r := Ok(Some(f));
        case Err(Eof) =>
          r := Ok(None);
        case Err(e) =>
          r := Err(e);
      }
    }
  }

  /** What the peer and the operating system will do, one entry a time: bytes arrive, a read
      finds nothing yet, or a read fails. A read of no bytes is the end of the stream. */
  datatype ReadEvent = Arrives(chunk: seq<Byte>) | WouldBlock | Fails

  predicate IsStop(event: ReadEvent) {
    event.Arrives? ==> event.chunk == []
  }

  /** The bytes that can be read without a stop, and the events from the first stop on. */
  function Leading(events: seq<ReadEvent>): seq<Byte> {
    if events == [] || IsStop(events[0]) then [] else events[0].chunk + Leading(events[1..])
  }

  function Stops(events: seq<ReadEvent>): (stops: seq<ReadEvent>)
    ensures stops == [] || IsStop(stops[0])
    ensures |stops| <= |events|
  {
    if events == [] || IsStop(events[0]) then events else Stops(events[1..])
  }

  function BytesIn(events: seq<ReadEvent>): (n: nat) {
    if events == [] then 0
    else (if events[0].Arrives? then |events[0].chunk| else 0) + BytesIn(events[1..])
  }

  datatype IoError = Blocked | Broken

  class Reader {
    var events: seq<ReadEvent>

    constructor (events: seq<ReadEvent>)
      ensures this.events == events
    {
      this.events := events;
    }

    /** Reads at most `limit` bytes of what arrives next. */
    method Read(limit: nat) returns (r: Result<seq<Byte>, IoError>)
      requires 0 < limit
      modifies this
      ensures old(events) == [] ==> r == Err(Blocked) && events == []
      ensures old(events) != [] && IsStop(old(events)[0]) ==>
        events == old(events)[1..] &&
        r == match old(events)[0] { case Arrives(_) => Ok([]) case WouldBlock => Err(Blocked) case Fails => Err(Broken) }
      ensures old(events) != [] && !IsStop(old(events)[0]) ==>
        && r.Ok? && r.value != []
        && r.value + Leading(events) == Leading(old(events)) && Stops(events) == Stops(old(events))
        && BytesIn(events) < BytesIn(old(events))
    {
      if events == [] {
        return Err(Blocked);
      }
      var event := events[0];
      events := events[1..];
      match event {
        case WouldBlock => r := Err(Blocked);
        case Fails => r := Err(Broken);
        case Arrives(chunk) =>
          if |chunk| <= limit {
            r := Ok(chunk);
          } else {
            events := [Arrives(chunk[limit..])] + events;
            r := Ok(chunk[..limit]);
            assert chunk == chunk[..limit] + chunk[limit..];
            Associative(chunk[..limit], chunk[limit..], Leading(old(events)[1..]));
          }
      }
    }
  }

  datatype TryError = BadFrame(error: ReadError) | EndOfFile | ReadFailed

  function PastStop(stops: seq<ReadEvent>): seq<ReadEvent> {
    if stops == [] then [] else stops[1..]
  }

  const CHUNK_SIZE := 4096

  /** Reads until the buffer holds a frame. The outcome depends on the bytes readable before the
      first stop and on that stop, never on how the bytes were cut into reads. */
  method TryReadAndDecode(reader: Reader, buffer: ReadBuffer) returns (r: Result<Option<Frame>, TryError>)
    modifies reader, buffer
    ensures var total := old(buffer.bytes) + Leading(old(reader.events));
            var stops := Stops(old(reader.events));
            match DecodeFrame(total)
            case Ok(f) =>
              && r == Ok(Some(f.value))
              && buffer.bytes + Leading(reader.events) == total[f.size..] && Stops(reader.events) == stops
            case Err(Eof) =>
              && (stops == [] || stops[0].WouldBlock? ==> r == Ok(None))
              && (stops != [] && stops[0].Fails? ==> r == Err(ReadFailed))
              && (stops != [] && stops[0].Arrives? ==> r == Err(EndOfFile))
              && buffer.bytes == total && reader.events == (if stops == [] then [] else stops[1..])
            case Err(e) =>
              && r == Err(BadFrame(e))
              && buffer.bytes + Leading(reader.events) == total && Stops(reader.events) == stops
  {
    ghost var total := buffer.bytes + Leading(reader.events);
    ghost var stops := Stops(reader.events);
    while true
      invariant buffer.bytes + Leading(reader.events) == total && Stops(reader.events) == stops
      decreases BytesIn(reader.events)
    {
      ghost var front, ahead := buffer.bytes, Leading(reader.events);
      var decoded := buffer.StreamDecode();
      if decoded.Err? || decoded.value.Some? {
        FrameSettled(front, ahead);
        if decoded.Err? {
          return Err(BadFrame(decoded.error));
        }
        DropBoth(front, ahead, DecodeFrame(front).value.size);
        return Ok(decoded.value);
      }
      ghost var before := reader.events;
      var read := reader.Read(CHUNK_SIZE);
      match read {
        case Err(Blocked) =>
          NothingAfter(front);
          return Ok(None);
        case Err(Broken) =>
          NothingAfter(front);
          return Err(ReadFailed);
        case Ok(chunk) =>
          if |chunk| == 0 {
            NothingAfter(front);
            return Err(EndOfFile);
          }
          Associative(front, chunk, Leading(reader.events));
          buffer.bytes := buffer.bytes + chunk;
      }
    }
  }

  lemma DropBoth(a: seq<Byte>, b: seq<Byte>, k: nat)
    requires k <= |a|
    ensures (a + b)[k..] == a[k..] + b
  {
  }

  // ----- repeated calls -----

  /** The stream neither ends nor fails; it may block anywhere. */
  predicate Lasting(events: seq<ReadEvent>) {
    forall e :: e in events ==> IsStop(e) ==> e.WouldBlock?
  }

  function AllData(events: seq<ReadEvent>): seq<Byte> {
    if events == [] then []
    else (if events[0].Arrives? then events[0].chunk else []) + AllData(events[1..])
  }

  function Blocks(events: seq<ReadEvent>): nat {
    if events == [] then 0 else (if events[0].WouldBlock? then 1 else 0) + Blocks(events[1..])
  }

  lemma {:induction false} DataSplits(events: seq<ReadEvent>)
    requires Lasting(events)
    ensures Lasting(Stops(events))
    ensures AllData(events) == Leading(events) + AllData(PastStop(Stops(events)))
    ensures Blocks(events) == Blocks(Stops(events))
    ensures Blocks(events) == (if Stops(events) == [] then 0 else 1) + Blocks(PastStop(Stops(events)))
    ensures Stops(events) == [] || Stops(events)[0].WouldBlock?
  {
    if events != [] {
      assert events[0] in events;
      if !IsStop(events[0]) {
        DataSplits(events[1..]);
        Associative(events[0].chunk, Leading(events[1..]), AllData(PastStop(Stops(events))));
      }
    }
  }

  lemma {:induction false} LastingFromStops(events: seq<ReadEvent>)
    requires Lasting(Stops(events))
    ensures Lasting(events)
  {
    if events != [] && !IsStop(events[0]) {
      LastingFromStops(events[1..]);
      assert events == [events[0]] + events[1..];
    }
  }

  /** Everything still to be decoded: what is buffered and all that will arrive. */
  function Ahead(bytes: seq<Byte>, events: seq<ReadEvent>): seq<Byte> {
    bytes + AllData(events)
  }

  lemma AheadSplits(bytes: seq<Byte>, events: seq<ReadEvent>)
    requires Lasting(events)
    ensures Ahead(bytes, events) == (bytes + Leading(events)) + AllData(PastStop(Stops(events)))
  {
    DataSplits(events);
    Associative(bytes, Leading(events), AllData(PastStop(Stops(events))));
  }

  /** The frames still to come, after `got`. */
  ghost predicate Remain(all: seq<Byte>, got: seq<Frame>, ahead: seq<Byte>) {
    Frames(all) == got + Frames(ahead) && Unframed(all) == Unframed(ahead)
  }

  /** A call that returned a frame took it from the front of everything ahead. */
  lemma FrameTaken(all: seq<Byte>, got: seq<Frame>, bytes: seq<Byte>, events: seq<ReadEvent>,
                   f: Frame, size: nat, bytes': seq<Byte>, events': seq<ReadEvent>)
    requires Lasting(events) && Remain(all, got, Ahead(bytes, events))
    requires DecodeFrame(bytes + Leading(events)) == Ok(Read(f, size))
    requires bytes' + Leading(events') == (bytes + Leading(events))[size..] && Stops(events') == Stops(events)
    ensures Lasting(events') && Remain(all, got + [f], Ahead(bytes', events'))
    ensures Blocks(events') == Blocks(events)
  {
    DataSplits(events);
    LastingFromStops(events');
    DataSplits(events');
    AheadSplits(bytes, events);
    AheadSplits(bytes', events');
    var later := AllData(PastStop(Stops(events)));
    FramesStep(bytes + Leading(events), f, size, later);
    Associative(got, [f], Frames(Ahead(bytes', events')));
  }

  /** A call that found no whole frame only moved bytes into the buffer. */
  lemma NoneTaken(bytes: seq<Byte>, events: seq<ReadEvent>)
    requires Lasting(events)
    ensures var bytes', events' := bytes + Leading(events), PastStop(Stops(events));
      && Lasting(events') && Ahead(bytes', events') == Ahead(bytes, events)
      && Blocks(events') + (if Stops(events) == [] then 0 else 1) == Blocks(events)
  {
    DataSplits(events);
    AheadSplits(bytes, events);
  }

  lemma BadFrameAhead(bytes: seq<Byte>, events: seq<ReadEvent>, bytes': seq<Byte>, events': seq<ReadEvent>)
    requires Lasting(events)
    requires DecodeFrame(bytes + Leading(events)).Err? && DecodeFrame(bytes + Leading(events)) != Err(Eof)
    requires bytes' + Leading(events') == bytes + Leading(events) && Stops(events') == Stops(events)
    ensures Lasting(events') && Ahead(bytes', events') == Ahead(bytes, events)
    ensures Frames(Ahead(bytes, events)) == []
  {
    DataSplits(events);
    LastingFromStops(events');
    AheadSplits(bytes, events);
    AheadSplits(bytes', events');
    FrameSettled(bytes + Leading(events), AllData(PastStop(Stops(events))));
  }

  ghost predicate Exhausted(bytes: seq<Byte>, events: seq<ReadEvent>) {
    events == [] && DecodeFrame(bytes).Err?
  }

  /** One call among many: `got` are the frames returned before it. */
  method NextFrame(reader: Reader, buffer: ReadBuffer, ghost all: seq<Byte>, ghost got: seq<Frame>)
    returns (r: Result<Option<Frame>, TryError>)
    requires Lasting(reader.events) && Remain(all, got, Ahead(buffer.bytes, reader.events))
    modifies reader, buffer
    ensures Lasting(reader.events)
    ensures r.Ok? && r.value.Some? ==>
      && Remain(all, got + [r.value.value], Ahead(buffer.bytes, reader.events))
      && Blocks(reader.events) == old(Blocks(reader.events))
    ensures r.Ok? && r.value.None? ==>
      && Remain(all, got, Ahead(buffer.bytes, reader.events))
      && (Exhausted(buffer.bytes, reader.events) || Blocks(reader.events) < old(Blocks(reader.events)))
    ensures r.Err? ==>
      && Remain(all, got, Ahead(buffer.bytes, reader.events))
      && Frames(Ahead(buffer.bytes, reader.events)) == []
  {
    ghost var bytes, events := buffer.bytes, reader.events;
    r := TryReadAndDecode(reader, buffer);
    match r {
      case Ok(Some(f)) =>
        FrameTaken(all, got, bytes, events, f, DecodeFrame(bytes + Leading(events)).value.size,
                   buffer.bytes, reader.events);
      case Ok(None) =>
        NoneTaken(bytes, events);
      case Err(e) =>
        DataSplits(events);
        BadFrameAhead(bytes, events, buffer.bytes, reader.events);
    }
  }

  lemma NothingAhead(bytes: seq<Byte>, events: seq<ReadEvent>)
    requires Exhausted(bytes, events)
    ensures Ahead(bytes, events) == bytes && Frames(bytes) == [] && Unframed(bytes) == bytes
  {
  }

  /** A client's loop: call after call until the frames or the patience run out. Whatever the
      cuts and pauses, the frames returned are those of the whole stream in order, and what is
      buffered or still to arrive is the rest of it. Enough calls return all frames. */
  method ReadFrames(reader: Reader, buffer: ReadBuffer, calls: nat)
    returns (frames: seq<Frame>, error: Option<TryError>)
    requires Lasting(reader.events)
    modifies reader, buffer
    ensures Lasting(reader.events)
    ensures Remain(old(Ahead(buffer.bytes, reader.events)), frames, Ahead(buffer.bytes, reader.events))
    ensures error.Some? ==> frames == Frames(old(Ahead(buffer.bytes, reader.events)))
    ensures calls > |Frames(old(Ahead(buffer.bytes, reader.events)))| + old(Blocks(reader.events)) ==>
      && frames == Frames(old(Ahead(buffer.bytes, reader.events)))
      && (error.None? ==> reader.events == [] && buffer.bytes == Unframed(old(Ahead(buffer.bytes, reader.events))))
  {
    frames, error := [], None;
    ghost var all, blocks := Ahead(buffer.bytes, reader.events), Blocks(reader.events);
    ghost var patience := |Frames(all)| + blocks;
    for i := 0 to calls
      invariant Lasting(reader.events)
      invariant Remain(all, frames, Ahead(buffer.bytes, reader.events))
      invariant i <= |frames| + blocks - Blocks(reader.events) || Exhausted(buffer.bytes, reader.events)
    {
      ghost var done := Exhausted(buffer.bytes, reader.events);
      if done {
        NothingAhead(buffer.bytes, reader.events);
      }
      var r := NextFrame(reader, buffer, all, frames);
      if r.Err? {
        NothingAfter(frames);
        return frames, Some(r.error);
      }
      if r.value.Some? {
        frames := frames + [r.value.value];
      }
    }
    if Exhausted(buffer.bytes, reader.events) {
      NothingAhead(buffer.bytes, reader.events);
      NothingAfter(frames);
    }
  }

  /** Frames sent whole over a stream that may be cut anywhere are received as sent, with
      nothing left over. */
  method ReceiveAll(sent: seq<Frame>, events: seq<ReadEvent>, calls: nat) returns (received: seq<Frame>)
    requires forall f :: f in sent ==> Fits(f) && BodySize(f) < COMPRESSED_MASK
    requires Lasting(events) && AllData(events) == AllBytes(sent)
    requires calls > |sent| + Blocks(events)
    ensures received == sent
  {
    var reader := new Reader(events);
    var buffer := new ReadBuffer();
    assert [] + AllBytes(sent) == AllBytes(sent) + [];
    FramesOfAll(sent, []);
    var error: Option<TryError>;
    received, error := ReadFrames(reader, buffer, calls);
  }
}
