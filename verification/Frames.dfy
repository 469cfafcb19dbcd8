/** Events on the unix socket: `length | magic | version | type`, all big-endian, then what the type
    asks for (src/protocol/header.rs, src/protocol/event.rs, src/stream.rs). */
module Frames {
  import opened Common
  import opened Sequences

  const HEADER_SIZE: nat := 8
  const EVENT_HEADER: nat := HEADER_SIZE + 8
  const MAX_FRAME: nat := 0x1000_0000
  const MAX_VERSION: nat := 5

  datatype Event = Polling | StreamClose(id: nat) | Fallback(id: nat, status: nat, payload: seq<byte>) {
    predicate Valid() {
      match this
      case Polling => true
      case StreamClose(id) => id < TWO_32
      case Fallback(id, status, payload) => id < TWO_32 && status < 0x100 && EVENT_HEADER + |payload| <= MAX_FRAME
    }
  }

  function U32(v: nat): (r: seq<byte>)
    requires v < TWO_32
    ensures |r| == 4
  {
    [(v / 0x100_0000) as byte, (v / 0x1_0000 % 0x100) as byte, (v / 0x100 % 0x100) as byte, (v % 0x100) as byte]
  }

  function FromU32(b: seq<byte>): (v: nat)
    requires |b| == 4
    ensures v < TWO_32
  {
    0x100_0000 * b[0] as nat + 0x1_0000 * b[1] as nat + 0x100 * b[2] as nat + b[3] as nat
  }

  lemma U32RoundTrip(v: nat)
    requires v < TWO_32
    ensures FromU32(U32(v)) == v
  {
    assert v / 0x100 / 0x100 == v / 0x1_0000 && v / 0x1_0000 / 0x100 == v / 0x100_0000;
  }

  function Header(length: nat, version: nat, kind: nat): (r: seq<byte>)
    requires length < TWO_32 && version < 0x100 && kind < 0x100
    ensures |r| == HEADER_SIZE
  {
    U32(length) + [0x77, 0x58, version as byte, kind as byte]
  }

  function Length(e: Event): nat {
    match e
    case Polling => HEADER_SIZE
    case StreamClose(_) => HEADER_SIZE + 4
    case Fallback(_, _, payload) => EVENT_HEADER + |payload|
  }

  function Kind(e: Event): nat {
    match e
    case Polling => 1
    case StreamClose(_) => 2
    case Fallback(_, _, _) => 3
  }

  function Body(e: Event): seq<byte>
    requires e.Valid()
  {
    match e
    case Polling => []
    case StreamClose(id) => U32(id)
    case Fallback(id, status, payload) => U32(id) + U32(status) + payload
  }

  function Encode(version: nat, e: Event): (r: seq<byte>)
    requires version <= MAX_VERSION && e.Valid()
    ensures |r| == Length(e)
  {
    Header(Length(e), version, Kind(e)) + Body(e)
  }

  /** Where the id and the status stand. */
  lemma BodyFields(version: nat, e: Event)
    requires version <= MAX_VERSION && e.Valid()
    ensures !e.Polling? ==> Encode(version, e)[8..12] == U32(e.id)
    ensures e.Fallback? ==> Encode(version, e)[12..16] == U32(e.status) && Encode(version, e)[16..] == e.payload
  {
    hide U32;
    var h, body := Header(Length(e), version, Kind(e)), Body(e);
    assert !e.Polling? ==> (h + body)[8..12] == body[..4];
    assert e.Fallback? ==> (h + body)[12..16] == body[4..8] && (h + body)[16..] == body[8..];
  }

  predicate AllValid(es: seq<Event>) {
    forall e <- es :: e.Valid()
  }

  function EncodeAll(version: nat, es: seq<Event>): seq<byte>
    requires version <= MAX_VERSION && AllValid(es)
  {
    if es == [] then [] else Encode(version, es[0]) + EncodeAll(version, es[1..])
  }

  /** The header at the front of some bytes, field by field. */
  function HeaderLength(b: seq<byte>): nat requires |b| >= HEADER_SIZE { FromU32(b[..4]) }
  function HeaderMagic(b: seq<byte>): (byte, byte) requires |b| >= HEADER_SIZE { (b[4], b[5]) }
  function HeaderVersion(b: seq<byte>): nat requires |b| >= HEADER_SIZE { b[6] as nat }
  function HeaderKind(b: seq<byte>): nat requires |b| >= HEADER_SIZE { b[7] as nat }

  /** A header reads back as it was written, whatever follows it. */
  lemma HeaderReadsBack(version: nat, e: Event, b: seq<byte>)
    requires version <= MAX_VERSION && e.Valid() && HEADER_SIZE <= |b| && b[..HEADER_SIZE] == Encode(version, e)[..HEADER_SIZE]
    ensures HeaderLength(b) == Length(e) && HeaderMagic(b) == (0x77, 0x58)
    ensures HeaderVersion(b) == version && HeaderKind(b) == Kind(e)
  {
    var h := Header(Length(e), version, Kind(e));
    assert b[..HEADER_SIZE] == h;
    assert b[..4] == h[..4] == U32(Length(e));
    U32RoundTrip(Length(e));
    assert b[4] == h[4] && b[5] == h[5] && b[6] == h[6] && b[7] == h[7];
  }

  const MAX_PAYLOAD: nat := MAX_FRAME - EVENT_HEADER
  const STREAM_OPENED: nat := 0

  /** A message cut into payloads that fit a frame: none is empty, and all but the last are full. */
  predicate WellCut(frames: seq<seq<byte>>) {
    && (forall f <- frames :: 0 < |f| <= MAX_PAYLOAD)
    && (forall i | 0 <= i < |frames| - 1 :: |frames[i]| == MAX_PAYLOAD)
  }

  /** One chunk spread over the current frame and as many more as it takes. */
  method FrameChunk(frames: seq<seq<byte>>, current: seq<byte>, chunk: seq<byte>)
    returns (frames': seq<seq<byte>>, current': seq<byte>)
    requires |current| < MAX_PAYLOAD && forall f <- frames :: |f| == MAX_PAYLOAD
    ensures |current'| < MAX_PAYLOAD && forall f <- frames' :: |f| == MAX_PAYLOAD
    ensures Flatten(frames') + current' == Flatten(frames) + current + chunk
  {
    frames', current' := frames, current;
    var rest := chunk;
    while rest != []
      invariant |current'| < MAX_PAYLOAD && forall f <- frames' :: |f| == MAX_PAYLOAD
      invariant Flatten(frames') + current' + rest == Flatten(frames) + current + chunk
      decreases |rest|
    {
      var take := if MAX_PAYLOAD - |current'| < |rest| then MAX_PAYLOAD - |current'| else |rest|;
      assert rest == rest[..take] + rest[take..];
      Associative(Flatten(frames') + current', rest[..take], rest[take..]);
      Associative(Flatten(frames'), current', rest[..take]);
      current' := current' + rest[..take];
      rest := rest[take..];
      if |current'| == MAX_PAYLOAD {
        FlattenOneMore(frames', current');
        frames', current' := frames' + [current'], [];
      }
    }
  }

  /** `frame_fallback`: the frames are well cut and spell the message. */
  method FrameFallback(chunks: seq<seq<byte>>) returns (frames: seq<seq<byte>>)
    ensures WellCut(frames) && Flatten(frames) == Flatten(chunks)
  {
    var current;
    frames, current := [], [];
    for k := 0 to |chunks|
      invariant |current| < MAX_PAYLOAD && forall f <- frames :: |f| == MAX_PAYLOAD
      invariant Flatten(frames) + current == Flatten(chunks[..k])
    {
      frames, current := FrameChunk(frames, current, chunks[k]);
      assert chunks[..k + 1][..k] == chunks[..k];
    }
    assert chunks[..|chunks|] == chunks;
    if current != [] {
      FlattenOneMore(frames, current);
      frames := frames + [current];
    }
  }

  /** The events a fallback message is sent as: every frame of an open stream but the last, which
      carries the stream's status. */
  function FallbackEvents(id: nat, status: nat, frames: seq<seq<byte>>): seq<Event> {
    seq(|frames|, i requires 0 <= i < |frames| =>
      Fallback(id, if i == |frames| - 1 then status else STREAM_OPENED, frames[i]))
  }

  /** What a stream's events carry, put together. */
  function Carried(es: seq<Event>, id: nat): seq<byte> {
    if es == [] then []
    else
      var last := es[|es| - 1];
      Carried(es[..|es| - 1], id) + if last.Fallback? && last.id == id then last.payload else []
  }

  lemma {:induction false} FramesCarry(id: nat, status: nat, frames: seq<seq<byte>>, k: nat)
    requires k <= |frames|
    ensures Carried(FallbackEvents(id, status, frames)[..k], id) == Flatten(frames[..k])
  {
    if k > 0 {
      FramesCarry(id, status, frames, k - 1);
      var es := FallbackEvents(id, status, frames);
      assert es[..k][..k - 1] == es[..k - 1] && frames[..k][..k - 1] == frames[..k - 1];
    }
  }

  /** A message on the fallback path: every frame is one the peer's reader accepts, together they
      carry the message, and only the last one carries the status. */
  lemma FallbackCarriesMessage(id: nat, status: nat, frames: seq<seq<byte>>)
    requires id < TWO_32 && status < 0x100 && WellCut(frames)
    ensures var es := FallbackEvents(id, status, frames);
            && AllValid(es) && Carried(es, id) == Flatten(frames)
            && forall i | 0 <= i < |es| - 1 :: es[i].status == STREAM_OPENED
  {
    var es := FallbackEvents(id, status, frames);
    FramesCarry(id, status, frames, |frames|);
    assert es[..|frames|] == es && frames[..|frames|] == frames;
    assert forall i | 0 <= i < |frames| :: frames[i] in frames;
  }
}
