/**
 Whole messages on a byte stream: a header, then as many payload bytes as it announces. A sequence of messages whose
 payloads are under 2^32 bytes comes out of the stream as it went in (`StreamRoundTrip`); a single larger one does
 not (`FrameRoundTripIff`).
 */
module Framing {
  import opened Bytes
  import opened Messages
  import opened Wire
  import opened CodecSpec
  import opened CodecMessages

  // ----- header ----------------------------------------------------------------------------------------------

  function PutHeader(buf: Bytes, h: Header): Bytes {
    var b := PutInt(buf, h.magic, 4);
    var b := PutInt(b, h.version, 2);
    var b := PutInt(b, h.kind, 2);
    var b := PutInt(b, h.length, 4);
    var b := PutInt(b, h.requestId, 4);
    PutInt(b, h.timestamp, 8)
  }

  function WriteHeader(h: Header, tail: Bytes): Bytes {
    var t := WriteInt(h.timestamp, 8, tail);
    var t := WriteInt(h.requestId, 4, t);
    var t := WriteInt(h.length, 4, t);
    var t := WriteInt(h.kind, 2, t);
    var t := WriteInt(h.version, 2, t);
    WriteInt(h.magic, 4, t)
  }

  function TakeHeader(d: Bytes): (r: Outcome<Got<Header>>)
    ensures r.Ok? <==> |d| >= HEADER_SIZE
    ensures r.Ok? ==> r.value.rest == d[HEADER_SIZE..]
    ensures !r.OutOfBounds?
  {
    Powers();
    var magic :- TakeInt(d, 4);
    var version :- TakeInt(magic.rest, 2);
    var kind :- TakeInt(version.rest, 2);
    var length :- TakeInt(kind.rest, 4);
    var requestId :- TakeInt(length.rest, 4);
    var timestamp :- TakeInt(requestId.rest, 8);
    Ok(Got(Header(magic.value, version.value, kind.value, length.value, requestId.value, timestamp.value),
           timestamp.rest))
  }

  /** The header at the front of some bytes; too few of them, or the wrong magic number, throws. */
  function ParseHeader(d: Bytes): (r: Outcome<Header>)
    ensures r.Ok? ==> |d| >= HEADER_SIZE && r.value.magic == MAGIC
    ensures !r.OutOfBounds?
  {
    var h :- TakeHeader(d);
    if h.value.magic != MAGIC then Thrown else Ok(h.value)
  }

  lemma HeaderTaken(h: Header, tail: Bytes)
    ensures TakeHeader(WriteHeader(h, tail)) == Ok(Got(h, tail))
  {
    Powers();
    var t5 := WriteInt(h.timestamp, 8, tail);
    var t4 := WriteInt(h.requestId, 4, t5);
    var t3 := WriteInt(h.length, 4, t4);
    var t2 := WriteInt(h.kind, 2, t3);
    var t1 := WriteInt(h.version, 2, t2);
    IntTaken(h.magic, 4, t1);
    IntTaken(h.version, 2, t2);
    IntTaken(h.kind, 2, t3);
    IntTaken(h.length, 4, t4);
    IntTaken(h.requestId, 4, t5);
    IntTaken(h.timestamp, 8, tail);
  }

  lemma HeaderAppended(buf: Bytes, h: Header, tail: Bytes)
    ensures PutHeader(buf, h) + tail == buf + WriteHeader(h, tail)
  {
    var b1 := PutInt(buf, h.magic, 4);
    var b2 := PutInt(b1, h.version, 2);
    var b3 := PutInt(b2, h.kind, 2);
    var b4 := PutInt(b3, h.length, 4);
    var b5 := PutInt(b4, h.requestId, 4);
    var t5 := WriteInt(h.timestamp, 8, tail);
    var t4 := WriteInt(h.requestId, 4, t5);
    var t3 := WriteInt(h.length, 4, t4);
    var t2 := WriteInt(h.kind, 2, t3);
    IntAppended(b5, h.timestamp, 8, tail);
    IntAppended(b4, h.requestId, 4, t5);
    IntAppended(b3, h.length, 4, t4);
    IntAppended(b2, h.kind, 2, t3);
    IntAppended(b1, h.version, 2, t2);
    IntAppended(buf, h.magic, 4, WriteInt(h.version, 2, t2));
  }

  // ----- messages --------------------------------------------------------------------------------------------

  datatype Decoded = Decoded(message: Message, header: Header)

  /** A request: a message, its request id, and the time it is sent. */
  datatype Sent = Sent(message: Message, requestId: u32, timestamp: u64)

  function HeaderOf(s: Sent): Header {
    Header(MAGIC, VERSION, KindOf(s.message), Cut32(|PutPayload([], s.message)|), s.requestId, s.timestamp)
  }

  function Encode(s: Sent): Bytes {
    PutHeader([], HeaderOf(s)) + PutPayload([], s.message)
  }

  function Decode(d: Bytes): (r: Outcome<Decoded>) {
    var header :- ParseHeader(d);
    var message :- TakePayload(header.kind, d[HEADER_SIZE..]);
    Ok(Decoded(message.value, header))
  }

  lemma PayloadIs(m: Message)
    ensures PutPayload([], m) == WritePayload(m, []) && |PutPayload([], m)| == PayloadSize(m)
  {
    PayloadAppended([], m, []);
    assert PutPayload([], m) + [] == PutPayload([], m);
    assert [] + WritePayload(m, []) == WritePayload(m, []);
    PayloadWritten(m, []);
  }

  lemma PayloadFollowed(m: Message, tail: Bytes)
    ensures PutPayload([], m) + tail == WritePayload(m, tail)
  {
    PayloadAppended([], m, tail);
    assert [] + WritePayload(m, tail) == WritePayload(m, tail);
  }

  lemma EncodeIs(s: Sent, tail: Bytes)
    ensures Encode(s) + tail == WriteHeader(HeaderOf(s), WritePayload(s.message, tail))
  {
    Appended(PutHeader([], HeaderOf(s)), PutPayload([], s.message), tail);
    PayloadFollowed(s.message, tail);
    HeaderFront(HeaderOf(s), WritePayload(s.message, tail));
  }

  lemma DecodeWritten(h: Header, body: Bytes)
    requires h.magic == MAGIC
    ensures Decode(WriteHeader(h, body)) == var r := TakePayload(h.kind, body);
      if r.Ok? then Ok(Decoded(r.value.value, h)) else r.PropagateFailure()
  {
    HeaderTaken(h, body);
  }

  /** Decoding an encoded message, whatever follows it, gives it back with its request id. */
  lemma DecodeEncode(s: Sent, tail: Bytes)
    requires PayloadSize(s.message) < TWO_32
    ensures Decode(Encode(s) + tail) == Ok(Decoded(OnWire(s.message), HeaderOf(s)))
  {
    EncodeIs(s, tail);
    DecodeWritten(HeaderOf(s), WritePayload(s.message, tail));
    PayloadTaken(s.message, tail);
  }

  // ----- frames ----------------------------------------------------------------------------------------------

  /**
   What the receiver makes of a stream: a message and what follows it, nothing because the stream ended or the message
   does not decode, an exception for a bad header, or an unchecked read.
   */
  datatype Received =
    | Arrived(decoded: Decoded, rest: Bytes)
    | Closed
    | Undecodable(rest: Bytes)
    | Threw
    | Unchecked

  function Receive(stream: Bytes): (r: Received) {
    if |stream| < HEADER_SIZE then Closed
    else
      match ParseHeader(stream[..HEADER_SIZE])
      case Thrown => Threw
      case OutOfBounds => Unchecked
      case Ok(header) =>
        var rest := stream[HEADER_SIZE..];
        if |rest| < header.length then Closed
        else
          match Decode(stream[..HEADER_SIZE] + rest[..header.length])
          case Ok(decoded) => Arrived(decoded, rest[header.length..])
          case Thrown => Undecodable(rest[header.length..])
          case OutOfBounds => Unchecked
  }

  lemma HeaderFront(h: Header, t: Bytes)
    ensures |PutHeader([], h)| == HEADER_SIZE && WriteHeader(h, t) == PutHeader([], h) + t
  {
    HeaderAppended([], h, t);
    assert [] + WriteHeader(h, t) == WriteHeader(h, t);
  }

  lemma FrontParses(h: Header)
    requires h.magic == MAGIC
    ensures ParseHeader(PutHeader([], h)) == Ok(h)
  {
    HeaderFront(h, []);
    assert PutHeader([], h) + [] == PutHeader([], h);
    HeaderTaken(h, []);
  }

  /** A header followed by the announced number of bytes is received as the message those bytes decode to. */
  lemma ReceiveWritten(h: Header, body: Bytes, rest: Bytes)
    requires h.magic == MAGIC && |body| == h.length
    ensures Receive(WriteHeader(h, body + rest)) ==
      match TakePayload(h.kind, body)
      case Ok(got) => Arrived(Decoded(got.value, h), rest)
      case Thrown => Undecodable(rest)
      case OutOfBounds => Unchecked
  {
    var front, stream := PutHeader([], h), WriteHeader(h, body + rest);
    HeaderFront(h, body + rest);
    Parted(front, body + rest);
    Parted(body, rest);
    FrontParses(h);
    HeaderFront(h, body);
    DecodeWritten(h, body);
    assert stream[..HEADER_SIZE] == front && stream[HEADER_SIZE..] == body + rest;
    assert stream[..HEADER_SIZE] + stream[HEADER_SIZE..][..h.length] == WriteHeader(h, body);
  }

  /** A message under 2^32 bytes is received, and nothing of what follows it is touched. */
  lemma FrameReceived(s: Sent, rest: Bytes)
    requires PayloadSize(s.message) < TWO_32
    ensures Receive(Encode(s) + rest) == Arrived(Decoded(OnWire(s.message), HeaderOf(s)), rest)
  {
    EncodeIs(s, rest);
    PayloadIs(s.message);
    PayloadFollowed(s.message, rest);
    ReceiveWritten(HeaderOf(s), PutPayload([], s.message), rest);
    PayloadTaken(s.message, []);
  }

  lemma OnWireSize(m: Message)
    ensures PayloadSize(OnWire(m)) == PayloadSize(m) && KindOf(OnWire(m)) == KindOf(m)
  {
  }

  /** A larger one never is: the announced length is cut, and what is decoded is smaller than what was sent. */
  lemma LargeFrameLost(s: Sent, rest: Bytes)
    requires PayloadSize(s.message) >= TWO_32
    ensures var r := Receive(Encode(s) + rest); r.Arrived? ==> r.decoded.message != OnWire(s.message)
  {
    EncodeIs(s, rest);
    PayloadIs(s.message);
    PayloadFollowed(s.message, rest);
    var h, all := HeaderOf(s), PutPayload([], s.message) + rest;
    var body, left := all[..h.length], all[h.length..];
    assert body + left == all;
    ReceiveWritten(h, body, left);
    PayloadSized(h.kind, body);
    OnWireSize(s.message);
  }

  lemma FrameRoundTripIff(s: Sent, rest: Bytes)
    ensures Receive(Encode(s) + rest) == Arrived(Decoded(OnWire(s.message), HeaderOf(s)), rest)
       <==> PayloadSize(s.message) < TWO_32
  {
    if PayloadSize(s.message) < TWO_32 { FrameReceived(s, rest); } else { LargeFrameLost(s, rest); }
  }

  // ----- streams ---------------------------------------------------------------------------------------------

  function Stream(messages: seq<Sent>): Bytes {
    if messages == [] then [] else Encode(messages[0]) + Stream(messages[1..])
  }

  /** Receive until something other than a message comes. */
  function Drain(stream: Bytes): (r: (seq<Decoded>, Received))
    ensures !r.1.Arrived?
    decreases |stream|
  {
    match Receive(stream)
    case Arrived(decoded, rest) => var more := Drain(rest); ([decoded] + more.0, more.1)
    case other => ([], other)
  }

  function AsReceived(messages: seq<Sent>): seq<Decoded> {
    if messages == [] then []
    else [Decoded(OnWire(messages[0].message), HeaderOf(messages[0]))] + AsReceived(messages[1..])
  }

  /** A sequence of messages comes out of the stream as it went in, in order, with its request ids, and then the end. */
  lemma {:induction false} StreamRoundTrip(messages: seq<Sent>)
    requires forall i :: 0 <= i < |messages| ==> PayloadSize(messages[i].message) < TWO_32
    ensures Drain(Stream(messages)) == (AsReceived(messages), Closed)
    decreases |messages|
  {
    if messages != [] {
      FrameReceived(messages[0], Stream(messages[1..]));
      StreamRoundTrip(messages[1..]);
    }
  }
}
