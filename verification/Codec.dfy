/**
 The codec and the connection as they run: encoders append to a buffer, decoders advance a view, and the connection
 reads in pieces of whatever size arrive. Each method is proved against the functions of the wire format.
 */
module Codecs {
  import opened Options
  import opened Bytes
  import opened Messages
  import opened Wire
  import opened CodecSpec
  import opened CodecMessages
  import opened Framing

  class Buffer {
    var bytes: Bytes

    constructor ()
      ensures bytes == []
    {
      bytes := [];
    }

    method PutByte(v: nat)
      modifies this
      ensures bytes == old(bytes) + [(v % 256) as byte]
    {
      bytes := bytes + [(v % 256) as byte];
    }

    method PutU16(v: u16)
      modifies this
      ensures bytes == PutInt(old(bytes), v, 2)
    {
      PutByte(v);
      PutByte(v / 256);
      assert LittleEndian(v, 2) == [(v % 256) as byte] + LittleEndian(v / 256, 1);
    }

    method PutU32(v: u32)
      modifies this
      ensures bytes == PutInt(old(bytes), v, 4)
    {
      PutByte(v);
      PutByte(v / 256);
      PutByte(v / 256 / 256);
      PutByte(v / 256 / 256 / 256);
      FourBytes(v);
    }

    method PutU64(v: u64)
      modifies this
      ensures bytes == PutInt(old(bytes), v, 8)
    {
      ghost var goal := PutInt(bytes, v, 8);
      var rest := v;
      for i := 0 to 8
        invariant 0 <= rest && PutInt(bytes, rest, 8 - i) == goal
      {
        NextByte(bytes, rest, 8 - i);
        PutByte(rest);
        rest := rest / 256;
      }
      assert bytes + [] == bytes;
    }

    method PutText(s: Bytes)
      modifies this
      ensures bytes == PutString(old(bytes), s)
    {
      PutU32(Cut32(|s|));
      bytes := bytes + s;
    }

    method PutBool(flag: bool)
      modifies this
      ensures bytes == PutFlag(old(bytes), flag)
    {
      bytes := bytes + [FlagByte(flag)];
    }

    method PutNodeInfo(i: NodeInfo)
      modifies this
      ensures bytes == PutInfo(old(bytes), i)
    {
      PutU64(i.id);
      PutText(i.address);
      PutU16(i.port);
      PutU64(i.memoryCapacity);
      PutU64(i.memoryUsed);
      PutU64(i.diskCapacity);
      PutU64(i.diskUsed);
      PutU64(i.generation);
      PutU32(i.state);
    }

    method PutNodeInfos(infos: seq<NodeInfo>)
      modifies this
      ensures bytes == PutInfos(old(bytes), infos)
    {
      PutU32(Cut32(|infos|));
      ghost var goal := PutAll(PutInfo, bytes, infos);
      var rest := infos;
      while rest != []
        invariant PutAll(PutInfo, bytes, rest) == goal
        decreases |rest|
      {
        PutNodeInfo(rest[0]);
        rest := rest[1..];
      }
    }

    method PutTexts(strings: seq<Bytes>)
      modifies this
      ensures bytes == PutStrings(old(bytes), strings)
    {
      PutU32(Cut32(|strings|));
      ghost var goal := PutAll(PutString, bytes, strings);
      var rest := strings;
      while rest != []
        invariant PutAll(PutString, bytes, rest) == goal
        decreases |rest|
      {
        PutText(rest[0]);
        rest := rest[1..];
      }
    }

    method PutOptionalRange(r: Option<WireRange>)
      modifies this
      ensures bytes == PutRange(old(bytes), r)
    {
      PutBool(r.Some?);
      if r.Some? {
        PutU64(r.value.offset);
        PutU64(r.value.length);
      }
    }

    method PutOptionalMetadata(m: Option<Metadata>)
      modifies this
      ensures bytes == PutMetadata(old(bytes), m)
    {
      PutBool(m.Some?);
      if m.Some? {
        PutU64(m.value.totalSize);
        PutU64(m.value.chunkCount);
        PutU32(m.value.flags);
      }
    }

    method PutOptionalTtl(ttl: Option<i64>)
      modifies this
      ensures bytes == PutTtl(old(bytes), ttl)
    {
      PutBool(ttl.Some?);
      if ttl.Some? {
        PutU64(Pattern(ttl.value));
      }
    }

    method PutMessage(m: Message)
      modifies this
      ensures bytes == PutPayload(old(bytes), m)
    {
      match m
      case Hello(_, _, _) =>
        PutNodeInfo(m.sender);
        PutText(m.clusterName);
        PutTexts(m.capabilities);
      case HelloAck(_, _, _) =>
        PutNodeInfo(m.sender);
        PutBool(m.accepted);
        PutText(m.rejectReason);
      case GossipPush(_, _) =>
        PutU64(m.from);
        PutNodeInfos(m.nodes);
      case Get(_, _, _) =>
        PutText(m.key);
        PutBool(m.metadataOnly);
        PutOptionalRange(m.range);
      case GetResponse(_, _, _, _) =>
        PutU32(m.result);
        PutOptionalMetadata(m.metadata);
        PutText(m.data);
        PutU64(m.actualRange.offset);
        PutU64(m.actualRange.length);
      case Put(_, _, _, _) =>
        PutText(m.key);
        PutText(m.data);
        PutOptionalTtl(m.ttl);
        PutU32(m.flags);
      case PutResponse(_, _) =>
        PutU32(m.code);
        PutText(m.message);
      case Delete(_) =>
        PutText(m.key);
      case DeleteResponse(_, _) =>
        PutU32(m.code);
        PutBool(m.existed);
      case Error(_, _, _) =>
        PutU32(m.code);
        PutText(m.message);
        PutU32(m.originalRequestId);
    }

    method PutMessageHeader(h: Header)
      modifies this
      ensures bytes == PutHeader(old(bytes), h)
    {
      PutU32(h.magic);
      PutU16(h.version);
      PutU16(h.kind);
      PutU32(h.length);
      PutU32(h.requestId);
      PutU64(h.timestamp);
    }
  }

  lemma FourBytes(v: u32)
    ensures LittleEndian(v, 4) == [(v % 256) as byte, (v / 256 % 256) as byte, (v / 256 / 256 % 256) as byte,
                                   (v / 256 / 256 / 256 % 256) as byte]
  {
    var w := v / 256;
    assert LittleEndian(v, 4) == [(v % 256) as byte] + LittleEndian(w, 3);
    assert LittleEndian(w, 3) == [(w % 256) as byte] + LittleEndian(w / 256, 2);
    assert LittleEndian(w / 256, 2) == [(w / 256 % 256) as byte] + LittleEndian(w / 256 / 256, 1);
  }

  lemma NextByte(buf: Bytes, v: nat, n: pos)
    ensures PutInt(buf + [(v % 256) as byte], v / 256, n - 1) == PutInt(buf, v, n)
  {
    AppendOne(buf, (v % 256) as byte, LittleEndian(v / 256, n - 1));
  }

  /** Encode a message: its payload into one buffer, then the header and the payload into another. */
  method EncodeMessage(s: Sent) returns (result: Bytes)
    ensures result == Encode(s)
  {
    var payload := new Buffer();
    payload.PutMessage(s.message);
    var buffer := new Buffer();
    buffer.PutMessageHeader(
      Header(MAGIC, VERSION, KindOf(s.message), Cut32(|payload.bytes|), s.requestId, s.timestamp));
    result := buffer.bytes + payload.bytes;
  }

  // ----- decoding --------------------------------------------------------------------------------------------

  /** A method that reads agrees with the function that takes. */
  ghost predicate Reads<T>(taken: Outcome<Got<T>>, r: Outcome<T>, after: Bytes) {
    match taken
    case Ok(got) => r == Ok(got.value) && after == got.rest
    case Thrown => r == Thrown
    case OutOfBounds => r == OutOfBounds
  }

  lemma {:induction false} NumberAppend(s: Bytes, b: byte)
    ensures Number(s + [b]) == Number(s) + b as int * Pow256(|s|)
  {
    if s != [] {
      assert (s + [b])[1..] == s[1..] + [b];
      NumberAppend(s[1..], b);
      Scaled(b as int, Pow256(|s| - 1));
    }
  }

  lemma Scaled(b: nat, p: nat)
    ensures 256 * (b * p) == b * (256 * p)
  {
  }

  class View {
    var data: Bytes

    constructor (data: Bytes)
      ensures this.data == data
    {
      this.data := data;
    }

    /** Add up `n` little-endian bytes. */
    method TakeNumber(n: nat) returns (r: Outcome<nat>)
      modifies this
      ensures Reads(TakeInt(old(data), n), r, data)
    {
      if |data| < n { return Thrown; }
      var v, scale := 0, 1;
      for i := 0 to n
        invariant data == old(data) && v == Number(data[..i]) && scale == Pow256(i)
      {
        NumberAppend(data[..i], data[i]);
        assert data[..i + 1] == data[..i] + [data[i]];
        v := v + data[i] as int * scale;
        scale := 256 * scale;
      }
      r := Ok(v);
      data := data[n..];
    }

    method TakeU16() returns (r: Outcome<nat>)
      modifies this
      ensures Reads(TakeInt(old(data), 2), r, data)
    {
      r := TakeNumber(2);
    }

    method TakeU32() returns (r: Outcome<nat>)
      modifies this
      ensures Reads(TakeInt(old(data), 4), r, data)
    {
      r := TakeNumber(4);
    }

    method TakeU64() returns (r: Outcome<nat>)
      modifies this
      ensures Reads(TakeInt(old(data), 8), r, data)
    {
      r := TakeNumber(8);
    }

    method TakeText() returns (r: Outcome<Bytes>)
      modifies this
      ensures Reads(TakeString(old(data)), r, data)
    {
      var length :- TakeU32();
      if |data| < length { return Thrown; }
      r := Ok(data[..length]);
      data := data[length..];
    }

    method TakeBool() returns (r: Outcome<bool>)
      modifies this
      ensures Reads(TakeFlag(old(data)), r, data)
    {
      if data == [] { return OutOfBounds; }
      r := Ok(data[0] != 0);
      data := data[1..];
    }

    method TakeNodeInfo() returns (r: Outcome<NodeInfo>)
      modifies this
      ensures Reads(TakeInfo(old(data)), r, data)
    {
      Powers();
      var id :- TakeU64();
      var address :- TakeText();
      var port :- TakeU16();
      var memoryCapacity :- TakeU64();
      var memoryUsed :- TakeU64();
      var diskCapacity :- TakeU64();
      var diskUsed :- TakeU64();
      var generation :- TakeU64();
      var state :- TakeU32();
      r := Ok(NodeInfo(id, address, port, memoryCapacity, memoryUsed, diskCapacity, diskUsed, generation, state));
    }

    /** A counted list of infos, one after the other. */
    method TakeInfoList(count: nat) returns (r: Outcome<seq<NodeInfo>>)
      modifies this
      ensures Reads(TakeAll(TakeInfo, old(data), count), r, data)
    {
      var infos := [];
      var i := 0;
      while i < count
        invariant 0 <= i <= count && TakeAll(TakeInfo, old(data), i) == Ok(Got(infos, data))
      {
        TakeNext(TakeInfo, old(data), i, count, infos, data);
        var info :- TakeNodeInfo();
        infos := infos + [info];
        i := i + 1;
      }
      r := Ok(infos);
    }

    method TakeNodeInfos() returns (r: Outcome<seq<NodeInfo>>)
      modifies this
      ensures Reads(TakeInfos(old(data)), r, data)
    {
      var count :- TakeU32();
      r := TakeInfoList(count);
    }

    method TakeTextList(count: nat) returns (r: Outcome<seq<Bytes>>)
      modifies this
      ensures Reads(TakeAll(TakeString, old(data), count), r, data)
    {
      var strings := [];
      var i := 0;
      while i < count
        invariant 0 <= i <= count && TakeAll(TakeString, old(data), i) == Ok(Got(strings, data))
      {
        TakeNext(TakeString, old(data), i, count, strings, data);
        var s :- TakeText();
        strings := strings + [s];
        i := i + 1;
      }
      r := Ok(strings);
    }

    method TakeTexts() returns (r: Outcome<seq<Bytes>>)
      modifies this
      ensures Reads(TakeStrings(old(data)), r, data)
    {
      var count :- TakeU32();
      r := TakeTextList(count);
    }

    method TakeWireRange() returns (r: Outcome<WireRange>)
      modifies this
      ensures Reads(TakeSpan(old(data)), r, data)
    {
      Powers();
      var offset :- TakeU64();
      var length :- TakeU64();
      r := Ok(WireRange(offset, length));
    }

    method TakeOptionalRange() returns (r: Outcome<Option<WireRange>>)
      modifies this
      ensures Reads(TakeRange(old(data)), r, data)
    {
      Powers();
      var has :- TakeBool();
      if !has { return Ok(None); }
      var offset :- TakeU64();
      var length :- TakeU64();
      r := Ok(Some(WireRange(offset, length)));
    }

    method TakeOptionalMetadata() returns (r: Outcome<Option<Metadata>>)
      modifies this
      ensures Reads(TakeMetadata(old(data)), r, data)
    {
      Powers();
      var has :- TakeBool();
      if !has { return Ok(None); }
      var totalSize :- TakeU64();
      var chunkCount :- TakeU64();
      var flags :- TakeU32();
      r := Ok(Some(Metadata(totalSize, chunkCount, flags, 0, 0, None)));
    }

    method TakeOptionalTtl() returns (r: Outcome<Option<i64>>)
      modifies this
      ensures Reads(TakeTtl(old(data)), r, data)
    {
      Powers();
      var has :- TakeBool();
      if !has { return Ok(None); }
      var count :- TakeU64();
      r := Ok(Some(Seconds(count)));
    }

    method ReadHello() returns (r: Outcome<Message>)
      modifies this
      ensures Reads(TakeHello(old(data)), r, data)
    {
      Powers();
      var sender :- TakeNodeInfo();
      var clusterName :- TakeText();
      var capabilities :- TakeTexts();
      r := Ok(Hello(sender, clusterName, capabilities));
    }

    method ReadHelloAck() returns (r: Outcome<Message>)
      modifies this
      ensures Reads(TakeHelloAck(old(data)), r, data)
    {
      Powers();
      var sender :- TakeNodeInfo();
      var accepted :- TakeBool();
      var rejectReason :- TakeText();
      r := Ok(HelloAck(sender, accepted, rejectReason));
    }

    method ReadGossipPush() returns (r: Outcome<Message>)
      modifies this
      ensures Reads(TakeGossipPush(old(data)), r, data)
    {
      Powers();
      var from :- TakeU64();
      var nodes :- TakeNodeInfos();
      r := Ok(GossipPush(from, nodes));
    }

    method ReadGet() returns (r: Outcome<Message>)
      modifies this
      ensures Reads(TakeGet(old(data)), r, data)
    {
      Powers();
      var key :- TakeText();
      var metadataOnly :- TakeBool();
      var range :- TakeOptionalRange();
      r := Ok(Get(key, metadataOnly, range));
    }

    method ReadGetResponse() returns (r: Outcome<Message>)
      modifies this
      ensures Reads(TakeGetResponse(old(data)), r, data)
    {
      Powers();
      var result :- TakeU32();
      var metadata :- TakeOptionalMetadata();
      var data :- TakeText();
      var actualRange :- TakeWireRange();
      r := Ok(GetResponse(result, metadata, data, actualRange));
    }

    method ReadPut() returns (r: Outcome<Message>)
      modifies this
      ensures Reads(TakePut(old(data)), r, data)
    {
      Powers();
      var key :- TakeText();
      var data :- TakeText();
      var ttl :- TakeOptionalTtl();
      var flags :- TakeU32();
      r := Ok(Put(key, data, ttl, flags));
    }

    method ReadPutResponse() returns (r: Outcome<Message>)
      modifies this
      ensures Reads(TakePutResponse(old(data)), r, data)
    {
      Powers();
      var code :- TakeU32();
      var message :- TakeText();
      r := Ok(PutResponse(code, message));
    }

    method ReadDelete() returns (r: Outcome<Message>)
      modifies this
      ensures Reads(TakeDelete(old(data)), r, data)
    {
      Powers();
      var key :- TakeText();
      r := Ok(Delete(key));
    }

    method ReadDeleteResponse() returns (r: Outcome<Message>)
      modifies this
      ensures Reads(TakeDeleteResponse(old(data)), r, data)
    {
      Powers();
      var code :- TakeU32();
      var existed :- TakeBool();
      r := Ok(DeleteResponse(code, existed));
    }

    method ReadError() returns (r: Outcome<Message>)
      modifies this
      ensures Reads(TakeError(old(data)), r, data)
    {
      Powers();
      var code :- TakeU32();
      var message :- TakeText();
      var originalRequestId :- TakeU32();
      r := Ok(Error(code, message, originalRequestId));
    }

    method ReadMessage(kind: u16) returns (r: Outcome<Message>)
      modifies this
      ensures Reads(TakePayload(kind, old(data)), r, data)
    {
      match kind
      case 0x0001 => r := ReadHello();
      case 0x0002 => r := ReadHelloAck();
      case 0x0010 => r := ReadGossipPush();
      case 0x0100 => r := ReadGet();
      case 0x0101 => r := ReadGetResponse();
      case 0x0102 => r := ReadPut();
      case 0x0103 => r := ReadPutResponse();
      case 0x0104 => r := ReadDelete();
      case 0x0105 => r := ReadDeleteResponse();
      case 0xFFFF => r := ReadError();
      case _ => r := Thrown;
    }

    /** The fields of a header, whatever the magic number. */
    method ReadWholeHeader() returns (r: Outcome<Header>)
      modifies this
      ensures Reads(TakeHeader(old(data)), r, data)
    {
      Powers();
      var magic :- TakeU32();
      var version :- TakeU16();
      var kind :- TakeU16();
      var length :- TakeU32();
      var requestId :- TakeU32();
      var timestamp :- TakeU64();
      r := Ok(Header(magic, version, kind, length, requestId, timestamp));
    }

    method ReadHeader() returns (r: Outcome<Header>)
      modifies this
      ensures r == ParseHeader(old(data)) && (r.Ok? ==> data == old(data)[HEADER_SIZE..])
    {
      var h :- ReadWholeHeader();
      if h.magic != MAGIC { return Thrown; }
      r := Ok(h);
    }
  }

  /** One more element of a list: it is taken, or the list cannot be. */
  lemma {:induction false} TakeNext<T>(take: Bytes -> Outcome<Got<T>>, d: Bytes, i: nat, n: nat, xs: seq<T>,
                                       rest: Bytes)
    requires i < n && TakeAll(take, d, i) == Ok(Got(xs, rest))
    ensures take(rest).Ok? ==>
      TakeAll(take, d, i + 1) == Ok(Got(xs + [take(rest).value.value], take(rest).value.rest))
    ensures !take(rest).Ok? ==> TakeAll(take, d, n) == take(rest).PropagateFailure()
    decreases i
  {
    if i > 0 {
      TakeNext(take, take(d).value.rest, i - 1, n - 1, xs[1..], rest);
      if take(rest).Ok? { assert [xs[0]] + (xs[1..] + [take(rest).value.value]) == xs + [take(rest).value.value]; }
    } else if take(rest).Ok? {
      assert TakeAll(take, take(rest).value.rest, 0) == Ok(Got([], take(rest).value.rest));
      assert [take(rest).value.value] + [] == xs + [take(rest).value.value];
    }
  }

  method DecodeMessage(bytes: Bytes) returns (r: Outcome<Decoded>)
    ensures r == Decode(bytes)
  {
    var view := new View(bytes);
    var header :- view.ReadHeader();
    var message :- view.ReadMessage(header.kind);
    r := Ok(Decoded(message, header));
  }

  // ----- the connection --------------------------------------------------------------------------------------

  /** One end of a connection; `pending` is what the other end sent and was not read yet, then the end. */
  class Connection {
    var connected: bool
    var pending: Bytes

    constructor (pending: Bytes)
      ensures connected && this.pending == pending
    {
      this.connected, this.pending := true, pending;
    }

    /** Read until `n` bytes have come, in pieces of any size. */
    method ReadExactly(n: nat) returns (ok: bool, bytes: Bytes)
      modifies this
      ensures ok <==> n <= |old(pending)|
      ensures ok ==> bytes == old(pending)[..n] && pending == old(pending)[n..] && connected == old(connected)
      ensures !ok ==> pending == [] && !connected
    {
      bytes := [];
      while |bytes| < n
        invariant |bytes| <= n && connected == old(connected) && old(pending) == bytes + pending
        decreases n - |bytes|
      {
        if pending == [] {
          connected := false;
          return false, [];
        }
        var piece :| 1 <= piece && piece <= n - |bytes| && piece <= |pending|;
        MovePiece(bytes, pending, piece);
        bytes := bytes + pending[..piece];
        pending := pending[piece..];
      }
      ok := true;
    }

    /** Receive one message: the header, then the announced number of bytes, then decode them together. */
    method ReceiveMessage() returns (r: Outcome<Option<Message>>)
      modifies this
      ensures match Receive(old(pending))
        case Arrived(decoded, rest) => r == Ok(Some(decoded.message)) && pending == rest
        case Closed => r == Ok(None) && !connected
        case Undecodable(rest) => r == Ok(None) && pending == rest
        case Threw => r == Thrown
        case Unchecked => r == OutOfBounds
    {
      var ok, header := ReadExactly(HEADER_SIZE);
      if !ok { return Ok(None); }
      var view := new View(header);
      var h :- view.ReadHeader();
      var okBody, body := ReadExactly(h.length);
      if !okBody { return Ok(None); }
      var decoded := DecodeMessage(header + body);
      r := if decoded.Ok? then Ok(Some(decoded.value.message)) else if decoded.Thrown? then Ok(None) else OutOfBounds;
    }

    /** Receive messages one after the other, until something other than a message comes. */
    method ReceiveAll() returns (messages: seq<Message>)
      modifies this
      ensures messages == MessagesOf(Drain(old(pending)).0)
    {
      messages := [];
      ghost var goal := MessagesOf(Drain(pending).0);
      while true
        invariant messages + MessagesOf(Drain(pending).0) == goal
        decreases |pending|
      {
        DrainUnfolds(messages, pending);
        var r := ReceiveMessage();
        if r.IsFailure() || r.value.None? { return; }
        messages := messages + [r.value.value];
      }
    }

    /** Deliver bytes to this end, in pieces of any size. */
    method Deliver(data: Bytes)
      modifies this
      ensures pending == old(pending) + data && connected == old(connected)
    {
      var sent := 0;
      while sent < |data|
        invariant 0 <= sent <= |data| && pending == old(pending) + data[..sent] && connected == old(connected)
      {
        var piece :| 1 <= piece <= |data| - sent;
        Joined(old(pending), data, sent, piece);
        pending := pending + data[sent..sent + piece];
        sent := sent + piece;
      }
      assert data[..sent] == data;
    }

    /** The other end sends a message. */
    method SendMessage(s: Sent)
      modifies this
      ensures pending == old(pending) + Encode(s) && connected == old(connected)
    {
      var data := EncodeMessage(s);
      Deliver(data);
    }
  }

  function MessagesOf(decoded: seq<Decoded>): seq<Message> {
    if decoded == [] then [] else [decoded[0].message] + MessagesOf(decoded[1..])
  }

  lemma DrainUnfolds(before: seq<Message>, stream: Bytes)
    ensures match Receive(stream)
      case Arrived(decoded, rest) =>
        && |rest| < |stream|
        && before + MessagesOf(Drain(stream).0) == (before + [decoded.message]) + MessagesOf(Drain(rest).0)
      case _ => before + MessagesOf(Drain(stream).0) == before
  {
    match Receive(stream)
    case Arrived(decoded, rest) =>
      assert Drain(stream).0[1..] == Drain(rest).0;
      AppendOne(before, decoded.message, MessagesOf(Drain(rest).0));
    case _ =>
      assert before + [] == before;
  }

  lemma MovePiece(bytes: Bytes, pending: Bytes, piece: nat)
    requires piece <= |pending|
    ensures bytes + pending == (bytes + pending[..piece]) + pending[piece..]
  {
  }

  lemma Joined(before: Bytes, data: Bytes, sent: nat, piece: nat)
    requires sent + piece <= |data|
    ensures before + data[..sent] + data[sent..sent + piece] == before + data[..sent + piece]
  {
    assert data[..sent] + data[sent..sent + piece] == data[..sent + piece];
  }
}
