/**
 The client library: requests are written into its send buffer, responses are received into its receive buffer and
 read from there. Every call is proved to be the exchange of SdkSpec.
 */
module SdkClients {
  import opened Options
  import opened Bytes
  import opened Messages
  import opened Wire
  import opened CodecSpec
  import opened Framing
  import S = SdkSpec
  import T = SdkTheorems
  import Codecs
  import opened UnixServers

  class Client {
    const sendBuffer: array<byte>
    const recvBuffer: array<byte>
    var nextRequestId: u32
    /** What came in on the connection and was not read yet. */
    var unread: Bytes

    /** The sizes of the buffers, with a caller's buffer of a given size. */
    ghost function Sizes(bufferSize: nat): S.Client {
      S.Client(sendBuffer.Length, recvBuffer.Length, bufferSize)
    }

    ghost predicate Valid()
      reads this
    {
      sendBuffer != recvBuffer
    }

    constructor (sendSize: nat, recvSize: nat)
      ensures Valid() && fresh(sendBuffer) && fresh(recvBuffer) && nextRequestId == 1 && unread == []
      ensures sendBuffer.Length == sendSize && recvBuffer.Length == recvSize
    {
      sendBuffer := new byte[sendSize];
      recvBuffer := new byte[recvSize];
      nextRequestId, unread := 1, [];
    }

    // ----- building ------------------------------------------------------------------------------------------

    /** Copy bytes into the send buffer at a position, and move past them. */
    method CopyIn(from: nat, pos: nat, s: Bytes) returns (next: nat)
      requires from <= pos && pos + |s| <= sendBuffer.Length
      modifies sendBuffer
      ensures next == pos + |s| && sendBuffer[from..next] == old(sendBuffer[from..pos]) + s
      ensures forall k :: next <= k < sendBuffer.Length ==> sendBuffer[k] == old(sendBuffer[k])
    {
      for i := 0 to |s|
        invariant forall k :: 0 <= k < sendBuffer.Length ==>
          sendBuffer[k] == if pos <= k < pos + i then s[k - pos] else old(sendBuffer[k])
      {
        sendBuffer[pos + i] := s[i];
      }
      next := pos + |s|;
      assert sendBuffer[from..pos] == old(sendBuffer[from..pos]);
      assert sendBuffer[pos..next] == s;
      assert sendBuffer[from..next] == sendBuffer[from..pos] + sendBuffer[pos..next];
    }

    /** Write the low bytes of a number, lowest first, and move past them. */
    method EncodeInt(from: nat, pos: nat, v: nat, n: nat) returns (next: nat)
      requires from <= pos && pos + n <= sendBuffer.Length
      modifies sendBuffer
      ensures next == pos + n && sendBuffer[from..next] == PutInt(old(sendBuffer[from..pos]), v, n)
      ensures forall k :: next <= k < sendBuffer.Length ==> sendBuffer[k] == old(sendBuffer[k])
    {
      next := CopyIn(from, pos, LittleEndian(v, n));
    }

    method EncodeText(from: nat, pos: nat, s: Bytes) returns (next: nat)
      requires from <= pos && pos + 4 + |s| <= sendBuffer.Length
      modifies sendBuffer
      ensures next == pos + 4 + |s| && sendBuffer[from..next] == PutString(old(sendBuffer[from..pos]), s)
      ensures forall k :: next <= k < sendBuffer.Length ==> sendBuffer[k] == old(sendBuffer[k])
    {
      var at := EncodeInt(from, pos, Cut32(|s|), 4);
      next := CopyIn(from, at, s);
    }

    method EncodeFlag(from: nat, pos: nat, flag: bool) returns (next: nat)
      requires from <= pos && pos + 1 <= sendBuffer.Length
      modifies sendBuffer
      ensures next == pos + 1 && sendBuffer[from..next] == PutFlag(old(sendBuffer[from..pos]), flag)
      ensures forall k :: next <= k < sendBuffer.Length ==> sendBuffer[k] == old(sendBuffer[k])
    {
      next := CopyIn(from, pos, [FlagByte(flag)]);
    }

    method EncodeLifetime(from: nat, pos: nat, ttl: i64) returns (next: nat)
      requires from <= pos && pos + (if ttl > 0 then 9 else 1) <= sendBuffer.Length
      modifies sendBuffer
      ensures next == pos + (if ttl > 0 then 9 else 1)
      ensures sendBuffer[from..next] == S.PutLifetime(old(sendBuffer[from..pos]), ttl)
    {
      next := EncodeFlag(from, pos, ttl > 0);
      if ttl > 0 { next := EncodeInt(from, next, ttl, 8); }
    }

    /** The payload of a request, after the room left for the header. */
    method EncodePayload(r: S.Request) returns (next: nat)
      requires HEADER_SIZE + |S.PutRequest([], r)| <= sendBuffer.Length
      modifies sendBuffer
      ensures next == HEADER_SIZE + |S.PutRequest([], r)| && sendBuffer[HEADER_SIZE..next] == S.PutRequest([], r)
    {
      T.RequestSize(r);
      assert sendBuffer[HEADER_SIZE..HEADER_SIZE] == [];
      next := EncodeText(HEADER_SIZE, HEADER_SIZE, r.key);
      match r
      case Get(_, offset, length) =>
        next := EncodeFlag(HEADER_SIZE, next, false);
        next := EncodeFlag(HEADER_SIZE, next, S.HasRange(offset, length));
        if S.HasRange(offset, length) {
          next := EncodeInt(HEADER_SIZE, next, offset, 8);
          next := EncodeInt(HEADER_SIZE, next, length, 8);
        }
      case Put(_, value, ttl, flags) =>
        next := EncodeText(HEADER_SIZE, next, value);
        next := EncodeLifetime(HEADER_SIZE, next, ttl);
        next := EncodeInt(HEADER_SIZE, next, flags, 4);
      case Delete(_) =>
      case Create(_, totalSize, ttl, flags) =>
        next := EncodeInt(HEADER_SIZE, next, totalSize, 8);
        next := EncodeLifetime(HEADER_SIZE, next, ttl);
        next := EncodeInt(HEADER_SIZE, next, flags, 4);
      case WriteRange(_, offset, data) =>
        next := EncodeInt(HEADER_SIZE, next, offset, 8);
        next := EncodeText(HEADER_SIZE, next, data);
      case Finalize(_) =>
    }

    method EncodeHeader(h: Header, ghost end: nat)
      requires HEADER_SIZE <= end <= sendBuffer.Length
      modifies sendBuffer
      ensures sendBuffer[..HEADER_SIZE] == PutHeader([], h)
      ensures sendBuffer[HEADER_SIZE..end] == old(sendBuffer[HEADER_SIZE..end])
    {
      assert sendBuffer[0..0] == [];
      var pos := EncodeInt(0, 0, h.magic, 4);
      pos := EncodeInt(0, pos, h.version, 2);
      pos := EncodeInt(0, pos, h.kind, 2);
      pos := EncodeInt(0, pos, h.length, 4);
      pos := EncodeInt(0, pos, h.requestId, 4);
      pos := EncodeInt(0, pos, h.timestamp, 8);
      assert sendBuffer[0..HEADER_SIZE] == sendBuffer[..HEADER_SIZE];
    }

    /** Put the header in front of the payload. */
    method Pack(kind: u16, ghost payload: Bytes, end: nat, requestId: u32, time: u64) returns (message: Bytes)
      requires HEADER_SIZE <= end <= sendBuffer.Length && sendBuffer[HEADER_SIZE..end] == payload
      modifies sendBuffer
      ensures message == S.Packed(kind, payload, requestId, time)
    {
      EncodeHeader(Header(MAGIC, VERSION, kind, Cut32(end - HEADER_SIZE), requestId, time), end);
      message := sendBuffer[..end];
      assert message == sendBuffer[..HEADER_SIZE] + sendBuffer[HEADER_SIZE..end];
    }

    /** Check a request against the limits and write it into the send buffer. */
    method Build(r: S.Request, ghost bufferSize: nat, time: u64) returns (built: S.Built)
      requires Valid()
      modifies sendBuffer, this`nextRequestId
      ensures built == S.Build(Sizes(bufferSize), r, old(nextRequestId), time)
      ensures nextRequestId == if built.Ready? then S.NextId(old(nextRequestId)) else old(nextRequestId)
    {
      if |r.key| > S.MAX_KEY && !r.Delete? && !r.Finalize? { return S.Refused(S.KEY_TOO_LARGE); }
      if r.Put? && HEADER_SIZE + 4 + |r.key| + 4 + |r.value| + 1 + 8 + 4 > sendBuffer.Length {
        return S.Refused(S.VALUE_TOO_LARGE);
      }
      if r.WriteRange? && HEADER_SIZE + 4 + |r.key| + 8 + 4 + |r.data| > sendBuffer.Length {
        return S.Refused(S.VALUE_TOO_LARGE);
      }
      if HEADER_SIZE + |S.PutRequest([], r)| > sendBuffer.Length { return S.Overrun; }
      var end := EncodePayload(r);
      var message := Pack(S.KindOf(r), S.PutRequest([], r), end, nextRequestId, time);
      nextRequestId := S.NextId(nextRequestId);
      built := S.Ready(message);
    }

    // ----- reading -------------------------------------------------------------------------------------------

    /** Receive `n` bytes into the receive buffer at a position; too few, and the wait for more times out. */
    method RecvAll(at: nat, n: nat) returns (ok: bool)
      requires at + Min(n, |unread|) <= recvBuffer.Length
      modifies this`unread, recvBuffer
      ensures ok <==> n <= |old(unread)|
      ensures ok ==> at + n <= recvBuffer.Length
      ensures ok ==> recvBuffer[at..at + n] == old(unread)[..n] && unread == old(unread)[n..]
      ensures !ok ==> unread == []
    {
      for i := 0 to n
        invariant i <= |old(unread)| && unread == old(unread)[i..]
        invariant forall k :: at <= k < at + i ==> recvBuffer[k] == old(unread)[k - at]
      {
        if unread == [] { return false; }
        recvBuffer[at + i] := unread[0];
        unread := unread[1..];
      }
      ok := true;
    }

    /** The result of a get, from the payload received. */
    method ReadGet(p: Bytes, bufferSize: nat) returns (o: Outcome<S.Result>)
      ensures o == S.ReadGet(p, bufferSize)
    {
      var view := new Codecs.View(p);
      if |view.data| < 4 { return OutOfBounds; }
      var code := view.TakeU32();
      var hasMeta :- view.TakeBool();
      if hasMeta {
        if |view.data| < 20 { return OutOfBounds; }
        view.data := view.data[20..];
      }
      if |view.data| < 4 { return OutOfBounds; }
      var length := view.TakeU32();
      if code.value == 1 { return Ok(S.Code(S.NOT_FOUND)); }
      if length.value > bufferSize { return Ok(S.Result(S.BUFFER_TOO_SMALL, [], length.value)); }
      if |view.data| < length.value { return OutOfBounds; }
      o := Ok(S.Result(if code.value == 2 then S.PARTIAL else S.OK, view.data[..length.value], length.value));
    }

    /** What the payload of a response says of a request. */
    method ReadPayload(r: S.Request, p: Bytes, bufferSize: nat) returns (o: Outcome<S.Result>)
      ensures o == S.ReadPayload(r, p, bufferSize)
    {
      if r.Get? {
        o := ReadGet(p, bufferSize);
      } else if r.Delete? {
        o := Ok(S.Code(S.OK));
      } else if |p| < 4 {
        o := OutOfBounds;
      } else {
        var code := DecodeInt(p, 0, 4);
        assert p[0..4] == p[..4];
        if code == 0 {
          o := Ok(S.Code(S.OK));
        } else if r.WriteRange? {
          o := Ok(S.Code(if code == 1 then S.NOT_FOUND else if code == 2 then S.INVALID_ARG else S.INTERNAL));
        } else if r.Finalize? {
          o := Ok(S.Code(if code == 1 then S.NOT_FOUND else if code == 2 then S.PARTIAL else S.INTERNAL));
        } else {
          o := Ok(S.Code(S.INTERNAL));
        }
      }
    }

    /** The header of the response, if it comes. */
    method ReadHeader() returns (h: Option<Header>)
      requires Valid() && Min(HEADER_SIZE, |unread|) <= recvBuffer.Length
      modifies this`unread, recvBuffer
      ensures match TakeHeader(old(unread))
        case Ok(got) => h == Some(got.value) && unread == got.rest
        case _ => h == None && unread == []
    {
      var ok := RecvAll(0, HEADER_SIZE);
      if !ok { return None; }
      assert recvBuffer[..HEADER_SIZE] == old(unread)[..HEADER_SIZE];
      FrontHeader(old(unread));
      var view := new Codecs.View(recvBuffer[..HEADER_SIZE]);
      var header := view.ReadWholeHeader();
      h := Some(header.value);
    }

    /** The payload the header announces, if it fits and comes, and what it says. */
    method ReadBody(r: S.Request, h: Header, bufferSize: nat) returns (o: Outcome<S.Result>)
      requires Valid()
      modifies this`unread, recvBuffer
      ensures o == S.ReadBody(Sizes(bufferSize), r, h, old(unread))
      ensures unread == S.UnreadBody(Sizes(bufferSize), r, h, old(unread))
    {
      if r.Get? && (h.magic != MAGIC || h.kind != 0x0101) { return Ok(S.Code(S.PROTOCOL)); }
      if r.Get? && HEADER_SIZE + h.length > recvBuffer.Length { return Ok(S.Code(S.BUFFER_TOO_SMALL)); }
      if HEADER_SIZE + Min(h.length, |unread|) > recvBuffer.Length { return OutOfBounds; }
      var ok := RecvAll(HEADER_SIZE, h.length);
      if !ok { return Ok(S.Code(S.CONNECTION)); }
      o := ReadPayload(r, recvBuffer[HEADER_SIZE..HEADER_SIZE + h.length], bufferSize);
    }

    method ReadResponse(r: S.Request, bufferSize: nat) returns (o: Outcome<S.Result>)
      requires Valid()
      modifies this`unread, recvBuffer
      ensures o == S.ReadResponse(Sizes(bufferSize), r, old(unread))
      ensures unread == S.Unread(Sizes(bufferSize), r, old(unread))
    {
      if Min(HEADER_SIZE, |unread|) > recvBuffer.Length { return OutOfBounds; }
      var h := ReadHeader();
      if h.None? { return Ok(S.Code(S.CONNECTION)); }
      o := ReadBody(r, h.value, bufferSize);
    }

    /** Read what the server sends, after what it sent before. */
    method Hear(r: S.Request, served: S.Served, bufferSize: nat, ghost server: S.Server) returns (o: Outcome<S.Result>)
      requires Valid()
      modifies this`unread, recvBuffer
      ensures S.Hear(Sizes(bufferSize), server, old(unread), r, served) == S.Step(server, o, unread)
    {
      if served.Fault? { return OutOfBounds; }
      unread := unread + if served.Sends? then served.response else [];
      o := ReadResponse(r, bufferSize);
    }

    /** Send a message to the server and read what it answers. */
    method Ask(server: UnixServer, r: S.Request, message: Bytes, bufferSize: nat, time: u64)
        returns (o: Outcome<S.Result>)
      requires Valid() && server.Valid() && {sendBuffer, recvBuffer, this} !! server.sparse.Repr
      modifies this`unread, recvBuffer, server.cache, server.sparse.Repr
      ensures Valid() && server.Valid() && fresh(server.sparse.Repr - old(server.sparse.Repr))
      ensures S.Sound(old(server.Model()))
      ensures var served := S.Serve(old(server.Model()), message, time);
        S.Hear(Sizes(bufferSize), served.0, old(unread), r, served.1) == S.Step(server.Model(), o, unread)
    {
      var served := server.Process(message, time);
      ghost var model := server.Model();
      o := Hear(r, served, bufferSize, model);
      assert server.Model() == model;
    }

    /** The rest of a call, when its request is built. */
    method Proceed(server: UnixServer, r: S.Request, built: S.Built, bufferSize: nat, answered: u64)
        returns (o: Outcome<S.Result>)
      requires Valid() && server.Valid() && {sendBuffer, recvBuffer, this} !! server.sparse.Repr
      modifies this`unread, recvBuffer, server.cache, server.sparse.Repr
      ensures Valid() && server.Valid() && fresh(server.sparse.Repr - old(server.sparse.Repr))
      ensures S.Sound(old(server.Model()))
      ensures S.Proceed(Sizes(bufferSize), old(server.Model()), old(unread), r, built, answered)
           == S.Step(server.Model(), o, unread)
    {
      server.ModelSound();
      match built
      case Refused(code) => o := Ok(S.Code(code));
      case Overrun => o := OutOfBounds;
      case Ready(message) => o := Ask(server, r, message, bufferSize, answered);
    }

    /** A call: build the request, let the server process it, read its response. */
    method Call(server: UnixServer, r: S.Request, bufferSize: nat, sent: u64, answered: u64)
        returns (o: Outcome<S.Result>)
      requires Valid() && server.Valid() && {sendBuffer, recvBuffer, this} !! server.sparse.Repr
      modifies this, sendBuffer, recvBuffer, server.cache, server.sparse.Repr
      ensures Valid() && server.Valid() && fresh(server.sparse.Repr - old(server.sparse.Repr))
      ensures S.Sound(old(server.Model()))
      ensures S.Exchange(Sizes(bufferSize), old(server.Model()), old(unread), r, old(nextRequestId), sent, answered)
           == S.Step(server.Model(), o, unread)
      ensures nextRequestId == if S.Build(Sizes(bufferSize), r, old(nextRequestId), sent).Ready?
                               then S.NextId(old(nextRequestId)) else old(nextRequestId)
    {
      server.ModelSound();
      var built := Build(r, bufferSize, sent);
      o := Proceed(server, r, built, bufferSize, answered);
    }

    /** The second try of a get that allocates, if the answer to the first was that the buffer is too small. */
    method TryAgain(server: UnixServer, r: S.Request, sent: u64, answered: u64, first: Outcome<S.Result>, garbage: nat,
                    ghost id: u32)
        returns (o: Outcome<S.Result>)
      requires Valid() && server.Valid() && {sendBuffer, recvBuffer, this} !! server.sparse.Repr
      requires first.Ok? && first.value.code == S.BUFFER_TOO_SMALL ==> nextRequestId == S.NextId(id)
      modifies this, sendBuffer, recvBuffer, server.cache, server.sparse.Repr
      ensures Valid() && server.Valid() && fresh(server.sparse.Repr - old(server.sparse.Repr))
      ensures S.Sound(old(server.Model()))
      ensures S.TryAgain(sendBuffer.Length, recvBuffer.Length, S.Step(old(server.Model()), first, old(unread)), r, id,
                         sent, answered, garbage)
           == S.Step(server.Model(), o, unread)
    {
      server.ModelSound();
      o := first;
      if first.Ok? && first.value.code == S.BUFFER_TOO_SMALL {
        o := Call(server, r, if first.value.needed > 0 then first.value.needed else garbage, sent, answered);
      }
    }

    /** The first try of a get that allocates, and when it was sent, the next request id. */
    method TryFirst(server: UnixServer, r: S.Request, sent: u64, answered: u64) returns (o: Outcome<S.Result>)
      requires Valid() && server.Valid() && {sendBuffer, recvBuffer, this} !! server.sparse.Repr
      modifies this, sendBuffer, recvBuffer, server.cache, server.sparse.Repr
      ensures Valid() && server.Valid() && fresh(server.sparse.Repr - old(server.sparse.Repr))
      ensures S.Sound(old(server.Model())) && S.Sound(server.Model())
      ensures o.Ok? && o.value.code == S.BUFFER_TOO_SMALL ==> nextRequestId == S.NextId(old(nextRequestId))
      ensures S.Step(server.Model(), o, unread)
           == S.Exchange(Sizes(recvBuffer.Length), old(server.Model()), old(unread), r, old(nextRequestId), sent,
                         answered)
    {
      server.ModelSound();
      ghost var before, left, id := server.Model(), unread, nextRequestId;
      o := Call(server, r, recvBuffer.Length, sent, answered);
      server.ModelSound();
      if o.Ok? && o.value.code == S.BUFFER_TOO_SMALL {
        S.TooSmallWasSent(Sizes(recvBuffer.Length), before, left, r, id, sent, answered);
      }
    }

    /** A get into memory allocated by the library; `garbage` is what its uninitialized size variable holds. */
    method GetAlloc(server: UnixServer, r: S.Request, sent: u64, answered: u64, garbage: nat)
        returns (o: Outcome<S.Result>)
      requires Valid() && server.Valid() && {sendBuffer, recvBuffer, this} !! server.sparse.Repr && r.Get?
      modifies this, sendBuffer, recvBuffer, server.cache, server.sparse.Repr
      ensures Valid() && server.Valid() && fresh(server.sparse.Repr - old(server.sparse.Repr))
      ensures S.Sound(old(server.Model()))
      ensures S.GetAlloc(sendBuffer.Length, recvBuffer.Length, old(server.Model()), old(unread), r, old(nextRequestId),
                         sent, answered, garbage)
           == S.Step(server.Model(), o, unread)
    {
      server.ModelSound();
      ghost var before, left, id := server.Model(), unread, nextRequestId;
      o := TryFirst(server, r, sent, answered);
      S.GetAllocIs(sendBuffer.Length, recvBuffer.Length, before, left, r, id, sent, answered, garbage,
                   S.Step(server.Model(), o, unread));
      o := TryAgain(server, r, sent, answered, o, garbage, id);
    }
  }

  lemma TakeFront(d: Bytes, n: nat, m: nat)
    requires n <= m <= |d|
    ensures TakeInt(d[..m], n).Ok? && TakeInt(d, n).Ok?
    ensures TakeInt(d[..m], n).value.value == TakeInt(d, n).value.value
    ensures TakeInt(d[..m], n).value.rest == TakeInt(d, n).value.rest[..m - n]
  {
    assert d[..m][..n] == d[..n];
    assert d[..m][n..] == d[n..][..m - n];
  }

  /** The header fields are in the first 24 bytes. */
  lemma FrontHeader(d: Bytes)
    requires |d| >= HEADER_SIZE
    ensures TakeHeader(d[..HEADER_SIZE]).Ok? && TakeHeader(d).Ok?
    ensures TakeHeader(d[..HEADER_SIZE]).value.value == TakeHeader(d).value.value
  {
    TakeFront(d, 4, 24);
    TakeFront(d[4..], 2, 20);
    TakeFront(d[4..][2..], 2, 18);
    TakeFront(d[4..][2..][2..], 4, 16);
    TakeFront(d[4..][2..][2..][4..], 4, 12);
    TakeFront(d[4..][2..][2..][4..][4..], 8, 8);
  }
}
