/**
 Client and server agree. Parsing what the client builds recovers its arguments (`GetRecovered` and the others), so a
 call through the wire does what the call means (`ExchangeIsDirect`).
 */
module SdkTheorems {
  import opened Bytes
  import opened Wire
  import opened CodecSpec
  import opened Framing
  import opened SdkSpec
  import SparseSpec

  // ----- the server reads what the client wrote --------------------------------------------------------------

  lemma KeyRecovered(key: Bytes, rest: Bytes, k: nat)
    requires 4 + |key| + k < TWO_32 && k <= |rest|
    ensures ParseKey(WriteString(key, rest), k) == Parsed(Got(key, rest))
  {
    var p := WriteString(key, rest);
    KeyFront(key, rest);
    assert p[4..4 + |key|] == key by { Middle(LittleEndian(|key|, 4), key, rest); }
    assert p[4 + |key|..] == rest by { Middle(LittleEndian(|key|, 4), key, rest); }
  }

  lemma KeyFront(key: Bytes, rest: Bytes)
    requires |key| < TWO_32
    ensures var p := WriteString(key, rest);
      && p == LittleEndian(|key|, 4) + (key + rest) && Number(p[..4]) == |key| && |p| == 4 + |key| + |rest|
  {
    Powers();
    NumberOfLittleEndian(|key|, 4);
    Parted(LittleEndian(|key|, 4), key + rest);
  }

  lemma Middle(a: Bytes, b: Bytes, d: Bytes)
    ensures (a + (b + d))[|a|..|a| + |b|] == b && (a + (b + d))[|a| + |b|..] == d
  {
  }

  lemma IntFront(v: nat, n: nat, tail: Bytes)
    requires v < Pow256(n)
    ensures var d := WriteInt(v, n, tail); |d| == n + |tail| && Number(d[..n]) == v && d[n..] == tail
  {
    NumberOfLittleEndian(v, n);
    Parted(LittleEndian(v, n), tail);
  }

  /** A request whose lengths fit the 32-bit checks of its handler. */
  predicate Fits(r: Request) {
    match r
    case Get(key, _, _) => |key| + 6 < TWO_32
    case Put(key, value, _, _) => |key| + 8 < TWO_32 && |value| < TWO_32
    case Delete(key) => |key| + 4 < TWO_32
    case Create(key, _, _, _) => |key| + 12 < TWO_32
    case WriteRange(key, _, data) => |key| + 16 < TWO_32 && |data| < TWO_32
    case Finalize(key) => |key| + 4 < TWO_32
  }

  lemma GetRecovered(r: Request)
    requires r.Get? && Fits(r)
    ensures ParseGet(PutRequest([], r)) == Parsed(GetArgs(r.key, HasRange(r.offset, r.length), r.offset, r.length))
  {
    RequestIs(r);
    KeyRecovered(r.key, WriteRest(r, []), 2);
    GetRest(r);
    GetParsed(PutRequest([], r), r, WriteRest(r, []));
  }

  lemma GetParsed(p: Bytes, r: Request, rest: Bytes)
    requires r.Get? && ParseKey(p, 2) == Parsed(Got(r.key, rest))
    requires var has := HasRange(r.offset, r.length);
      && |rest| == (if has then 18 else 2) && (rest[1] != 0 <==> has)
      && (has ==> Number(rest[2..][..8]) == r.offset && Number(rest[2..][8..16]) == r.length)
    ensures ParseGet(p) == Parsed(GetArgs(r.key, HasRange(r.offset, r.length), r.offset, r.length))
  {
  }

  lemma GetRest(r: Request)
    requires r.Get?
    ensures var rest := WriteRest(r, []); var has := HasRange(r.offset, r.length);
      && |rest| == (if has then 18 else 2) && (rest[1] != 0 <==> has)
      && (has ==> Number(rest[2..][..8]) == r.offset && Number(rest[2..][8..16]) == r.length)
  {
    var has := HasRange(r.offset, r.length);
    var t := if has then WriteInt(r.offset, 8, WriteInt(r.length, 8, [])) else [];
    TwoFlags(has, t);
    if has { TwoInts(r.offset, r.length); }
  }

  lemma TwoFlags(has: bool, t: Bytes)
    ensures var rest := WriteFlag(false, WriteFlag(has, t));
      |rest| == 2 + |t| && (rest[1] != 0 <==> has) && rest[2..] == t
  {
  }

  lemma TwoInts(a: u64, b: u64)
    ensures var t := WriteInt(a, 8, WriteInt(b, 8, []));
      |t| == 16 && Number(t[..8]) == a && Number(t[8..16]) == b
  {
    Powers();
    var t2 := WriteInt(b, 8, []);
    var t := WriteInt(a, 8, t2);
    IntFront(a, 8, t2);
    IntFront(b, 8, []);
    assert t[8..16] == t2;
    assert t2[..8] == t2;
  }

  lemma PutRecovered(r: Request)
    requires r.Put? && Fits(r)
    ensures ParsePut(PutRequest([], r)) == Parsed((r.key, r.value))
  {
    RequestIs(r);
    var tail := WriteLifetime(r.ttl, WriteInt(r.flags, 4, []));
    var rest := WriteString(r.value, tail);
    KeyFront(r.value, tail);
    KeyRecovered(r.key, rest, 4);
    Middle(LittleEndian(|r.value|, 4), r.value, tail);
    assert rest[4..][..|r.value|] == rest[4..4 + |r.value|];
  }

  lemma KeyAloneRecovered(r: Request)
    requires (r.Delete? || r.Finalize?) && Fits(r)
    ensures ParseDelete(PutRequest([], r)) == Parsed(r.key)
  {
    RequestIs(r);
    KeyRecovered(r.key, [], 0);
  }

  lemma CreateRecovered(r: Request)
    requires r.Create? && Fits(r)
    ensures ParseCreate(PutRequest([], r)) == Parsed((r.key, r.totalSize))
  {
    RequestIs(r);
    Powers();
    var tail := WriteLifetime(r.ttl, WriteInt(r.flags, 4, []));
    IntFront(r.totalSize, 8, tail);
    KeyRecovered(r.key, WriteInt(r.totalSize, 8, tail), 8);
  }

  lemma WriteRangeRecovered(r: Request)
    requires r.WriteRange? && Fits(r)
    ensures ParseWriteRange(PutRequest([], r)) == Parsed((r.key, SparseSpec.Write(r.offset, r.data)))
  {
    RequestIs(r);
    RangeRest(r.offset, r.data);
    KeyRecovered(r.key, WriteRest(r, []), 12);
    WriteRangeParsed(PutRequest([], r), r, WriteRest(r, []));
  }

  lemma RangeRest(offset: u64, data: Bytes)
    requires |data| < TWO_32
    ensures var rest := WriteInt(offset, 8, WriteString(data, []));
      && |rest| == 12 + |data| && Number(rest[..8]) == offset && Number(rest[8..12]) == |data| && rest[12..] == data
  {
    Powers();
    var text := WriteString(data, []);
    var rest := WriteInt(offset, 8, text);
    IntFront(offset, 8, text);
    KeyFront(data, []);
    Middle(LittleEndian(|data|, 4), data, []);
    assert rest[8..12] == text[..4];
    assert rest[12..] == text[4..] == data + [];
  }

  lemma WriteRangeParsed(p: Bytes, r: Request, rest: Bytes)
    requires r.WriteRange? && ParseKey(p, 12) == Parsed(Got(r.key, rest))
    requires |rest| == 12 + |r.data| && Number(rest[..8]) == r.offset && Number(rest[8..12]) == |r.data|
    requires rest[12..] == r.data
    ensures ParseWriteRange(p) == Parsed((r.key, SparseSpec.Write(r.offset, r.data)))
  {
    assert rest[12..][..|r.data|] == r.data;
  }

  // ----- what a call means -----------------------------------------------------------------------------------

  /**
   The meaning of a call, said without bytes. A write past the end of its entry is an invalid argument, one to a
   missing entry is not found; finalizing finds nothing, a partial entry, or moves the entry to the values.
   */
  function Direct(s: Server, r: Request): (d: (Server, Result))
    requires Sound(s)
  {
    match r
    case Get(key, offset, length) =>
      if key !in s.values then (s, Code(NOT_FOUND))
      else var part := RangeOf(s.values[key], offset, length); (s, Result(OK, part, |part|))
    case Put(key, value, _, _) => (s.(values := s.values[key := value]), Code(OK))
    case Delete(key) => (s.(values := s.values - {key}), Code(OK))
    case Create(key, totalSize, _, _) =>
      if key in s.sparse then (s, Code(INTERNAL))
      else (s.(sparse := s.sparse[key := SparseSpec.New(totalSize)]), Code(OK))
    case WriteRange(key, offset, data) =>
      if key !in s.sparse then (s, Code(NOT_FOUND))
      else if offset + |data| > |s.sparse[key].data| then (s, Code(INVALID_ARG))
      else
        (s.(sparse := s.sparse[key := SparseSpec.Overlay(s.sparse[key], SparseSpec.Write(offset, data))]), Code(OK))
    case Finalize(key) =>
      if key !in s.sparse then (s, Code(NOT_FOUND))
      else if !SparseSpec.Complete(s.sparse[key]) then (s, Code(PARTIAL))
      else (Server(s.values[key := s.sparse[key].data], s.sparse - {key}), Code(OK))
  }

  /** Asking for everything is asking for a range from the start with no length. */
  lemma WholeRange(value: Bytes)
    ensures RangeOf(value, 0, 0) == value
  {
  }

  // ----- the client reads what the server wrote --------------------------------------------------------------

  lemma GetAnswerIs(found: bool, data: Bytes)
    ensures GetAnswer(found, data) == WriteInt(if found then 0 else 1, 4, WriteFlag(false, WriteString(data, [])))
  {
    var code := if found then 0 else 1;
    var b1 := PutInt([], code, 4);
    var b2 := PutFlag(b1, false);
    StringAppended(b2, data, []);
    FlagAppended(b1, false, WriteString(data, []));
    IntAppended([], code, 4, WriteFlag(false, WriteString(data, [])));
    Alone(GetAnswer(found, data), WriteInt(code, 4, WriteFlag(false, WriteString(data, []))));
  }

  lemma GetRead(found: bool, data: Bytes, bufferSize: nat)
    requires |data| < TWO_32 && (found ==> |data| <= bufferSize)
    ensures ReadGet(GetAnswer(found, data), bufferSize)
         == Ok(if found then Result(OK, data, |data|) else Code(NOT_FOUND))
  {
    Powers();
    var code := if found then 0 else 1;
    var text := WriteString(data, []);
    GetAnswerIs(found, data);
    IntTaken(code, 4, WriteFlag(false, text));
    FlagTaken(false, text);
    IntTaken(|data|, 4, data + []);
    assert data + [] == data;
    GetSteps(GetAnswer(found, data), WriteFlag(false, text), text, data, code, bufferSize);
  }

  lemma GetSteps(p: Bytes, d1: Bytes, d2: Bytes, d3: Bytes, code: nat, bufferSize: nat)
    requires TakeInt(p, 4) == Ok(Got(code, d1)) && TakeFlag(d1) == Ok(Got(false, d2))
    requires TakeInt(d2, 4) == Ok(Got(|d3|, d3)) && code <= 1 && (code == 0 ==> |d3| <= bufferSize)
    ensures ReadGet(p, bufferSize) == Ok(if code == 0 then Result(OK, d3, |d3|) else Code(NOT_FOUND))
  {
    assert d3[..|d3|] == d3;
  }

  lemma CodeRead(code: nat)
    requires code < 3
    ensures |CodeAnswer(code)| == 4 && Number(CodeAnswer(code)[..4]) == code
  {
    Powers();
    NumberOfLittleEndian(code, 4);
    assert CodeAnswer(code) == LittleEndian(code, 4);
    assert CodeAnswer(code)[..4] == CodeAnswer(code);
  }

  // ----- calls through the wire ------------------------------------------------------------------------------

  /** The code in the response to anything but a get. */
  function CodeOf(s: Server, r: Request): (code: nat)
    ensures code <= 2
  {
    match r
    case Create(key, _, _, _) => if key in s.sparse then 1 else 0
    case WriteRange(key, offset, data) =>
      if key !in s.sparse then 1 else if offset + |data| > |s.sparse[key].data| then 2 else 0
    case Finalize(key) => if key !in s.sparse then 1 else if !SparseSpec.Complete(s.sparse[key]) then 2 else 0
    case _ => 0
  }

  /** The response a request gets. */
  function AnswerOf(s: Server, r: Request): Bytes {
    if !r.Get? then CodeAnswer(CodeOf(s, r))
    else if r.key in s.values then GetAnswer(true, RangeOf(s.values[r.key], r.offset, r.length))
    else GetAnswer(false, [])
  }

  /** If a range write lies outside its entry, the bounds check catches it. */
  predicate Checked(s: Server, r: Request) {
    r.WriteRange? && r.key in s.sparse ==>
      SparseSpec.Check(|s.sparse[r.key].data|, SparseSpec.Write(r.offset, r.data)) != SparseSpec.OutOfBounds
  }

  lemma GetHandled(s: Server, r: Request)
    requires Sound(s) && Fits(r) && r.Get?
    ensures Handle(s, KindOf(r), PutRequest([], r)) == (s, Answer(0x0101, AnswerOf(s, r)))
  {
    GetRecovered(r);
    if r.key in s.values { WholeRange(s.values[r.key]); }
  }

  lemma PutHandled(s: Server, r: Request, p: Bytes)
    requires Sound(s) && r.Put? && ParsePut(p) == Parsed((r.key, r.value))
    ensures Handle(s, KindOf(r), p) == (Direct(s, r).0, Answer(KindOf(r) + 1, AnswerOf(s, r)))
  {
  }

  lemma DeleteHandled(s: Server, r: Request, p: Bytes)
    requires Sound(s) && r.Delete? && ParseDelete(p) == Parsed(r.key)
    ensures Handle(s, KindOf(r), p) == (Direct(s, r).0, Answer(KindOf(r) + 1, AnswerOf(s, r)))
  {
  }

  lemma StoreHandled(s: Server, r: Request)
    requires Sound(s) && Fits(r) && (r.Put? || r.Delete?)
    ensures Handle(s, KindOf(r), PutRequest([], r)) == (Direct(s, r).0, Answer(KindOf(r) + 1, AnswerOf(s, r)))
  {
    var p := PutRequest([], r);
    if r.Put? {
      PutRecovered(r);
      PutHandled(s, r, p);
    } else {
      KeyAloneRecovered(r);
      DeleteHandled(s, r, p);
    }
  }

  lemma CreateHandled(s: Server, r: Request, p: Bytes)
    requires Sound(s) && r.Create? && ParseCreate(p) == Parsed((r.key, r.totalSize))
    ensures Handle(s, KindOf(r), p) == (Direct(s, r).0, Answer(KindOf(r) + 1, AnswerOf(s, r)))
  {
  }

  lemma WriteRangeHandled(s: Server, r: Request, p: Bytes)
    requires Sound(s) && r.WriteRange? && Checked(s, r)
    requires ParseWriteRange(p) == Parsed((r.key, SparseSpec.Write(r.offset, r.data)))
    ensures Handle(s, KindOf(r), p) == (Direct(s, r).0, Answer(KindOf(r) + 1, AnswerOf(s, r)))
  {
  }

  lemma FinalizeHandled(s: Server, r: Request, p: Bytes)
    requires Sound(s) && r.Finalize? && ParseDelete(p) == Parsed(r.key)
    ensures Handle(s, KindOf(r), p) == (Direct(s, r).0, Answer(KindOf(r) + 1, AnswerOf(s, r)))
  {
  }

  lemma SparseHandled(s: Server, r: Request)
    requires Sound(s) && Fits(r) && Checked(s, r) && (r.Create? || r.WriteRange? || r.Finalize?)
    ensures Handle(s, KindOf(r), PutRequest([], r)) == (Direct(s, r).0, Answer(KindOf(r) + 1, AnswerOf(s, r)))
  {
    var p := PutRequest([], r);
    if r.Create? {
      CreateRecovered(r);
      CreateHandled(s, r, p);
    } else if r.WriteRange? {
      WriteRangeRecovered(r);
      WriteRangeHandled(s, r, p);
    } else {
      KeyAloneRecovered(r);
      FinalizeHandled(s, r, p);
    }
  }

  /** The server does what the request means and answers accordingly. */
  lemma Handled(s: Server, r: Request)
    requires Sound(s) && Fits(r) && Checked(s, r)
    ensures Handle(s, KindOf(r), PutRequest([], r)) == (Direct(s, r).0, Answer(KindOf(r) + 1, AnswerOf(s, r)))
  {
    if r.Get? { GetHandled(s, r); } else if r.Put? || r.Delete? { StoreHandled(s, r); } else { SparseHandled(s, r); }
  }

  lemma Unpacked(kind: u16, payload: Bytes, requestId: u32, time: u64)
    requires |payload| < TWO_32
    ensures TakeHeader(Packed(kind, payload, requestId, time))
         == Ok(Got(Header(MAGIC, VERSION, kind, |payload|, requestId, time), payload))
  {
    var h := Header(MAGIC, VERSION, kind, |payload|, requestId, time);
    HeaderFront(h, payload);
    HeaderTaken(h, payload);
  }

  lemma ServedAs(s: Server, r: Request, requestId: u32, sent: u64, answered: u64)
    requires Sound(s) && Fits(r) && Checked(s, r) && |PutRequest([], r)| < TWO_32
    ensures Serve(s, Packed(KindOf(r), PutRequest([], r), requestId, sent), answered)
         == (Direct(s, r).0, Sends(Packed(KindOf(r) + 1, AnswerOf(s, r), requestId, answered)))
  {
    var p := PutRequest([], r);
    Unpacked(KindOf(r), p, requestId, sent);
    assert p[..|p|] == p;
    Handled(s, r);
    ServeSteps(s, Packed(KindOf(r), p, requestId, sent), answered, p, KindOf(r), requestId, Direct(s, r).0,
               KindOf(r) + 1, AnswerOf(s, r), sent);
  }

  lemma ServeSteps(s: Server, message: Bytes, time: u64, p: Bytes, kind: u16, requestId: u32, s': Server,
                   answer: u16, payload: Bytes, sent: u64)
    requires Sound(s) && |p| < TWO_32
    requires TakeHeader(message) == Ok(Got(Header(MAGIC, VERSION, kind, |p|, requestId, sent), p))
    requires Handle(s, kind, p) == (s', Answer(answer, payload))
    ensures Serve(s, message, time) == (s', Sends(Packed(answer, payload, requestId, time)))
  {
    assert p[..|p|] == p;
  }

  /** What a get returns, and whether the client has room for it. */
  function PartOf(s: Server, r: Request): Bytes
    requires r.Get?
  {
    if r.key in s.values then RangeOf(s.values[r.key], r.offset, r.length) else []
  }

  predicate Roomy(c: Client, s: Server, r: Request) {
    && HEADER_SIZE + 4 <= c.recvSize
    && (r.Get? ==> |PartOf(s, r)| <= c.bufferSize && HEADER_SIZE + 9 + |PartOf(s, r)| <= c.recvSize < TWO_32)
  }

  lemma GetAnswerSize(found: bool, data: Bytes)
    ensures |GetAnswer(found, data)| == 9 + |data|
  {
  }

  /** A response with room leaves nothing on the connection. */
  lemma AllRead(c: Client, r: Request, response: Bytes, h: Header, p: Bytes)
    requires TakeHeader(response) == Ok(Got(h, p)) && h.length == |p| && HEADER_SIZE + |p| <= c.recvSize
    requires r.Get? ==> h.magic == MAGIC && h.kind == 0x0101
    ensures Unread(c, r, response) == []
  {
  }

  lemma GetReadBack(c: Client, s: Server, r: Request, requestId: u32, time: u64)
    requires Sound(s) && Roomy(c, s, r) && r.Get?
    ensures ReadResponse(c, r, Packed(0x0101, AnswerOf(s, r), requestId, time)) == Ok(Direct(s, r).1)
    ensures Unread(c, r, Packed(0x0101, AnswerOf(s, r), requestId, time)) == []
  {
    var payload, part := AnswerOf(s, r), PartOf(s, r);
    GetAnswerSize(r.key in s.values, part);
    Unpacked(0x0101, payload, requestId, time);
    assert payload[..|payload|] == payload;
    GetRead(r.key in s.values, part, c.bufferSize);
    AllRead(c, r, Packed(0x0101, payload, requestId, time), Header(MAGIC, VERSION, 0x0101, |payload|, requestId, time),
            payload);
  }

  lemma CodeReadBack(c: Client, s: Server, r: Request, requestId: u32, time: u64)
    requires Sound(s) && Roomy(c, s, r) && !r.Get?
    ensures ReadResponse(c, r, Packed(KindOf(r) + 1, AnswerOf(s, r), requestId, time)) == Ok(Direct(s, r).1)
    ensures Unread(c, r, Packed(KindOf(r) + 1, AnswerOf(s, r), requestId, time)) == []
  {
    var p := CodeAnswer(CodeOf(s, r));
    var response, h := Packed(KindOf(r) + 1, p, requestId, time),
                       Header(MAGIC, VERSION, KindOf(r) + 1, |p|, requestId, time);
    CodeRead(CodeOf(s, r));
    Unpacked(KindOf(r) + 1, p, requestId, time);
    CodeSteps(c, s, r, response, h, p);
    AllRead(c, r, response, h, p);
  }

  lemma CodeSteps(c: Client, s: Server, r: Request, response: Bytes, h: Header, p: Bytes)
    requires Sound(s) && HEADER_SIZE + 4 <= c.recvSize && !r.Get?
    requires TakeHeader(response) == Ok(Got(h, p)) && h.length == |p| == 4 && Number(p[..4]) == CodeOf(s, r)
    ensures ReadResponse(c, r, response) == Ok(Direct(s, r).1)
  {
    assert p[..4] == p;
  }

  // ----- sizes -----------------------------------------------------------------------------------------------

  lemma RequestSize(r: Request)
    ensures |PutRequest([], r)| ==
      match r
      case Get(key, offset, length) => 4 + |key| + 2 + if HasRange(offset, length) then 16 else 0
      case Put(key, value, ttl, _) => 4 + |key| + 4 + |value| + 5 + if ttl > 0 then 8 else 0
      case Delete(key) => 4 + |key|
      case Create(key, _, ttl, _) => 4 + |key| + 13 + if ttl > 0 then 8 else 0
      case WriteRange(key, _, data) => 4 + |key| + 12 + |data|
      case Finalize(key) => 4 + |key|
  {
  }

  /** A request the client can send: its key is not too long and its send buffer has room. */
  predicate Sendable(c: Client, r: Request) {
    && |r.key| <= MAX_KEY
    && c.sendSize < TWO_32
    && HEADER_SIZE + (if r.Put? then 4 + |r.key| + 4 + |r.value| + 13 else |PutRequest([], r)|) <= c.sendSize
  }

  lemma SendableIsBuilt(c: Client, r: Request, requestId: u32, time: u64)
    requires Sendable(c, r)
    ensures Fits(r) && |PutRequest([], r)| < TWO_32
    ensures Build(c, r, requestId, time) == Ready(Packed(KindOf(r), PutRequest([], r), requestId, time))
  {
    RequestSize(r);
  }

  /** The response of the server to a request. */
  function ResponseTo(s: Server, r: Request, requestId: u32, time: u64): Bytes {
    Packed(KindOf(r) + 1, AnswerOf(s, r), requestId, time)
  }

  /**
   Whatever is on the connection, the server does what the request means, and the client reads its result from what was
   there and the response.
   */
  lemma ExchangeReads(c: Client, s: Server, unread: Bytes, r: Request, requestId: u32, sent: u64, answered: u64)
    requires Sound(s) && Sendable(c, r) && Checked(s, r)
    ensures var incoming := unread + ResponseTo(s, r, requestId, answered);
      Exchange(c, s, unread, r, requestId, sent, answered)
      == Step(Direct(s, r).0, ReadResponse(c, r, incoming), Unread(c, r, incoming))
  {
    SendableIsBuilt(c, r, requestId, sent);
    ServedAs(s, r, requestId, sent, answered);
    ExchangeSteps(c, s, unread, r, requestId, sent, answered, Packed(KindOf(r), PutRequest([], r), requestId, sent),
                  Direct(s, r).0, ResponseTo(s, r, requestId, answered));
  }

  lemma ExchangeSteps(c: Client, s: Server, unread: Bytes, r: Request, requestId: u32, sent: u64, answered: u64,
                      message: Bytes, s': Server, response: Bytes)
    requires Sound(s) && Build(c, r, requestId, sent) == Ready(message)
    requires Serve(s, message, answered) == (s', Sends(response))
    ensures Exchange(c, s, unread, r, requestId, sent, answered)
         == Step(s', ReadResponse(c, r, unread + response), Unread(c, r, unread + response))
  {
  }

  /**
   A call through the wire does exactly what the call means: client and server agree on every byte of the request and
   of the response, whatever the request, when the client's buffers have room for them and nothing was left on the
   connection before. Nothing is left on it after.
   */
  lemma ExchangeIsDirect(c: Client, s: Server, r: Request, requestId: u32, sent: u64, answered: u64)
    requires Sound(s) && Sendable(c, r) && Roomy(c, s, r) && Checked(s, r)
    ensures Exchange(c, s, [], r, requestId, sent, answered) == Step(Direct(s, r).0, Ok(Direct(s, r).1), [])
  {
    ExchangeReads(c, s, [], r, requestId, sent, answered);
    var response := ResponseTo(s, r, requestId, answered);
    assert [] + response == response;
    if r.Get? { GetReadBack(c, s, r, requestId, answered); } else { CodeReadBack(c, s, r, requestId, answered); }
  }

  /**
   The codes of the range operations, exactly: a write is refused because its entry is absent or its range exceeds the
   entry, finalizing because the entry is absent or some byte of it is unwritten.
   */
  lemma RangeCodesExact(c: Client, s: Server, r: Request, requestId: u32, sent: u64, answered: u64)
    requires Sound(s) && Sendable(c, r) && Roomy(c, s, r) && Checked(s, r) && (r.WriteRange? || r.Finalize?)
    ensures var o := Exchange(c, s, [], r, requestId, sent, answered).outcome;
      && o.Ok?
      && (o.value.code == NOT_FOUND <==> r.key !in s.sparse)
      && (o.value.code == INVALID_ARG
          <==> r.WriteRange? && r.key in s.sparse && r.offset + |r.data| > |s.sparse[r.key].data|)
      && (o.value.code == PARTIAL
          <==> && r.Finalize? && r.key in s.sparse
               && exists k :: 0 <= k < |s.sparse[r.key].written| && !s.sparse[r.key].written[k])
      && o.value.code in {OK, NOT_FOUND, INVALID_ARG, PARTIAL}
  {
    ExchangeIsDirect(c, s, r, requestId, sent, answered);
  }
}
