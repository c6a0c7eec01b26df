/**
 The requests the client library builds and the responses it reads, byte for byte, and what the socket server makes of
 them. Lengths that a handler checks are added in 32 bits.
 */
module SdkSpec {
  import opened Options
  import opened Bytes
  import opened Messages
  import opened Wire
  import opened CodecSpec
  import opened Framing
  import SparseSpec

  const MAX_KEY: nat := 8192
  const DEFAULT_BUFFER: nat := 256 * 1024

  datatype Request =
    | Get(key: Bytes, offset: u64, length: u64)
    | Put(key: Bytes, value: Bytes, ttl: i64, flags: u32)
    | Delete(key: Bytes)
    | Create(key: Bytes, totalSize: u64, ttl: i64, flags: u32)
    | WriteRange(key: Bytes, offset: u64, data: Bytes)
    | Finalize(key: Bytes)

  function KindOf(r: Request): u16 {
    match r
    case Get(_, _, _) => 0x0100
    case Put(_, _, _, _) => 0x0102
    case Delete(_) => 0x0104
    case Create(_, _, _, _) => 0x0108
    case WriteRange(_, _, _) => 0x010A
    case Finalize(_) => 0x010C
  }

  // ----- what the client builds ------------------------------------------------------------------------------

  function PutLifetime(buf: Bytes, ttl: i64): Bytes {
    if ttl > 0 then PutInt(PutFlag(buf, true), ttl, 8) else PutFlag(buf, false)
  }

  function WriteLifetime(ttl: i64, tail: Bytes): Bytes {
    if ttl > 0 then WriteFlag(true, WriteInt(ttl, 8, tail)) else WriteFlag(false, tail)
  }

  /** A get names a range unless it asks for everything. */
  predicate HasRange(offset: u64, length: u64) { offset > 0 || length > 0 }

  function PutRequest(buf: Bytes, r: Request): Bytes {
    var b := PutString(buf, r.key);
    match r
    case Get(_, offset, length) =>
      var b := PutFlag(PutFlag(b, false), HasRange(offset, length));
      if HasRange(offset, length) then PutInt(PutInt(b, offset, 8), length, 8) else b
    case Put(_, value, ttl, flags) => PutInt(PutLifetime(PutString(b, value), ttl), flags, 4)
    case Delete(_) => b
    case Create(_, totalSize, ttl, flags) => PutInt(PutLifetime(PutInt(b, totalSize, 8), ttl), flags, 4)
    case WriteRange(_, offset, data) => PutString(PutInt(b, offset, 8), data)
    case Finalize(_) => b
  }

  /** What follows the key. */
  function WriteRest(r: Request, tail: Bytes): Bytes {
    match r
    case Get(_, offset, length) =>
      WriteFlag(false, WriteFlag(HasRange(offset, length),
        if HasRange(offset, length) then WriteInt(offset, 8, WriteInt(length, 8, tail)) else tail))
    case Put(_, value, ttl, flags) => WriteString(value, WriteLifetime(ttl, WriteInt(flags, 4, tail)))
    case Delete(_) => tail
    case Create(_, totalSize, ttl, flags) => WriteInt(totalSize, 8, WriteLifetime(ttl, WriteInt(flags, 4, tail)))
    case WriteRange(_, offset, data) => WriteInt(offset, 8, WriteString(data, tail))
    case Finalize(_) => tail
  }

  lemma LifetimeAppended(buf: Bytes, ttl: i64, tail: Bytes)
    ensures PutLifetime(buf, ttl) + tail == buf + WriteLifetime(ttl, tail)
  {
    if ttl > 0 {
      IntAppended(PutFlag(buf, true), ttl, 8, tail);
      FlagAppended(buf, true, WriteInt(ttl, 8, tail));
    } else {
      FlagAppended(buf, false, tail);
    }
  }

  lemma RestAppended(b: Bytes, r: Request, buf: Bytes, tail: Bytes)
    requires b == PutString(buf, r.key)
    ensures PutRequest(buf, r) + tail == b + WriteRest(r, tail)
  {
    match r
    case Get(_, offset, length) =>
      var b1, has := PutFlag(b, false), HasRange(offset, length);
      var b2 := PutFlag(b1, has);
      var t2 := if has then WriteInt(offset, 8, WriteInt(length, 8, tail)) else tail;
      if has {
        IntAppended(PutInt(b2, offset, 8), length, 8, tail);
        IntAppended(b2, offset, 8, WriteInt(length, 8, tail));
      }
      FlagAppended(b1, has, t2);
      FlagAppended(b, false, WriteFlag(has, t2));
    case Put(_, value, ttl, flags) =>
      var b1 := PutString(b, value);
      var t2 := WriteInt(flags, 4, tail);
      IntAppended(PutLifetime(b1, ttl), flags, 4, tail);
      LifetimeAppended(b1, ttl, t2);
      StringAppended(b, value, WriteLifetime(ttl, t2));
    case Delete(_) =>
    case Create(_, totalSize, ttl, flags) =>
      var b1 := PutInt(b, totalSize, 8);
      var t2 := WriteInt(flags, 4, tail);
      IntAppended(PutLifetime(b1, ttl), flags, 4, tail);
      LifetimeAppended(b1, ttl, t2);
      IntAppended(b, totalSize, 8, WriteLifetime(ttl, t2));
    case WriteRange(_, offset, data) =>
      StringAppended(PutInt(b, offset, 8), data, tail);
      IntAppended(b, offset, 8, WriteString(data, tail));
    case Finalize(_) =>
  }

  /** The payload is the key, with its length, and then the rest. */
  lemma RequestIs(r: Request)
    ensures PutRequest([], r) == WriteString(r.key, WriteRest(r, []))
  {
    RestAppended(PutString([], r.key), r, [], []);
    assert PutRequest([], r) + [] == PutRequest([], r);
    StringAppended([], r.key, WriteRest(r, []));
    assert [] + WriteString(r.key, WriteRest(r, [])) == WriteString(r.key, WriteRest(r, []));
  }

  // ----- what the server reads -------------------------------------------------------------------------------

  /** A handler reads its arguments, drops the request without an answer, or reads past the payload. */
  datatype Parse<+T> = Parsed(value: T) | Ignored | Overread {
    predicate IsFailure() { !Parsed? }
    function PropagateFailure<U>(): Parse<U>
      requires IsFailure()
    {
      if Ignored? then Ignored else Overread
    }
    function Extract(): T
      requires Parsed?
    {
      value
    }
  }

  /** The key, when the payload is long enough for it and `k` more bytes; the sum is checked in 32 bits. */
  function ParseKey(p: Bytes, k: nat): (r: Parse<Got<Bytes>>)
    ensures r.Parsed? ==> |r.value.rest| >= k
  {
    if |p| < 4 then Ignored
    else
      var keyLength := Number(p[..4]);
      if |p| < (4 + keyLength + k) % TWO_32 then Ignored
      else if |p| < 4 + keyLength + k then Overread
      else Parsed(Got(p[4..4 + keyLength], p[4 + keyLength..]))
  }

  datatype GetArgs = GetArgs(key: Bytes, hasRange: bool, offset: u64, length: u64)

  function ParseGet(p: Bytes): (r: Parse<GetArgs>) {
    Powers();
    var key :- ParseKey(p, 2);
    var hasRange := key.rest[1] != 0;
    var rest := key.rest[2..];
    if hasRange && |rest| >= 16 then
      LittleEndianOfNumber(rest[..8]);
      LittleEndianOfNumber(rest[8..16]);
      Parsed(GetArgs(key.value, hasRange, Number(rest[..8]), Number(rest[8..16])))
    else Parsed(GetArgs(key.value, hasRange, 0, 0))
  }

  function ParsePut(p: Bytes): (r: Parse<(Bytes, Bytes)>) {
    if |p| < 8 then Ignored
    else
      var key :- ParseKey(p, 4);
      var valueLength := Number(key.rest[..4]);
      var rest := key.rest[4..];
      if |rest| < valueLength then Ignored else Parsed((key.value, rest[..valueLength]))
  }

  function ParseDelete(p: Bytes): (r: Parse<Bytes>) {
    var key :- ParseKey(p, 0);
    Parsed(key.value)
  }

  function ParseCreate(p: Bytes): (r: Parse<(Bytes, nat)>) {
    var key :- ParseKey(p, 8);
    Parsed((key.value, Number(key.rest[..8])))
  }

  function ParseWriteRange(p: Bytes): (r: Parse<(Bytes, SparseSpec.Write)>) {
    var key :- ParseKey(p, 12);
    var dataLength := Number(key.rest[8..12]);
    var rest := key.rest[12..];
    if |rest| < dataLength then Ignored
    else Parsed((key.value, SparseSpec.Write(Number(key.rest[..8]), rest[..dataLength])))
  }

  // ----- what the server does --------------------------------------------------------------------------------

  datatype Server = Server(values: map<Bytes, Bytes>, sparse: SparseSpec.Entries)

  /** Every sparse entry has a mark per byte. */
  ghost predicate Sound(s: Server) {
    forall key :: key in s.sparse ==> |s.sparse[key].data| == |s.sparse[key].written|
  }

  /** The server answers, stays silent, or has read or written out of bounds. */
  datatype Reply = Answer(kind: u16, payload: Bytes) | Silent | Broken

  /** How many bytes of a value of some size a get asks for; no length means to the end. */
  ghost function PartSize(size: nat, offset: nat, length: nat): nat {
    if offset >= size then 0 else if length == 0 || offset + length > size then size - offset else length
  }

  /** The bytes of a value from the offset on, as many as are asked for and there. */
  ghost predicate IsPart(data: Bytes, value: Bytes, offset: nat, length: nat) {
    && |data| == PartSize(|value|, offset, length)
    && forall i :: 0 <= i < |data| ==> offset + i < |value| && data[i] == value[offset + i]
  }

  /** The part of a value a get asks for. */
  function RangeOf(value: Bytes, offset: nat, length: nat): (r: Bytes) {
    if offset >= |value| then []
    else
      var available := |value| - offset;
      value[offset..offset + if 0 < length < available then length else available]
  }

  lemma RangeIsPart(value: Bytes, offset: nat, length: nat)
    ensures IsPart(RangeOf(value, offset, length), value, offset, length)
  {
  }

  function GetAnswer(found: bool, data: Bytes): Bytes {
    PutString(PutFlag(PutInt([], if found then 0 else 1, 4), false), data)
  }

  function CodeAnswer(code: nat): Bytes { PutInt([], code, 4) }

  function ServeGet(s: Server, args: Parse<GetArgs>): (r: Reply) {
    match args
    case Ignored => Silent
    case Overread => Broken
    case Parsed(a) =>
      if a.key !in s.values then Answer(0x0101, GetAnswer(false, []))
      else
        var value := s.values[a.key];
        Answer(0x0101, GetAnswer(true, if a.hasRange then RangeOf(value, a.offset, a.length) else value))
  }

  function ServePut(s: Server, args: Parse<(Bytes, Bytes)>): (r: (Server, Reply)) {
    match args
    case Ignored => (s, Silent)
    case Overread => (s, Broken)
    case Parsed(a) => (s.(values := s.values[a.0 := a.1]), Answer(0x0103, CodeAnswer(0)))
  }

  function ServeDelete(s: Server, args: Parse<Bytes>): (r: (Server, Reply)) {
    match args
    case Ignored => (s, Silent)
    case Overread => (s, Broken)
    case Parsed(key) => (s.(values := s.values - {key}), Answer(0x0105, CodeAnswer(0)))
  }

  function ServeCreate(s: Server, args: Parse<(Bytes, nat)>): (r: (Server, Reply)) {
    match args
    case Ignored => (s, Silent)
    case Overread => (s, Broken)
    case Parsed(a) =>
      var c := SparseSpec.Create(s.sparse, a.0, a.1);
      (s.(sparse := c.0), Answer(0x0109, CodeAnswer(if c.1 then 0 else 1)))
  }

  function ServeWriteRange(s: Server, args: Parse<(Bytes, SparseSpec.Write)>): (r: (Server, Reply))
    requires Sound(s)
  {
    match args
    case Ignored => (s, Silent)
    case Overread => (s, Broken)
    case Parsed(a) =>
      var w := SparseSpec.WriteRange(s.sparse, a.0, a.1);
      if w.1 == SparseSpec.OutOfBounds then (s, Broken)
      else
        (s.(sparse := w.0),
         Answer(0x010B, CodeAnswer(if w.1 == SparseSpec.Accepted then 0 else if a.0 !in s.sparse then 1 else 2)))
  }

  function ServeFinalize(s: Server, args: Parse<Bytes>): (r: (Server, Reply)) {
    match args
    case Ignored => (s, Silent)
    case Overread => (s, Broken)
    case Parsed(key) =>
      var f := SparseSpec.Finalize(s.sparse, key);
      (Server(if f.1 == 0 then s.values[key := f.2] else s.values, f.0), Answer(0x010D, CodeAnswer(f.1)))
  }

  /** A request as its handler reads it. */
  datatype Call =
    | GetCall(get: Parse<GetArgs>)
    | PutCall(put: Parse<(Bytes, Bytes)>)
    | DeleteCall(key: Parse<Bytes>)
    | CreateCall(create: Parse<(Bytes, nat)>)
    | WriteRangeCall(write: Parse<(Bytes, SparseSpec.Write)>)
    | FinalizeCall(key: Parse<Bytes>)
    | UnknownCall

  function ReadCall(kind: u16, p: Bytes): (c: Call) {
    match kind
    case 0x0100 => GetCall(ParseGet(p))
    case 0x0102 => PutCall(ParsePut(p))
    case 0x0104 => DeleteCall(ParseDelete(p))
    case 0x0108 => CreateCall(ParseCreate(p))
    case 0x010A => WriteRangeCall(ParseWriteRange(p))
    case 0x010C => FinalizeCall(ParseDelete(p))
    case _ => UnknownCall
  }

  function Dispatch(s: Server, c: Call): (r: (Server, Reply))
    requires Sound(s)
  {
    match c
    case GetCall(args) => (s, ServeGet(s, args))
    case PutCall(args) => ServePut(s, args)
    case DeleteCall(args) => ServeDelete(s, args)
    case CreateCall(args) => ServeCreate(s, args)
    case WriteRangeCall(args) => ServeWriteRange(s, args)
    case FinalizeCall(args) => ServeFinalize(s, args)
    case UnknownCall => (s, Silent)
  }

  function Handle(s: Server, kind: u16, p: Bytes): (r: (Server, Reply))
    requires Sound(s)
  {
    Dispatch(s, ReadCall(kind, p))
  }

  // ----- what the client reads -------------------------------------------------------------------------------

  const OK := 0
  const INVALID_ARG := -1
  const NOT_FOUND := -2
  const PARTIAL := -3
  const CONNECTION := -5
  const PROTOCOL := -6
  const BUFFER_TOO_SMALL := -7
  const KEY_TOO_LARGE := -8
  const VALUE_TOO_LARGE := -9
  const INTERNAL := -11

  /** What a call returns: an error code, and for a get the value or the size it would have needed. */
  datatype Result = Result(code: int, value: Bytes, needed: nat)

  function Code(code: int): Result { Result(code, [], 0) }

  /** A number read without a bounds check. */
  function ReadInt(d: Bytes, n: nat): (r: Outcome<Got<nat>>)
    ensures !r.Thrown?
  {
    if |d| < n then OutOfBounds else TakeInt(d, n)
  }

  /** The result of a get, from a response payload, for a caller's buffer of a given size. */
  function ReadGet(p: Bytes, bufferSize: nat): (r: Outcome<Result>)
    ensures !r.Thrown?
  {
    var code :- ReadInt(p, 4);
    var hasMeta :- TakeFlag(code.rest);
    if hasMeta.value && |hasMeta.rest| < 20 then OutOfBounds
    else
      var rest := if hasMeta.value then hasMeta.rest[20..] else hasMeta.rest;
      var length :- ReadInt(rest, 4);
      if code.value == 1 then Ok(Code(NOT_FOUND))
      else if length.value > bufferSize then Ok(Result(BUFFER_TOO_SMALL, [], length.value))
      else if |length.rest| < length.value then OutOfBounds
      else Ok(Result(if code.value == 2 then PARTIAL else OK, length.rest[..length.value], length.value))
  }

  /** The result of any other call, from the code in its response. */
  function ReadCode(r: Request, code: nat): Result {
    if code == 0 || r.Delete? then Code(OK)
    else if r.WriteRange? && code == 1 then Code(NOT_FOUND)
    else if r.WriteRange? && code == 2 then Code(INVALID_ARG)
    else if r.Finalize? && code == 1 then Code(NOT_FOUND)
    else if r.Finalize? && code == 2 then Code(PARTIAL)
    else Code(INTERNAL)
  }

  // ----- a call through the wire -----------------------------------------------------------------------------

  /** The sizes of the client's buffers, and of the buffer the caller gives a get. */
  datatype Client = Client(sendSize: nat, recvSize: nat, bufferSize: nat)

  function Packed(kind: u16, payload: Bytes, requestId: u32, time: u64): Bytes {
    PutHeader([], Header(MAGIC, VERSION, kind, Cut32(|payload|), requestId, time)) + payload
  }

  /** The client refuses a request, overruns its send buffer, or has a message to send. */
  datatype Built = Refused(code: int) | Overrun | Ready(message: Bytes)

  function Build(c: Client, r: Request, requestId: u32, time: u64): (b: Built) {
    if |r.key| > MAX_KEY && !r.Delete? && !r.Finalize? then Refused(KEY_TOO_LARGE)
    else if r.Put? && HEADER_SIZE + 4 + |r.key| + 4 + |r.value| + 13 > c.sendSize then Refused(VALUE_TOO_LARGE)
    else if r.WriteRange? && HEADER_SIZE + 4 + |r.key| + 12 + |r.data| > c.sendSize then Refused(VALUE_TOO_LARGE)
    else if HEADER_SIZE + |PutRequest([], r)| > c.sendSize then Overrun
    else Ready(Packed(KindOf(r), PutRequest([], r), requestId, time))
  }

  /** The server sends a response, sends nothing, closes the connection, or fails. */
  datatype Served = Sends(response: Bytes) | Quiet | Hangup | Fault

  datatype Incoming = Incoming(call: Call, requestId: u32)

  /** A message as the server reads it; a short one or a wrong magic number is not one. */
  function ReadMessage(message: Bytes): (i: Option<Incoming>) {
    match TakeHeader(message)
    case Ok(h) =>
      if h.value.magic != MAGIC || |h.rest| < h.value.length then None
      else Some(Incoming(ReadCall(h.value.kind, h.rest[..h.value.length]), h.value.requestId))
    case _ => None
  }

  function Respond(reply: Reply, requestId: u32, time: u64): (r: Served) {
    match reply
    case Answer(kind, payload) => Sends(Packed(kind, payload, requestId, time))
    case Silent => Quiet
    case Broken => Fault
  }

  function Serve(s: Server, message: Bytes, time: u64): (r: (Server, Served))
    requires Sound(s)
  {
    match ReadMessage(message)
    case None => (s, Hangup)
    case Some(i) =>
      var handled := Dispatch(s, i.call);
      (handled.0, Respond(handled.1, i.requestId, time))
  }

  /**
   The result of a call, from the header of the response and what follows it. A get checks the header before it receives
   the payload; the other calls receive as many bytes as it announces, whatever the size of the buffer.
   */
  function ReadBody(c: Client, r: Request, h: Header, rest: Bytes): (o: Outcome<Result>)
    ensures !o.Thrown?
  {
    if r.Get? && (h.magic != MAGIC || h.kind != 0x0101) then Ok(Code(PROTOCOL))
    else if r.Get? && HEADER_SIZE + h.length > c.recvSize then Ok(Code(BUFFER_TOO_SMALL))
    else if HEADER_SIZE + Min(h.length, |rest|) > c.recvSize then OutOfBounds
    else if |rest| < h.length then Ok(Code(CONNECTION))
    else ReadPayload(r, rest[..h.length], c.bufferSize)
  }

  function ReadPayload(r: Request, p: Bytes, bufferSize: nat): (o: Outcome<Result>)
    ensures !o.Thrown?
  {
    if r.Get? then ReadGet(p, bufferSize)
    else if r.Delete? then Ok(Code(OK))
    else if |p| < 4 then OutOfBounds
    else Ok(ReadCode(r, Number(p[..4])))
  }

  /**
   The result of a call, from what comes in on its connection; too little, and the wait for more times out. The header
   is received whatever the size of the buffer.
   */
  function ReadResponse(c: Client, r: Request, incoming: Bytes): (o: Outcome<Result>)
    ensures !o.Thrown?
  {
    if Min(HEADER_SIZE, |incoming|) > c.recvSize then OutOfBounds
    else
      match TakeHeader(incoming)
      case Ok(h) => ReadBody(c, r, h.value, h.rest)
      case _ => Ok(Code(CONNECTION))
  }

  /** What a call leaves on its connection: a payload that is refused for its header is not read. */
  function Unread(c: Client, r: Request, incoming: Bytes): (left: Bytes) {
    if Min(HEADER_SIZE, |incoming|) > c.recvSize then incoming
    else
      match TakeHeader(incoming)
      case Ok(h) => UnreadBody(c, r, h.value, h.rest)
      case _ => []
  }

  function UnreadBody(c: Client, r: Request, h: Header, rest: Bytes): (left: Bytes) {
    if r.Get? && (h.magic != MAGIC || h.kind != 0x0101 || HEADER_SIZE + h.length > c.recvSize) then rest
    else if HEADER_SIZE + Min(h.length, |rest|) > c.recvSize then rest
    else if |rest| < h.length then []
    else rest[h.length..]
  }

  /** After a call: the server, what the call returns, and what it leaves unread on its connection. */
  datatype Step = Step(server: Server, outcome: Outcome<Result>, unread: Bytes)

  /** The client reads what was left on the connection before, and then what the server sends. */
  function Hear(c: Client, s: Server, unread: Bytes, r: Request, served: Served): (e: Step) {
    if served.Fault? then Step(s, OutOfBounds, unread)
    else
      var incoming := unread + if served.Sends? then served.response else [];
      Step(s, ReadResponse(c, r, incoming), Unread(c, r, incoming))
  }

  /** The rest of a call, when its request is built: serve and read. */
  function Proceed(c: Client, s: Server, unread: Bytes, r: Request, built: Built, answered: u64): (e: Step)
    requires Sound(s)
  {
    match built
    case Refused(code) => Step(s, Ok(Code(code)), unread)
    case Overrun => Step(s, OutOfBounds, unread)
    case Ready(message) =>
      var served := Serve(s, message, answered);
      Hear(c, served.0, unread, r, served.1)
  }

  /** A whole call: build, serve, read. */
  function Exchange(c: Client, s: Server, unread: Bytes, r: Request, requestId: u32, sent: u64, answered: u64)
      : (e: Step)
    requires Sound(s)
  {
    Proceed(c, s, unread, r, Build(c, r, requestId, sent), answered)
  }

  function NextId(id: u32): u32 { if id == TWO_32 - 1 then 0 else id + 1 }

  /**
   The second try of a get that allocates: on the answer that the receive buffer is too small, once more, into a buffer
   of the size reported. If none was, the size is whatever the variable held.
   */
  function TryAgain(sendSize: nat, recvSize: nat, first: Step, r: Request, requestId: u32, sent: u64, answered: u64,
                    garbage: nat) : (e: Step)
    requires Sound(first.server)
  {
    if first.outcome.Ok? && first.outcome.value.code == BUFFER_TOO_SMALL then
      var size := if first.outcome.value.needed > 0 then first.outcome.value.needed else garbage;
      Exchange(Client(sendSize, recvSize, size), first.server, first.unread, r, NextId(requestId), sent, answered)
    else first
  }

  /** A get into memory allocated by the library: first into the receive buffer. */
  function GetAlloc(sendSize: nat, recvSize: nat, s: Server, unread: Bytes, r: Request, requestId: u32, sent: u64,
                    answered: u64, garbage: nat) : (e: Step)
    requires Sound(s) && r.Get?
  {
    var first := Exchange(Client(sendSize, recvSize, recvSize), s, unread, r, requestId, sent, answered);
    GetKeepsServer(Client(sendSize, recvSize, recvSize), s, unread, r, requestId, sent, answered);
    TryAgain(sendSize, recvSize, first, r, requestId, sent, answered, garbage)
  }

  lemma GetKeepsServer(c: Client, s: Server, unread: Bytes, r: Request, requestId: u32, sent: u64, answered: u64)
    requires Sound(s) && r.Get?
    ensures Sound(Exchange(c, s, unread, r, requestId, sent, answered).server)
  {
    var b := Build(c, r, requestId, sent);
    if b.Ready? { ServeKeepsSound(s, b.message, answered); }
  }

  /** The answer that a buffer is too small comes from a response, so the request was sent. */
  lemma TooSmallWasSent(c: Client, s: Server, unread: Bytes, r: Request, requestId: u32, sent: u64, answered: u64)
    requires Sound(s)
    requires var o := Exchange(c, s, unread, r, requestId, sent, answered).outcome;
             o.Ok? && o.value.code == BUFFER_TOO_SMALL
    ensures Build(c, r, requestId, sent).Ready?
  {
  }

  lemma GetAllocIs(sendSize: nat, recvSize: nat, s: Server, unread: Bytes, r: Request, requestId: u32, sent: u64,
                   answered: u64, garbage: nat, first: Step)
    requires Sound(s) && r.Get? && Sound(first.server)
    requires first == Exchange(Client(sendSize, recvSize, recvSize), s, unread, r, requestId, sent, answered)
    ensures GetAlloc(sendSize, recvSize, s, unread, r, requestId, sent, answered, garbage)
         == TryAgain(sendSize, recvSize, first, r, requestId, sent, answered, garbage)
  {
  }

  /** Whatever arrives, the server's entries keep a mark per byte. */
  lemma ServeKeepsSound(s: Server, message: Bytes, time: u64)
    requires Sound(s)
    ensures Sound(Serve(s, message, time).0)
  {
    var i := ReadMessage(message);
    if i.Some? { DispatchKeepsSound(s, i.value.call); }
  }

  lemma DispatchKeepsSound(s: Server, call: Call)
    requires Sound(s)
    ensures Sound(Dispatch(s, call).0)
  {
  }
}
