/**
 What becomes of an answer that the client has no room for. A get whose response exceeds the receive buffer leaves the
 answer on the connection (`OversizedGet`). The next call takes it for its own response: a get fails for its magic
 number (`StaleGet`), any other call takes bytes of it for the length and the code of its response (`StaleCall`). So the
 get that allocates never returns a value that does not fit (`GetAllocIff`).
 */
module SdkLeftovers {
  import opened Bytes
  import opened Wire
  import opened CodecSpec
  import opened Framing
  import opened CodecBounds
  import opened SdkSpec
  import opened SdkTheorems

  // ----- small receive buffers -------------------------------------------------------------------------------

  lemma ResponseSize(s: Server, r: Request, requestId: u32, time: u64)
    ensures |ResponseTo(s, r, requestId, time)| == HEADER_SIZE + |AnswerOf(s, r)|
  {
    HeaderFront(Header(MAGIC, VERSION, KindOf(r) + 1, Cut32(|AnswerOf(s, r)|), requestId, time), AnswerOf(s, r));
  }

  /** A receive buffer smaller than a header is overrun by every answered call, whatever is on the connection. */
  lemma TinyBufferOverruns(c: Client, s: Server, unread: Bytes, r: Request, requestId: u32, sent: u64, answered: u64)
    requires Sound(s) && Sendable(c, r) && Checked(s, r) && c.recvSize < HEADER_SIZE
    ensures var e := Exchange(c, s, unread, r, requestId, sent, answered);
      e.server == Direct(s, r).0 && e.outcome == OutOfBounds
  {
    ExchangeReads(c, s, unread, r, requestId, sent, answered);
    ResponseSize(s, r, requestId, answered);
  }

  // ----- answers larger than the caller's buffer -------------------------------------------------------------

  lemma GetReadTooSmall(data: Bytes, bufferSize: nat)
    requires bufferSize < |data| < TWO_32
    ensures ReadGet(GetAnswer(true, data), bufferSize) == Ok(Result(BUFFER_TOO_SMALL, [], |data|))
  {
    Powers();
    var text := WriteString(data, []);
    GetAnswerIs(true, data);
    IntTaken(0, 4, WriteFlag(false, text));
    FlagTaken(false, text);
    IntTaken(|data|, 4, data + []);
    TooSmallSteps(GetAnswer(true, data), WriteFlag(false, text), text, data + [], |data|, bufferSize);
  }

  lemma TooSmallSteps(p: Bytes, d1: Bytes, d2: Bytes, d3: Bytes, length: nat, bufferSize: nat)
    requires TakeInt(p, 4) == Ok(Got(0, d1)) && TakeFlag(d1) == Ok(Got(false, d2))
    requires TakeInt(d2, 4) == Ok(Got(length, d3)) && length > bufferSize
    ensures ReadGet(p, bufferSize) == Ok(Result(BUFFER_TOO_SMALL, [], length))
  {
  }

  lemma TooSmallBody(c: Client, r: Request, h: Header, p: Bytes, size: nat)
    requires r.Get? && h.magic == MAGIC && h.kind == 0x0101 && h.length == |p|
    requires ReadGet(p, c.bufferSize) == Ok(Result(BUFFER_TOO_SMALL, [], size))
    ensures ReadBody(c, r, h, p) ==
      Ok(Result(BUFFER_TOO_SMALL, [], if HEADER_SIZE + |p| <= c.recvSize then size else 0))
  {
    assert p[..|p|] == p;
  }

  lemma AnswerOfGet(s: Server, r: Request)
    requires r.Get?
    ensures AnswerOf(s, r) == GetAnswer(r.key in s.values, PartOf(s, r)) && |AnswerOf(s, r)| == 9 + |PartOf(s, r)|
  {
    GetAnswerSize(r.key in s.values, PartOf(s, r));
  }

  /** What a get makes of the response, by its header and payload. */
  lemma GetHeard(c: Client, s: Server, r: Request, requestId: u32, sent: u64, answered: u64)
    requires Sound(s) && Sendable(c, r) && r.Get? && 9 + |PartOf(s, r)| < TWO_32 && c.recvSize >= HEADER_SIZE
    ensures var payload := AnswerOf(s, r);
      && |payload| < TWO_32
      && Exchange(c, s, [], r, requestId, sent, answered)
         == Step(s, ReadBody(c, r, Header(MAGIC, VERSION, 0x0101, |payload|, requestId, answered), payload),
                 if HEADER_SIZE + |payload| > c.recvSize then payload else [])
  {
    ExchangeReads(c, s, [], r, requestId, sent, answered);
    var payload, response := AnswerOf(s, r), ResponseTo(s, r, requestId, answered);
    assert [] + response == response;
    AnswerOfGet(s, r);
    Unpacked(0x0101, payload, requestId, answered);
    HeardBody(c, r, response, Header(MAGIC, VERSION, 0x0101, |payload|, requestId, answered), payload);
  }

  lemma HeardBody(c: Client, r: Request, response: Bytes, h: Header, p: Bytes)
    requires TakeHeader(response) == Ok(Got(h, p)) && c.recvSize >= HEADER_SIZE
    requires r.Get? && h.length == |p| && h.magic == MAGIC && h.kind == 0x0101
    ensures ReadResponse(c, r, response) == ReadBody(c, r, h, p)
    ensures Unread(c, r, response) == if HEADER_SIZE + |p| > c.recvSize then p else []
  {
    assert UnreadBody(c, r, h, p) == if HEADER_SIZE + |p| > c.recvSize then p else [];
  }

  /**
   A get whose answer is larger than the caller's buffer reports that the buffer is too small, and the size needed if
   and only if the whole response fits the client's receive buffer; otherwise the size is left out, and the answer
   stays on the connection. A receive buffer smaller than a header is overrun.
   */
  lemma TooSmallTells(c: Client, s: Server, r: Request, requestId: u32, sent: u64, answered: u64)
    requires Sound(s) && Sendable(c, r) && r.Get? && r.key in s.values
    requires c.bufferSize < |PartOf(s, r)| && 9 + |PartOf(s, r)| < TWO_32
    ensures var e, part := Exchange(c, s, [], r, requestId, sent, answered), PartOf(s, r);
      if c.recvSize < HEADER_SIZE then e.server == s && e.outcome == OutOfBounds
      else if HEADER_SIZE + 9 + |part| <= c.recvSize then e == Step(s, Ok(Result(BUFFER_TOO_SMALL, [], |part|)), [])
      else e == Step(s, Ok(Code(BUFFER_TOO_SMALL)), GetAnswer(true, part))
  {
    if c.recvSize < HEADER_SIZE {
      TinyBufferOverruns(c, s, [], r, requestId, sent, answered);
    } else {
      var payload := AnswerOf(s, r);
      GetHeard(c, s, r, requestId, sent, answered);
      GetReadTooSmall(PartOf(s, r), c.bufferSize);
      AnswerOfGet(s, r);
      TooSmallBody(c, r, Header(MAGIC, VERSION, 0x0101, |payload|, requestId, answered), payload, |PartOf(s, r)|);
    }
  }

  // ----- answers larger than the receive buffer --------------------------------------------------------------

  /**
   A get whose response does not fit the receive buffer fails, and leaves the answer on the connection; a receive
   buffer smaller than a header is overrun.
   */
  lemma OversizedGet(c: Client, s: Server, r: Request, requestId: u32, sent: u64, answered: u64)
    requires Sound(s) && Sendable(c, r) && r.Get?
    requires c.recvSize < HEADER_SIZE + 9 + |PartOf(s, r)| && 9 + |PartOf(s, r)| < TWO_32
    ensures var e := Exchange(c, s, [], r, requestId, sent, answered);
      if c.recvSize < HEADER_SIZE then e.server == s && e.outcome == OutOfBounds
      else e == Step(s, Ok(Code(BUFFER_TOO_SMALL)), GetAnswer(r.key in s.values, PartOf(s, r)))
  {
    if c.recvSize < HEADER_SIZE {
      TinyBufferOverruns(c, s, [], r, requestId, sent, answered);
    } else {
      GetHeard(c, s, r, requestId, sent, answered);
      AnswerOfGet(s, r);
    }
  }

  lemma StaleMagic(found: bool, part: Bytes, response: Bytes)
    requires |response| >= HEADER_SIZE
    ensures var h := TakeHeader(GetAnswer(found, part) + response); h.Ok? && h.value.value.magic <= 1
  {
    Powers();
    var code := if found then 0 else 1;
    var tail := WriteFlag(false, WriteString(part, [])) + response;
    GetAnswerIs(found, part);
    Appended(LittleEndian(code, 4), WriteFlag(false, WriteString(part, [])), response);
    IntTaken(code, 4, tail);
    StaleSteps(GetAnswer(found, part) + response, code, tail);
  }

  lemma StaleSteps(incoming: Bytes, code: nat, tail: Bytes)
    requires TakeInt(incoming, 4) == Ok(Got(code, tail)) && code <= 1 && |incoming| >= HEADER_SIZE
    ensures var h := TakeHeader(incoming); h.Ok? && h.value.value.magic <= 1
  {
  }

  /** The next get takes the old answer for its own, and fails for its magic number. */
  lemma StaleGet(c: Client, s: Server, found: bool, part: Bytes, r: Request, requestId: u32, sent: u64, answered: u64)
    requires Sound(s) && Sendable(c, r) && r.Get?
    ensures var e := Exchange(c, s, GetAnswer(found, part), r, requestId, sent, answered);
      && e.server == s
      && e.outcome == if c.recvSize < HEADER_SIZE then OutOfBounds else Ok(Code(PROTOCOL))
  {
    if c.recvSize < HEADER_SIZE {
      TinyBufferOverruns(c, s, GetAnswer(found, part), r, requestId, sent, answered);
    } else {
      ExchangeReads(c, s, GetAnswer(found, part), r, requestId, sent, answered);
      ResponseSize(s, r, requestId, answered);
      StaleMagic(found, part, ResponseTo(s, r, requestId, answered));
    }
  }

  // ----- other calls after such an answer --------------------------------------------------------------------

  /** Anything but a get goes by the length in the header alone. */
  lemma CallReads(c: Client, r: Request, incoming: Bytes)
    requires !r.Get? && HEADER_SIZE <= c.recvSize && HEADER_SIZE <= |incoming|
    ensures var length, rest := At(incoming, 8, 12), incoming[HEADER_SIZE..];
      ReadResponse(c, r, incoming) ==
        if HEADER_SIZE + Min(length, |rest|) > c.recvSize then OutOfBounds
        else if |rest| < length then Ok(Code(CONNECTION))
        else if r.Delete? then Ok(Code(OK))
        else if length < 4 then OutOfBounds
        else Ok(ReadCode(r, At(incoming, 24, 28)))
  {
    HeaderFields(incoming);
    var length, rest := At(incoming, 8, 12), incoming[HEADER_SIZE..];
    if 4 <= length <= |rest| { assert rest[..length][..4] == incoming[24..28]; }
  }

  /**
   A call other than a get, after an answer that did not fit: the server does what the call means, and the client takes
   bytes 8 to 11 of the old answer for the length of its response and the four from byte 24 on for the code. If that
   length exceeds its receive buffer it is overrun; a delete reports success whatever the code.
   */
  lemma StaleCall(c: Client, s: Server, found: bool, part: Bytes, r: Request, requestId: u32, sent: u64, answered: u64)
    requires Sound(s) && Sendable(c, r) && Checked(s, r) && !r.Get?
    requires HEADER_SIZE <= c.recvSize < HEADER_SIZE + 9 + |part|
    ensures var incoming := GetAnswer(found, part) + ResponseTo(s, r, requestId, answered);
      var e := Exchange(c, s, GetAnswer(found, part), r, requestId, sent, answered);
      && |incoming| >= 28 && e.server == Direct(s, r).0
      && var length := At(incoming, 8, 12);
         e.outcome ==
           if HEADER_SIZE + length > c.recvSize then OutOfBounds
           else if r.Delete? then Ok(Code(OK))
           else if length < 4 then OutOfBounds
           else Ok(ReadCode(r, At(incoming, 24, 28)))
  {
    ExchangeReads(c, s, GetAnswer(found, part), r, requestId, sent, answered);
    CodeRead(CodeOf(s, r));
    ResponseSize(s, r, requestId, answered);
    GetAnswerSize(found, part);
    CallReads(c, r, GetAnswer(found, part) + ResponseTo(s, r, requestId, answered));
  }

  /** Byte 8 of an answer is the highest of its length. */
  lemma HighByte(n: nat)
    requires n < TWO_32
    ensures LittleEndian(n, 4)[3] as int == n / 0x100_0000
  {
    assert LittleEndian(n, 4)[1..] == LittleEndian(n / 256, 3);
    assert LittleEndian(n / 256, 3)[1..] == LittleEndian(n / 256 / 256, 2);
    assert LittleEndian(n / 256 / 256, 2)[1..] == LittleEndian(n / 256 / 256 / 256, 1);
  }

  /** An answer is its code, a flag, and the data with its length. */
  lemma AnswerLaidOut(code: nat, width: nat, part: Bytes)
    ensures PutString(PutFlag(PutInt([], code, width), false), part)
         == LittleEndian(code, width) + [0] + LittleEndian(Cut32(|part|), 4) + part
  {
    assert PutInt([], code, width) == LittleEndian(code, width);
  }

  lemma FieldsAt(code: Bytes, length: Bytes, part: Bytes, response: Bytes, incoming: Bytes)
    requires |code| == |length| == 4 && |part| >= 19 && incoming == code + [0] + length + part + response
    ensures At(incoming, 8, 12) == length[3] as int + 256 * At(part, 0, 3)
    ensures At(incoming, 24, 28) == At(part, 15, 19)
  {
    assert incoming[8..12] == [length[3]] + part[0..3];
    assert incoming[8..12][1..] == part[0..3];
    assert incoming[24..28] == part[15..19];
  }

  /** Which bytes those are: the highest of the old answer's length, then bytes of the value itself. */
  lemma StaleFields(part: Bytes, response: Bytes)
    requires 19 <= |part| < TWO_32
    ensures |GetAnswer(true, part)| == 9 + |part|
    ensures var incoming := GetAnswer(true, part) + response;
      && At(incoming, 8, 12) == |part| / 0x100_0000 + 256 * At(part, 0, 3)
      && At(incoming, 24, 28) == At(part, 15, 19)
  {
    var answer, length := GetAnswer(true, part), LittleEndian(|part|, 4);
    AnswerLaidOut(0, 4, part);
    HighByte(|part|);
    FieldsAt(LittleEndian(0, 4), length, part, response, answer + response);
  }

  /**
   With the default buffers: a value of 256 KiB whose first bytes are 255 does not fit, and the put after a get of it
   overruns the receive buffer.
   */
  lemma PutAfterOversizedGet(s: Server, value: Bytes, requestId: u32, sent: u64, answered: u64)
    requires Sound(s) && [0] in s.values && s.values[[0]] == value && |value| == DEFAULT_BUFFER
    requires value[0] == value[1] == value[2] == 255
    ensures var c := Client(DEFAULT_BUFFER, DEFAULT_BUFFER, DEFAULT_BUFFER);
      var get := Exchange(c, s, [], Request.Get([0], 0, 0), requestId, sent, answered);
      && get.outcome == Ok(Code(BUFFER_TOO_SMALL)) && get.server == s
      && Exchange(c, s, get.unread, Request.Put([0], [0], 0, 0), NextId(requestId), sent, answered).outcome
        == OutOfBounds
  {
    var c := Client(DEFAULT_BUFFER, DEFAULT_BUFFER, DEFAULT_BUFFER);
    var get, put := Request.Get([0], 0, 0), Request.Put([0], [0], 0, 0);
    RequestSize(get);
    RequestSize(put);
    WholeRange(value);
    OversizedGet(c, s, get, requestId, sent, answered);
    StaleCall(c, s, true, value, put, NextId(requestId), sent, answered);
    StaleFields(value, ResponseTo(s, put, NextId(requestId), answered));
    ThreeHigh(value[0..3]);
  }

  lemma ThreeHigh(d: Bytes)
    requires |d| == 3 && d[0] == d[1] == d[2] == 255
    ensures Number(d) == 0xFF_FFFF
  {
    assert d[1..][1..] == [d[2]] && d[1..][1..][1..] == [];
    assert Number(d[1..][1..]) == 255;
    assert Number(d[1..]) == 255 + 256 * 255;
  }

  // ----- the get that allocates ------------------------------------------------------------------------------

  /**
   A get that allocates answers as a get should, whatever the size of the value, as long as the response fits the
   client's receive buffer. When it does not, the second try finds the answer to the first one on the connection and
   fails: a larger value is never returned.
   */
  lemma GetAllocIff(sendSize: nat, recvSize: nat, s: Server, r: Request, requestId: u32, sent: u64, answered: u64,
                    garbage: nat)
    requires Sound(s) && r.Get? && Sendable(Client(sendSize, recvSize, recvSize), r)
    requires recvSize < TWO_32 && 9 + |PartOf(s, r)| < TWO_32
    ensures GetAlloc(sendSize, recvSize, s, [], r, requestId, sent, answered, garbage).outcome
         == if recvSize < HEADER_SIZE then OutOfBounds
            else if HEADER_SIZE + 9 + |PartOf(s, r)| <= recvSize then Ok(Direct(s, r).1)
            else Ok(Code(PROTOCOL))
  {
    var c := Client(sendSize, recvSize, recvSize);
    if recvSize < HEADER_SIZE {
      TinyBufferOverruns(c, s, [], r, requestId, sent, answered);
    } else if HEADER_SIZE + 9 + |PartOf(s, r)| <= recvSize {
      ExchangeIsDirect(c, s, r, requestId, sent, answered);
    } else {
      OversizedGet(c, s, r, requestId, sent, answered);
      var found := r.key in s.values;
      var first := Step(s, Ok(Code(BUFFER_TOO_SMALL)), GetAnswer(found, PartOf(s, r)));
      GetAllocIs(sendSize, recvSize, s, [], r, requestId, sent, answered, garbage, first);
      StaleGet(Client(sendSize, recvSize, garbage), s, found, PartOf(s, r), r, NextId(requestId), sent, answered);
    }
  }
}
