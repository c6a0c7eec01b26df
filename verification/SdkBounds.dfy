/**
 Where the socket server and the client library leave their buffers. A handler adds the length of the key to that of
 the fixed fields in 32 bits, so an announced length near 2^32 passes its check (`OverreadIff`). The client checks its
 send buffer for puts and range writes only (`OverrunIff`), and its receive buffer for the payload of a get only
 (`ReadUncheckedIff`).
 */
module SdkBounds {
  import opened Bytes
  import opened Wire
  import opened CodecSpec
  import opened CodecBounds
  import opened SdkSpec
  import opened SdkTheorems
  import opened SdkLeftovers
  import SparseSpec

  // ----- the server's length checks --------------------------------------------------------------------------

  /** The length of the key, as the payload announces it. */
  function Announced(p: Bytes): (n: nat)
    requires |p| >= 4
    ensures n < TWO_32
  {
    Powers();
    LittleEndianOfNumber(p[..4]);
    Number(p[..4])
  }

  lemma SumWraps(n: nat)
    requires n < 2 * TWO_32
    ensures n % TWO_32 == if n < TWO_32 then n else n - TWO_32
  {
  }

  /**
   A key and `k` more bytes are read past the payload exactly when their announced length wraps at 32 bits to within
   the payload.
   */
  lemma KeyOverreadIff(p: Bytes, k: nat)
    requires k < TWO_32 - 4
    ensures ParseKey(p, k).Overread?
       <==> |p| >= 4 && TWO_32 <= 4 + Announced(p) + k <= TWO_32 + |p| && |p| < 4 + Announced(p) + k
  {
    if |p| >= 4 { SumWraps(4 + Announced(p) + k); }
  }

  /** How many bytes of fixed fields the handler of a kind checks for, besides the key and its length. */
  function Fixed(kind: nat): nat {
    match kind
    case 0x0100 => 2
    case 0x0102 => 4
    case 0x0108 => 8
    case 0x010A => 12
    case _ => 0
  }

  predicate Handles(kind: nat) { kind in {0x0100, 0x0102, 0x0104, 0x0108, 0x010A, 0x010C} }

  predicate CallOverreads(call: Call) {
    match call
    case GetCall(args) => args.Overread?
    case PutCall(args) => args.Overread?
    case DeleteCall(args) => args.Overread?
    case CreateCall(args) => args.Overread?
    case WriteRangeCall(args) => args.Overread?
    case FinalizeCall(args) => args.Overread?
    case UnknownCall => false
  }

  /** A request is read past its payload exactly when the announced key length wraps the check of its handler. */
  lemma OverreadIff(kind: u16, p: Bytes)
    ensures CallOverreads(ReadCall(kind, p))
       <==> && Handles(kind) && |p| >= 4 && (kind == 0x0102 ==> |p| >= 8)
            && TWO_32 <= 4 + Announced(p) + Fixed(kind) <= TWO_32 + |p|
            && |p| < 4 + Announced(p) + Fixed(kind)
  {
    KeyOverreadIff(p, Fixed(kind));
  }

  /**
   The server goes wrong on a request exactly when it reads past the payload, or writes past an entry because the end
   of the write wraps at 64 bits.
   */
  lemma BrokenIff(s: Server, kind: u16, p: Bytes)
    requires Sound(s)
    ensures Handle(s, kind, p).1 == Broken
       <==> || CallOverreads(ReadCall(kind, p))
            || (kind == 0x010A && ParseWriteRange(p).Parsed?
                && var (key, w) := ParseWriteRange(p).value;
                   key in s.sparse && SparseSpec.Check(|s.sparse[key].data|, w) == SparseSpec.OutOfBounds)
  {
  }

  /** A delete that announces a key of 2^32 - 1 bytes and sends none of them. */
  lemma LongKeyOverreads(s: Server)
    requires Sound(s)
    ensures Handle(s, 0x0104, [255, 255, 255, 255]).1 == Broken
  {
    var p: Bytes := [255, 255, 255, 255];
    assert Announced(p) == TWO_32 - 1 by {
      assert p[..4] == p && p[1..] == [255, 255, 255] && p[1..][1..] == [255, 255] && p[1..][1..][1..] == [255];
      assert Number([255]) == 255 && Number([255, 255]) == 65535;
    }
    OverreadIff(0x0104, p);
    BrokenIff(s, 0x0104, p);
  }

  // ----- the client's send buffer ----------------------------------------------------------------------------

  /**
   The client writes past its send buffer exactly when the request is of a kind it does not check, passes the limit on
   keys if it has one, and is larger than the buffer.
   */
  lemma OverrunIff(c: Client, r: Request, requestId: u32, time: u64)
    ensures Build(c, r, requestId, time).Overrun?
       <==> match r
            case Get(key, offset, length) =>
              |key| <= MAX_KEY && 30 + |key| + (if HasRange(offset, length) then 16 else 0) > c.sendSize
            case Create(key, _, ttl, _) => |key| <= MAX_KEY && 41 + |key| + (if ttl > 0 then 8 else 0) > c.sendSize
            case Delete(key) => 28 + |key| > c.sendSize
            case Finalize(key) => 28 + |key| > c.sendSize
            case Put(_, _, _, _) => false
            case WriteRange(_, _, _) => false
  {
    RequestSize(r);
  }

  /** With the default buffers: a delete of a key as long as the send buffer. */
  lemma LongDeleteOverruns(requestId: u32, time: u64)
    ensures var c, key := Client(DEFAULT_BUFFER, DEFAULT_BUFFER, 0), seq(DEFAULT_BUFFER, i => 0);
      Build(c, Request.Delete(key), requestId, time) == Overrun
  {
    OverrunIff(Client(DEFAULT_BUFFER, DEFAULT_BUFFER, 0), Request.Delete(seq(DEFAULT_BUFFER, i => 0)), requestId, time);
  }

  /** With the default buffers a get or create never does. */
  lemma DefaultBufferHoldsChecked(c: Client, r: Request, requestId: u32, time: u64)
    requires c.sendSize >= DEFAULT_BUFFER && !r.Delete? && !r.Finalize?
    ensures !Build(c, r, requestId, time).Overrun?
  {
    OverrunIff(c, r, requestId, time);
  }

  // ----- the client's receive buffer -------------------------------------------------------------------------

  /** The fields of a get's answer reach past its end, or its data does and would fit the caller's buffer. */
  predicate GetOverreads(p: Bytes, bufferSize: nat) {
    |p| < 5 ||
    (var head := if p[4] != 0 then 29 else 9;
     |p| < head || (At(p, 0, 4) != 1 && At(p, head - 4, head) <= bufferSize && |p| < head + At(p, head - 4, head)))
  }

  lemma GetUncheckedIff(p: Bytes, bufferSize: nat)
    ensures ReadGet(p, bufferSize).OutOfBounds? <==> GetOverreads(p, bufferSize)
  {
    if |p| >= 5 {
      var head := if p[4] != 0 then 29 else 9;
      assert p[..4] == p[0..4] && p[4..][1..] == p[5..];
      if |p| >= head {
        Rested(p, 5, head - 9, head - 9);
        Rested(p, head - 4, 0, 4);
      }
    }
  }

  /**
   A call leaves its receive buffer, or what it received, exactly when the header does not fit the buffer; for a get,
   when its header is good, the payload fits and has come, and the fields overreach it; for any other call, when what
   comes of the announced payload does not fit the buffer, or it has come and is too short for the code it should hold.
   */
  lemma ReadUncheckedIff(c: Client, r: Request, incoming: Bytes)
    ensures ReadResponse(c, r, incoming) == OutOfBounds <==>
      || Min(HEADER_SIZE, |incoming|) > c.recvSize
      || (|incoming| >= HEADER_SIZE &&
          var length, rest := At(incoming, 8, 12), incoming[HEADER_SIZE..];
          if r.Get? then
            && At(incoming, 0, 4) == MAGIC && At(incoming, 6, 8) == 0x0101
            && HEADER_SIZE + length <= c.recvSize && length <= |rest| && GetOverreads(rest[..length], c.bufferSize)
          else
            || HEADER_SIZE + Min(length, |rest|) > c.recvSize
            || (!r.Delete? && length < 4 && length <= |rest|))
  {
    if HEADER_SIZE <= |incoming| && HEADER_SIZE <= c.recvSize {
      HeaderFields(incoming);
      var length, rest := At(incoming, 8, 12), incoming[HEADER_SIZE..];
      if r.Get? {
        if length <= |rest| { GetUncheckedIff(rest[..length], c.bufferSize); }
      } else {
        CallReads(c, r, incoming);
      }
    }
  }

  /**
   On a connection with nothing left on it, against this server, that happens exactly for a receive buffer smaller than
   a header, or for anything but a get, than a header and a code.
   */
  lemma CleanCallSafeIff(c: Client, s: Server, r: Request, requestId: u32, sent: u64, answered: u64)
    requires Sound(s) && Sendable(c, r) && Checked(s, r) && c.recvSize < TWO_32
    requires r.Get? ==> 9 + |PartOf(s, r)| < TWO_32
    ensures Exchange(c, s, [], r, requestId, sent, answered).outcome == OutOfBounds
       <==> c.recvSize < HEADER_SIZE + if r.Get? then 0 else 4
  {
    if c.recvSize < HEADER_SIZE {
      TinyBufferOverruns(c, s, [], r, requestId, sent, answered);
    } else if r.Get? {
      CleanGetSafe(c, s, r, requestId, sent, answered);
    } else if HEADER_SIZE + 4 <= c.recvSize {
      ExchangeIsDirect(c, s, r, requestId, sent, answered);
    } else {
      ExchangeReads(c, s, [], r, requestId, sent, answered);
      var response := ResponseTo(s, r, requestId, answered);
      assert [] + response == response;
      CodeRead(CodeOf(s, r));
      Unpacked(KindOf(r) + 1, AnswerOf(s, r), requestId, answered);
    }
  }

  lemma CleanGetSafe(c: Client, s: Server, r: Request, requestId: u32, sent: u64, answered: u64)
    requires Sound(s) && Sendable(c, r) && r.Get? && HEADER_SIZE <= c.recvSize < TWO_32 && 9 + |PartOf(s, r)| < TWO_32
    ensures Exchange(c, s, [], r, requestId, sent, answered).outcome.Ok?
  {
    if HEADER_SIZE + 9 + |PartOf(s, r)| > c.recvSize {
      OversizedGet(c, s, r, requestId, sent, answered);
    } else if |PartOf(s, r)| <= c.bufferSize {
      ExchangeIsDirect(c, s, r, requestId, sent, answered);
    } else {
      TooSmallTells(c, s, r, requestId, sent, answered);
    }
  }
}
