/**
 The two ways a peer's bytes escape the decoder's error handling. Flags are read without a bounds check, so a payload
 that ends exactly where one is due is read past its end (`DecodeUncheckedIff`). The header parser throws for a wrong
 magic number before the receiver's handler is entered (`ReceiveThrowsIff`).
 */
module CodecBounds {
  import opened Bytes
  import opened Wire
  import opened CodecSpec
  import opened CodecMessages
  import opened Framing

  // ----- fields by position ----------------------------------------------------------------------------------

  /** The number in the given bytes. */
  function At(d: Bytes, from: nat, to: nat): nat
    requires from <= to <= |d|
  {
    Number(d[from..to])
  }

  lemma Rested(d: Bytes, a: nat, from: nat, to: nat)
    requires from <= to && a + to <= |d|
    ensures d[a..][from..to] == d[a + from..a + to] && d[a..][to..] == d[a + to..]
  {
  }

  /** The fields of a header, by position. */
  lemma HeaderFields(d: Bytes)
    requires |d| >= HEADER_SIZE
    ensures var r := TakeHeader(d);
      && r.Ok? && r.value.value.magic == At(d, 0, 4) && r.value.value.kind == At(d, 6, 8)
      && r.value.value.length == At(d, 8, 12)
  {
    Rested(d, 4, 0, 2);
    Rested(d, 6, 0, 2);
    Rested(d, 8, 0, 4);
    Powers();
    assert TakeInt(d, 4) == Ok(Got(At(d, 0, 4), d[4..]));
    assert TakeInt(d[4..], 2) == Ok(Got(At(d, 4, 6), d[6..]));
    assert TakeInt(d[6..], 2) == Ok(Got(At(d, 6, 8), d[8..]));
    assert TakeInt(d[8..], 4) == Ok(Got(At(d, 8, 12), d[12..]));
  }

  /** A string is there exactly when its prefix and the announced bytes are. */
  lemma StringThere(d: Bytes)
    ensures TakeString(d).Ok? <==> |d| >= 4 && |d| >= 4 + At(d, 0, 4)
    ensures TakeString(d).Ok? ==>
      |TakeString(d).value.value| == At(d, 0, 4) && TakeString(d).value.rest == d[4 + At(d, 0, 4)..]
  {
    if |d| >= 4 && |d| >= 4 + At(d, 0, 4) {
      Rested(d, 4, 0, At(d, 0, 4));
    }
  }

  /** A node info is there exactly when its fixed fields and the announced bytes of its address are. */
  lemma InfoThere(d: Bytes)
    ensures TakeInfo(d).Ok? <==> |d| >= 12 && |d| >= 58 + At(d, 8, 12)
    ensures TakeInfo(d).Ok? ==> |TakeInfo(d).value.rest| == |d| - 58 - At(d, 8, 12)
  {
    Powers();
    if |d| >= 8 {
      StringThere(d[8..]);
      if |d| >= 12 { Rested(d, 8, 0, 4); }
    }
  }

  // ----- flags -----------------------------------------------------------------------------------------------

  /** The payload ends exactly where the reader of its kind expects a flag. */
  predicate EndsAtFlag(kind: nat, p: Bytes) {
    match kind
    case 0x0002 => |p| >= 12 && |p| == 58 + At(p, 8, 12)
    case 0x0100 => |p| >= 4 && (|p| == 4 + At(p, 0, 4) || |p| == 5 + At(p, 0, 4))
    case 0x0101 => |p| == 4
    case 0x0102 => |p| >= 4 && var n := At(p, 0, 4); |p| >= n + 8 && |p| == n + 8 + At(p, n + 4, n + 8)
    case 0x0105 => |p| == 4
    case _ => false
  }

  lemma HelloAckUnchecked(p: Bytes)
    ensures TakeHelloAck(p).OutOfBounds? <==> EndsAtFlag(0x0002, p)
  {
    InfoThere(p);
  }

  lemma GetUnchecked(p: Bytes)
    ensures TakeGet(p).OutOfBounds? <==> EndsAtFlag(0x0100, p)
  {
    StringThere(p);
  }

  lemma PutUnchecked(p: Bytes)
    ensures TakePut(p).OutOfBounds? <==> EndsAtFlag(0x0102, p)
  {
    StringThere(p);
    if TakeString(p).Ok? {
      var n := At(p, 0, 4);
      StringThere(p[4 + n..]);
      if |p| >= n + 8 { Rested(p, 4 + n, 0, 4); }
    }
  }

  lemma ResponsesUnchecked(p: Bytes)
    ensures TakeGetResponse(p).OutOfBounds? <==> |p| == 4
    ensures TakeDeleteResponse(p).OutOfBounds? <==> |p| == 4
  {
  }

  lemma OthersChecked(p: Bytes)
    ensures !TakeHello(p).OutOfBounds? && !TakeGossipPush(p).OutOfBounds? && !TakePutResponse(p).OutOfBounds?
    ensures !TakeDelete(p).OutOfBounds? && !TakeError(p).OutOfBounds?
  {
    Powers();
    forall d: Bytes, n: nat ensures !TakeAll(TakeString, d, n).OutOfBounds? && !TakeAll(TakeInfo, d, n).OutOfBounds? {
      AllChecked(TakeString, d, n);
      AllChecked(TakeInfo, d, n);
    }
  }

  lemma {:induction false} AllChecked<T>(take: Bytes -> Outcome<Got<T>>, d: Bytes, n: nat)
    requires forall b: Bytes :: !take(b).OutOfBounds?
    ensures !TakeAll(take, d, n).OutOfBounds?
    decreases n
  {
    if n > 0 && take(d).Ok? { AllChecked(take, take(d).value.rest, n - 1); }
  }

  lemma PayloadUncheckedIff(kind: u16, p: Bytes)
    ensures TakePayload(kind, p).OutOfBounds? <==> EndsAtFlag(kind, p)
  {
    match kind
    case 0x0002 => HelloAckUnchecked(p);
    case 0x0100 => GetUnchecked(p);
    case 0x0101 => ResponsesUnchecked(p);
    case 0x0102 => PutUnchecked(p);
    case 0x0105 => ResponsesUnchecked(p);
    case _ => OthersChecked(p);
  }

  /** Decoding reads past its input exactly when the header is good and the payload ends where a flag is due. */
  lemma DecodeUncheckedIff(d: Bytes)
    ensures Decode(d).OutOfBounds?
       <==> |d| >= HEADER_SIZE && At(d, 0, 4) == MAGIC && EndsAtFlag(At(d, 6, 8), d[HEADER_SIZE..])
  {
    if |d| >= HEADER_SIZE {
      HeaderFields(d);
      PayloadUncheckedIff(TakeHeader(d).value.value.kind, d[HEADER_SIZE..]);
    }
  }

  /** A deleted-response that stops before its flag. */
  lemma ShortDeleteResponse()
    ensures Decode(PutHeader([], Header(MAGIC, VERSION, 0x0105, 4, 0, 0)) + [0, 0, 0, 0]) == OutOfBounds
  {
    var h, p: Bytes := Header(MAGIC, VERSION, 0x0105, 4, 0, 0), [0, 0, 0, 0];
    HeaderFront(h, p);
    DecodeWritten(h, p);
    PayloadUncheckedIff(0x0105, p);
  }

  // ----- the magic number ------------------------------------------------------------------------------------

  /** The receiver throws exactly when a whole header has come and its magic number is wrong. */
  lemma ReceiveThrowsIff(stream: Bytes)
    ensures Receive(stream) == Threw <==> |stream| >= HEADER_SIZE && At(stream, 0, 4) != MAGIC
  {
    if |stream| >= HEADER_SIZE {
      var front := stream[..HEADER_SIZE];
      HeaderFields(front);
      assert front[0..4] == stream[0..4];
    }
  }

  /** Of a stream with a good header it reads past the end exactly when the announced bytes end where a flag is due. */
  lemma ReceiveUncheckedIff(stream: Bytes)
    ensures Receive(stream) == Unchecked
       <==> && |stream| >= HEADER_SIZE && At(stream, 0, 4) == MAGIC
            && |stream| >= HEADER_SIZE + At(stream, 8, 12)
            && EndsAtFlag(At(stream, 6, 8), stream[HEADER_SIZE..HEADER_SIZE + At(stream, 8, 12)])
  {
    if |stream| >= HEADER_SIZE {
      var front, rest := stream[..HEADER_SIZE], stream[HEADER_SIZE..];
      HeaderFields(front);
      SameFields(stream, front);
      var n := At(stream, 8, 12);
      if |rest| >= n {
        var frame := front + rest[..n];
        SameFields(frame, front);
        DecodeUncheckedIff(frame);
        assert frame[HEADER_SIZE..] == rest[..n] == stream[HEADER_SIZE..HEADER_SIZE + n];
      }
    }
  }

  lemma SameFields(d: Bytes, front: Bytes)
    requires |front| == HEADER_SIZE <= |d| && d[..HEADER_SIZE] == front
    ensures At(d, 0, 4) == At(front, 0, 4) && At(d, 6, 8) == At(front, 6, 8) && At(d, 8, 12) == At(front, 8, 12)
  {
    assert d[0..4] == front[0..4] && d[6..8] == front[6..8] && d[8..12] == front[8..12];
  }

  /** Twenty-four zero bytes are enough. */
  lemma ZeroHeaderThrows()
    ensures Receive(seq(HEADER_SIZE, i => 0)) == Threw
  {
    var zeros: Bytes := seq(HEADER_SIZE, i => 0);
    ReceiveThrowsIff(zeros);
    assert zeros[0..4] == [0, 0, 0, 0];
    assert Number([0, 0, 0, 0]) == 0 by {
      var z: Bytes := [0, 0, 0, 0];
      assert z[1..] == [0, 0, 0] && z[1..][1..] == [0, 0] && z[1..][1..][1..] == [0] && z[1..][1..][1..][1..] == [];
    }
  }
}
