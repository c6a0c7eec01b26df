/**
 The wire format as a table: each message as a list of fields in the order and width they have on the wire, a number's
 byte i being its digit i in base 256. What the codec writes is exactly that (`PayloadLaidOut`, `EncodeLaidOut`), so the
 round trips of the codec are round trips of this format and of no other.
 */
module WireLayout {
  import opened Options
  import opened Bytes
  import opened Messages
  import opened Wire
  import opened CodecSpec
  import opened CodecMessages
  import opened Framing
  import Chunking

  // ----- layouts ---------------------------------------------------------------------------------------------

  datatype Layout =
    | Done
    | Field(value: nat, width: nat, rest: Layout)
    | Raw(bytes: Bytes, rest: Layout)

  /** Byte i of a number is its digit i in base 256. */
  ghost function Digits(value: nat, width: nat): Bytes {
    seq(width, i requires 0 <= i < width => (value / Pow256(i) % 256) as byte)
  }

  ghost function Lay(l: Layout, tail: Bytes): Bytes {
    match l
    case Done => tail
    case Field(value, width, rest) => Digits(value, width) + Lay(rest, tail)
    case Raw(bytes, rest) => bytes + Lay(rest, tail)
  }

  /** A length of four bytes, and the bytes. */
  ghost function Text(s: Bytes, rest: Layout): Layout { Field(|s| % TWO_32, 4, Raw(s, rest)) }

  ghost function Flag(b: bool, rest: Layout): Layout { Raw([if b then 1 else 0], rest) }

  lemma {:induction false} LittleEndianIsDigits(value: nat, width: nat)
    ensures LittleEndian(value, width) == Digits(value, width)
    decreases width
  {
    if width > 0 {
      LittleEndianIsDigits(value / 256, width - 1);
      var low, high := Digits(value, width), Digits(value / 256, width - 1);
      forall i | 0 < i < width ensures low[i] == high[i - 1] { NextDigit(value, i); }
      assert Pow256(0) == 1 && low[0] == (value % 256) as byte;
      assert low == [low[0]] + high;
    }
  }

  lemma NextDigit(value: nat, i: nat)
    requires i > 0
    ensures value / Pow256(i) == value / 256 / Pow256(i - 1)
  {
    DivTwice(value, 256, Pow256(i - 1));
  }

  lemma DivTwice(n: nat, a: pos, b: pos)
    ensures a * b > 0 && n / (a * b) == n / a / b
  {
    var q := n / a / b;
    assert n / a == q * b + n / a % b;
    assert n == a * (n / a) + n % a;
    Bracket(n, a, b, q, n / a % b, n % a);
  }

  lemma Bracket(n: nat, a: pos, b: pos, q: nat, r: nat, s: nat)
    requires n == a * (q * b + r) + s && r < b && s < a
    ensures a * b > 0 && n / (a * b) == q
  {
    Spread(a, b, q, r);
    Inside(a, b, r, s);
    Chunking.DivIs(n, a * b, q);
  }

  lemma Spread(a: nat, b: nat, q: nat, r: nat)
    ensures a * (q * b + r) == q * (a * b) + a * r
  {
    assert a * (q * b) == q * (a * b);
  }

  lemma Inside(a: pos, b: pos, r: nat, s: nat)
    requires r < b && s < a
    ensures 0 <= a * r && a * r + s < a * b
  {
    Chunking.MulLe(r + 1, b, a);
  }

  // What the codec writes of one field is the field's bytes.

  lemma FieldLaid(value: nat, width: nat, rest: Layout, tail: Bytes)
    ensures Lay(Field(value, width, rest), tail) == WriteInt(value, width, Lay(rest, tail))
  {
    LittleEndianIsDigits(value, width);
  }

  lemma TextLaid(s: Bytes, rest: Layout, tail: Bytes)
    ensures Lay(Text(s, rest), tail) == WriteString(s, Lay(rest, tail))
  {
    FieldLaid(|s| % TWO_32, 4, Raw(s, rest), tail);
  }

  // ----- infos and optional fields ---------------------------------------------------------------------------

  ghost function InfoLayout(i: NodeInfo, rest: Layout): Layout {
    Field(i.id, 8, Text(i.address, Field(i.port, 2, UsageLayout(i, rest))))
  }

  ghost function UsageLayout(i: NodeInfo, rest: Layout): Layout {
    Field(i.memoryCapacity, 8, Field(i.memoryUsed, 8, Field(i.diskCapacity, 8, Field(i.diskUsed, 8,
      Field(i.generation, 8, Field(i.state, 4, rest))))))
  }

  lemma InfoLaid(i: NodeInfo, rest: Layout, tail: Bytes)
    ensures Lay(InfoLayout(i, rest), tail) == WriteInfo(i, Lay(rest, tail))
  {
    var state := Field(i.state, 4, rest);
    var generation := Field(i.generation, 8, state);
    var used := Field(i.diskUsed, 8, generation);
    var disk := Field(i.diskCapacity, 8, used);
    var memory := Field(i.memoryUsed, 8, disk);
    var usage := Field(i.memoryCapacity, 8, memory);
    var port := Field(i.port, 2, usage);
    FieldLaid(i.state, 4, rest, tail);
    FieldLaid(i.generation, 8, state, tail);
    FieldLaid(i.diskUsed, 8, generation, tail);
    FieldLaid(i.diskCapacity, 8, used, tail);
    FieldLaid(i.memoryUsed, 8, disk, tail);
    FieldLaid(i.memoryCapacity, 8, memory, tail);
    FieldLaid(i.port, 2, usage, tail);
    TextLaid(i.address, port, tail);
    FieldLaid(i.id, 8, Text(i.address, port), tail);
  }

  ghost function InfosLayout(infos: seq<NodeInfo>, rest: Layout): Layout {
    if infos == [] then rest else InfoLayout(infos[0], InfosLayout(infos[1..], rest))
  }

  lemma {:induction false} InfosLaid(infos: seq<NodeInfo>, rest: Layout, tail: Bytes)
    ensures Lay(InfosLayout(infos, rest), tail) == WriteAll(WriteInfo, infos, Lay(rest, tail))
    decreases |infos|
  {
    if infos != [] {
      InfosLaid(infos[1..], rest, tail);
      InfoLaid(infos[0], InfosLayout(infos[1..], rest), tail);
    }
  }

  ghost function TextsLayout(texts: seq<Bytes>, rest: Layout): Layout {
    if texts == [] then rest else Text(texts[0], TextsLayout(texts[1..], rest))
  }

  lemma {:induction false} TextsLaid(texts: seq<Bytes>, rest: Layout, tail: Bytes)
    ensures Lay(TextsLayout(texts, rest), tail) == WriteAll(WriteString, texts, Lay(rest, tail))
    decreases |texts|
  {
    if texts != [] {
      TextsLaid(texts[1..], rest, tail);
      TextLaid(texts[0], TextsLayout(texts[1..], rest), tail);
    }
  }

  ghost function SpanLayout(r: WireRange, rest: Layout): Layout { Field(r.offset, 8, Field(r.length, 8, rest)) }

  lemma SpanLaid(r: WireRange, rest: Layout, tail: Bytes)
    ensures Lay(SpanLayout(r, rest), tail) == WriteSpan(r, Lay(rest, tail))
  {
    FieldLaid(r.length, 8, rest, tail);
    FieldLaid(r.offset, 8, Field(r.length, 8, rest), tail);
  }

  ghost function RangeLayout(r: Option<WireRange>, rest: Layout): Layout {
    Flag(r.Some?, if r.Some? then SpanLayout(r.value, rest) else rest)
  }

  lemma RangeLaid(r: Option<WireRange>, rest: Layout, tail: Bytes)
    ensures Lay(RangeLayout(r, rest), tail) == WriteRange(r, Lay(rest, tail))
  {
    if r.Some? { SpanLaid(r.value, rest, tail); }
  }

  ghost function MetadataLayout(m: Option<Metadata>, rest: Layout): Layout {
    Flag(m.Some?, if m.Some? then FactsLayout(m.value, rest) else rest)
  }

  ghost function FactsLayout(m: Metadata, rest: Layout): Layout {
    Field(m.totalSize, 8, Field(m.chunkCount, 8, Field(m.flags, 4, rest)))
  }

  lemma MetadataLaid(m: Option<Metadata>, rest: Layout, tail: Bytes)
    ensures Lay(MetadataLayout(m, rest), tail) == WriteMetadata(m, Lay(rest, tail))
  {
    if m.Some? {
      var flags := Field(m.value.flags, 4, rest);
      FieldLaid(m.value.flags, 4, rest, tail);
      FieldLaid(m.value.chunkCount, 8, flags, tail);
      FieldLaid(m.value.totalSize, 8, Field(m.value.chunkCount, 8, flags), tail);
    }
  }

  /** A lifetime is a signed number, written as its 64-bit two's complement. */
  ghost function TtlLayout(ttl: Option<i64>, rest: Layout): Layout {
    Flag(ttl.Some?, if ttl.Some? then Field(ttl.value % TWO_64, 8, rest) else rest)
  }

  lemma TtlLaid(ttl: Option<i64>, rest: Layout, tail: Bytes)
    ensures Lay(TtlLayout(ttl, rest), tail) == WriteTtl(ttl, Lay(rest, tail))
  {
    if ttl.Some? {
      TwosComplement(ttl.value, TWO_64, Pattern(ttl.value));
      FieldLaid(Pattern(ttl.value), 8, rest, tail);
    }
  }

  lemma TwosComplement(t: int, d: pos, p: nat)
    requires p < d && (p == t || p == t + d)
    ensures t % d == p
  {
  }

  // ----- messages --------------------------------------------------------------------------------------------

  /** The fields of each message in order. */
  ghost function PayloadLayout(m: Message): Layout {
    match m
    case Hello(sender, clusterName, capabilities) =>
      InfoLayout(sender, Text(clusterName, Field(|capabilities| % TWO_32, 4, TextsLayout(capabilities, Done))))
    case HelloAck(sender, accepted, rejectReason) => InfoLayout(sender, Flag(accepted, Text(rejectReason, Done)))
    case GossipPush(from, nodes) => Field(from, 8, Field(|nodes| % TWO_32, 4, InfosLayout(nodes, Done)))
    case Get(key, metadataOnly, range) => Text(key, Flag(metadataOnly, RangeLayout(range, Done)))
    case GetResponse(result, metadata, data, actual) =>
      Field(result, 4, MetadataLayout(metadata, Text(data, SpanLayout(actual, Done))))
    case Put(key, data, ttl, flags) => Text(key, Text(data, TtlLayout(ttl, Field(flags, 4, Done))))
    case PutResponse(code, message) => Field(code, 4, Text(message, Done))
    case Delete(key) => Text(key, Done)
    case DeleteResponse(code, existed) => Field(code, 4, Flag(existed, Done))
    case Error(code, message, requestId) => Field(code, 4, Text(message, Field(requestId, 4, Done)))
  }

  lemma HelloLaid(m: Message, tail: Bytes)
    requires m.Hello?
    ensures Lay(PayloadLayout(m), tail) == WriteHello(m, tail)
  {
    var names := TextsLayout(m.capabilities, Done);
    var count := Field(|m.capabilities| % TWO_32, 4, names);
    TextsLaid(m.capabilities, Done, tail);
    FieldLaid(|m.capabilities| % TWO_32, 4, names, tail);
    TextLaid(m.clusterName, count, tail);
    InfoLaid(m.sender, Text(m.clusterName, count), tail);
  }

  lemma HelloAckLaid(m: Message, tail: Bytes)
    requires m.HelloAck?
    ensures Lay(PayloadLayout(m), tail) == WriteHelloAck(m, tail)
  {
    TextLaid(m.rejectReason, Done, tail);
    InfoLaid(m.sender, Flag(m.accepted, Text(m.rejectReason, Done)), tail);
  }

  lemma GossipPushLaid(m: Message, tail: Bytes)
    requires m.GossipPush?
    ensures Lay(PayloadLayout(m), tail) == WriteGossipPush(m, tail)
  {
    var infos := InfosLayout(m.nodes, Done);
    InfosLaid(m.nodes, Done, tail);
    FieldLaid(|m.nodes| % TWO_32, 4, infos, tail);
    FieldLaid(m.from, 8, Field(|m.nodes| % TWO_32, 4, infos), tail);
  }

  lemma GetLaid(m: Message, tail: Bytes)
    requires m.Get?
    ensures Lay(PayloadLayout(m), tail) == WriteGet(m, tail)
  {
    RangeLaid(m.range, Done, tail);
    TextLaid(m.key, Flag(m.metadataOnly, RangeLayout(m.range, Done)), tail);
  }

  lemma GetResponseLaid(m: Message, tail: Bytes)
    requires m.GetResponse?
    ensures Lay(PayloadLayout(m), tail) == WriteGetResponse(m, tail)
  {
    var span := SpanLayout(m.actualRange, Done);
    SpanLaid(m.actualRange, Done, tail);
    TextLaid(m.data, span, tail);
    MetadataLaid(m.metadata, Text(m.data, span), tail);
    FieldLaid(m.result, 4, MetadataLayout(m.metadata, Text(m.data, span)), tail);
  }

  lemma PutLaid(m: Message, tail: Bytes)
    requires m.Put?
    ensures Lay(PayloadLayout(m), tail) == WritePut(m, tail)
  {
    var ttl := TtlLayout(m.ttl, Field(m.flags, 4, Done));
    FieldLaid(m.flags, 4, Done, tail);
    TtlLaid(m.ttl, Field(m.flags, 4, Done), tail);
    TextLaid(m.data, ttl, tail);
    TextLaid(m.key, Text(m.data, ttl), tail);
  }

  lemma PutResponseLaid(m: Message, tail: Bytes)
    requires m.PutResponse?
    ensures Lay(PayloadLayout(m), tail) == WritePutResponse(m, tail)
  {
    TextLaid(m.message, Done, tail);
    FieldLaid(m.code, 4, Text(m.message, Done), tail);
  }

  lemma DeleteResponseLaid(m: Message, tail: Bytes)
    requires m.DeleteResponse?
    ensures Lay(PayloadLayout(m), tail) == WriteDeleteResponse(m, tail)
  {
    FieldLaid(m.code, 4, Flag(m.existed, Done), tail);
  }

  lemma ErrorLaid(m: Message, tail: Bytes)
    requires m.Error?
    ensures Lay(PayloadLayout(m), tail) == WriteError(m, tail)
  {
    var id := Field(m.originalRequestId, 4, Done);
    FieldLaid(m.originalRequestId, 4, Done, tail);
    TextLaid(m.message, id, tail);
    FieldLaid(m.code, 4, Text(m.message, id), tail);
  }

  /** The payload of every message is its fields in order. */
  lemma PayloadLaidOut(m: Message, tail: Bytes)
    ensures Lay(PayloadLayout(m), tail) == WritePayload(m, tail)
  {
    match m
    case Hello(_, _, _) => HelloLaid(m, tail);
    case HelloAck(_, _, _) => HelloAckLaid(m, tail);
    case GossipPush(_, _) => GossipPushLaid(m, tail);
    case Get(_, _, _) => GetLaid(m, tail);
    case GetResponse(_, _, _, _) => GetResponseLaid(m, tail);
    case Put(_, _, _, _) => PutLaid(m, tail);
    case PutResponse(_, _) => PutResponseLaid(m, tail);
    case Delete(key) => TextLaid(key, Done, tail);
    case DeleteResponse(_, _) => DeleteResponseLaid(m, tail);
    case Error(_, _, _) => ErrorLaid(m, tail);
  }

  /** The 24 bytes of a header: magic number, version, kind, length of the payload, request id, time. */
  ghost function HeaderLayout(kind: nat, length: nat, requestId: nat, time: nat): Layout {
    Field(0x454C_4341, 4, Field(1, 2, Field(kind, 2, Field(length, 4, Field(requestId, 4, Field(time, 8, Done))))))
  }

  lemma HeaderLaid(h: Header, tail: Bytes)
    requires h.magic == 0x454C_4341 && h.version == 1
    ensures Lay(HeaderLayout(h.kind, h.length, h.requestId, h.timestamp), tail) == WriteHeader(h, tail)
  {
    var time := Field(h.timestamp, 8, Done);
    var id := Field(h.requestId, 4, time);
    var length := Field(h.length, 4, id);
    var kind := Field(h.kind, 2, length);
    FieldLaid(h.timestamp, 8, Done, tail);
    FieldLaid(h.requestId, 4, time, tail);
    FieldLaid(h.length, 4, id, tail);
    FieldLaid(h.kind, 2, length, tail);
    FieldLaid(h.version, 2, kind, tail);
    FieldLaid(h.magic, 4, Field(h.version, 2, kind), tail);
  }

  /** A message on the wire is its header and then its fields; the header announces their length modulo 2^32. */
  lemma EncodeLaidOut(s: Sent)
    ensures var fields := Lay(PayloadLayout(s.message), []);
            Encode(s) == Lay(HeaderLayout(KindOf(s.message), |fields| % TWO_32, s.requestId, s.timestamp), fields)
  {
    PayloadLaidOut(s.message, []);
    PayloadIs(s.message);
    HeaderLaid(HeaderOf(s), PutPayload([], s.message));
    HeaderFront(HeaderOf(s), PutPayload([], s.message));
  }
}
