/**
 The payloads of the ten messages, each as a sequence of fields in the order the codec writes and reads them. Taking a
 payload consumes exactly its size, and gives back what was written whenever that size fits in 32 bits.
 */
module CodecMessages {
  import opened Bytes
  import opened Messages
  import opened Wire
  import opened CodecSpec

  // ----- lists and spans -------------------------------------------------------------------------------------

  function PutInfos(buf: Bytes, infos: seq<NodeInfo>): Bytes {
    PutAll(PutInfo, PutInt(buf, Cut32(|infos|), 4), infos)
  }

  function WriteInfos(infos: seq<NodeInfo>, tail: Bytes): Bytes {
    WriteInt(Cut32(|infos|), 4, WriteAll(WriteInfo, infos, tail))
  }

  function TakeInfos(d: Bytes): (r: Outcome<Got<seq<NodeInfo>>>) {
    var count :- TakeInt(d, 4);
    TakeAll(TakeInfo, count.rest, count.value)
  }

  lemma InfosTaken(infos: seq<NodeInfo>, tail: Bytes)
    requires SizeAll(InfoSize, infos) < TWO_32
    ensures TakeInfos(WriteInfos(infos, tail)) == Ok(Got(infos, tail))
  {
    Powers();
    AllCounted(InfoSize, infos);
    IntTaken(|infos|, 4, WriteAll(WriteInfo, infos, tail));
    forall i, t: Bytes | 0 <= i < |infos| ensures TakeInfo(WriteInfo(infos[i], t)) == Ok(Got(infos[i], t)) {
      InfoTaken(infos[i], t);
    }
    AllTaken(WriteInfo, TakeInfo, infos, tail);
  }

  lemma InfosAppended(buf: Bytes, infos: seq<NodeInfo>, tail: Bytes)
    ensures PutInfos(buf, infos) + tail == buf + WriteInfos(infos, tail)
  {
    forall b: Bytes, i: NodeInfo, t: Bytes ensures PutInfo(b, i) + t == b + WriteInfo(i, t) { InfoAppended(b, i, t); }
    AllAppended(PutInfo, WriteInfo, PutInt(buf, Cut32(|infos|), 4), infos, tail);
    IntAppended(buf, Cut32(|infos|), 4, WriteAll(WriteInfo, infos, tail));
  }

  lemma InfosSized(d: Bytes)
    ensures var r := TakeInfos(d); r.Ok? ==> |d| == 4 + SizeAll(InfoSize, r.value.value) + |r.value.rest|
  {
    var count := TakeInt(d, 4);
    if count.Ok? { AllSized(TakeInfo, InfoSize, count.value.rest, count.value.value); }
  }

  function PutStrings(buf: Bytes, strings: seq<Bytes>): Bytes {
    PutAll(PutString, PutInt(buf, Cut32(|strings|), 4), strings)
  }

  function WriteStrings(strings: seq<Bytes>, tail: Bytes): Bytes {
    WriteInt(Cut32(|strings|), 4, WriteAll(WriteString, strings, tail))
  }

  function TakeStrings(d: Bytes): (r: Outcome<Got<seq<Bytes>>>) {
    var count :- TakeInt(d, 4);
    TakeAll(TakeString, count.rest, count.value)
  }

  lemma StringsTaken(strings: seq<Bytes>, tail: Bytes)
    requires SizeAll(StringSize, strings) < TWO_32
    ensures TakeStrings(WriteStrings(strings, tail)) == Ok(Got(strings, tail))
  {
    Powers();
    AllCounted(StringSize, strings);
    IntTaken(|strings|, 4, WriteAll(WriteString, strings, tail));
    forall i, t: Bytes | 0 <= i < |strings| ensures TakeString(WriteString(strings[i], t)) == Ok(Got(strings[i], t)) {
      StringTaken(strings[i], t);
    }
    AllTaken(WriteString, TakeString, strings, tail);
  }

  lemma StringsAppended(buf: Bytes, strings: seq<Bytes>, tail: Bytes)
    ensures PutStrings(buf, strings) + tail == buf + WriteStrings(strings, tail)
  {
    forall b: Bytes, s: Bytes, t: Bytes ensures PutString(b, s) + t == b + WriteString(s, t) {
      StringAppended(b, s, t);
    }
    AllAppended(PutString, WriteString, PutInt(buf, Cut32(|strings|), 4), strings, tail);
    IntAppended(buf, Cut32(|strings|), 4, WriteAll(WriteString, strings, tail));
  }

  lemma StringsSized(d: Bytes)
    ensures var r := TakeStrings(d); r.Ok? ==> |d| == 4 + SizeAll(StringSize, r.value.value) + |r.value.rest|
  {
    var count := TakeInt(d, 4);
    if count.Ok? { AllSized(TakeString, StringSize, count.value.rest, count.value.value); }
  }

  function PutSpan(buf: Bytes, r: WireRange): Bytes { PutInt(PutInt(buf, r.offset, 8), r.length, 8) }

  function WriteSpan(r: WireRange, tail: Bytes): Bytes { WriteInt(r.offset, 8, WriteInt(r.length, 8, tail)) }

  function TakeSpan(d: Bytes): (r: Outcome<Got<WireRange>>)
    ensures r.Ok? ==> |d| == 16 + |r.value.rest|
  {
    Powers();
    var offset :- TakeInt(d, 8);
    var length :- TakeInt(offset.rest, 8);
    Ok(Got(WireRange(offset.value, length.value), length.rest))
  }

  lemma SpanTaken(r: WireRange, tail: Bytes)
    ensures TakeSpan(WriteSpan(r, tail)) == Ok(Got(r, tail))
  {
    Powers();
    IntTaken(r.offset, 8, WriteInt(r.length, 8, tail));
    IntTaken(r.length, 8, tail);
  }

  lemma SpanAppended(buf: Bytes, r: WireRange, tail: Bytes)
    ensures PutSpan(buf, r) + tail == buf + WriteSpan(r, tail)
  {
    IntAppended(PutInt(buf, r.offset, 8), r.length, 8, tail);
    IntAppended(buf, r.offset, 8, WriteInt(r.length, 8, tail));
  }

  // ----- payloads --------------------------------------------------------------------------------------------

  function KindOf(m: Message): u16 {
    match m
    case Hello(_, _, _) => 0x0001
    case HelloAck(_, _, _) => 0x0002
    case GossipPush(_, _) => 0x0010
    case Get(_, _, _) => 0x0100
    case GetResponse(_, _, _, _) => 0x0101
    case Put(_, _, _, _) => 0x0102
    case PutResponse(_, _) => 0x0103
    case Delete(_) => 0x0104
    case DeleteResponse(_, _) => 0x0105
    case Error(_, _, _) => 0xFFFF
  }

  function PutHello(buf: Bytes, m: Message): Bytes
    requires m.Hello?
  {
    var b := PutInfo(buf, m.sender);
    var b := PutString(b, m.clusterName);
    PutStrings(b, m.capabilities)
  }

  function WriteHello(m: Message, tail: Bytes): Bytes
    requires m.Hello?
  {
    var t := WriteStrings(m.capabilities, tail);
    var t := WriteString(m.clusterName, t);
    WriteInfo(m.sender, t)
  }

  function PutHelloAck(buf: Bytes, m: Message): Bytes
    requires m.HelloAck?
  {
    var b := PutInfo(buf, m.sender);
    var b := PutFlag(b, m.accepted);
    PutString(b, m.rejectReason)
  }

  function WriteHelloAck(m: Message, tail: Bytes): Bytes
    requires m.HelloAck?
  {
    var t := WriteString(m.rejectReason, tail);
    var t := WriteFlag(m.accepted, t);
    WriteInfo(m.sender, t)
  }

  function PutGossipPush(buf: Bytes, m: Message): Bytes
    requires m.GossipPush?
  {
    var b := PutInt(buf, m.from, 8);
    PutInfos(b, m.nodes)
  }

  function WriteGossipPush(m: Message, tail: Bytes): Bytes
    requires m.GossipPush?
  {
    var t := WriteInfos(m.nodes, tail);
    WriteInt(m.from, 8, t)
  }

  function PutGet(buf: Bytes, m: Message): Bytes
    requires m.Get?
  {
    var b := PutString(buf, m.key);
    var b := PutFlag(b, m.metadataOnly);
    PutRange(b, m.range)
  }

  function WriteGet(m: Message, tail: Bytes): Bytes
    requires m.Get?
  {
    var t := WriteRange(m.range, tail);
    var t := WriteFlag(m.metadataOnly, t);
    WriteString(m.key, t)
  }

  function PutGetResponse(buf: Bytes, m: Message): Bytes
    requires m.GetResponse?
  {
    var b := PutInt(buf, m.result, 4);
    var b := PutMetadata(b, m.metadata);
    var b := PutString(b, m.data);
    PutSpan(b, m.actualRange)
  }

  function WriteGetResponse(m: Message, tail: Bytes): Bytes
    requires m.GetResponse?
  {
    var t := WriteSpan(m.actualRange, tail);
    var t := WriteString(m.data, t);
    var t := WriteMetadata(m.metadata, t);
    WriteInt(m.result, 4, t)
  }

  function PutPut(buf: Bytes, m: Message): Bytes
    requires m.Put?
  {
    var b := PutString(buf, m.key);
    var b := PutString(b, m.data);
    var b := PutTtl(b, m.ttl);
    PutInt(b, m.flags, 4)
  }

  function WritePut(m: Message, tail: Bytes): Bytes
    requires m.Put?
  {
    var t := WriteInt(m.flags, 4, tail);
    var t := WriteTtl(m.ttl, t);
    var t := WriteString(m.data, t);
    WriteString(m.key, t)
  }

  function PutPutResponse(buf: Bytes, m: Message): Bytes
    requires m.PutResponse?
  {
    var b := PutInt(buf, m.code, 4);
    PutString(b, m.message)
  }

  function WritePutResponse(m: Message, tail: Bytes): Bytes
    requires m.PutResponse?
  {
    var t := WriteString(m.message, tail);
    WriteInt(m.code, 4, t)
  }

  function PutDelete(buf: Bytes, m: Message): Bytes
    requires m.Delete?
  {
    PutString(buf, m.key)
  }

  function WriteDelete(m: Message, tail: Bytes): Bytes
    requires m.Delete?
  {
    WriteString(m.key, tail)
  }

  function PutDeleteResponse(buf: Bytes, m: Message): Bytes
    requires m.DeleteResponse?
  {
    var b := PutInt(buf, m.code, 4);
    PutFlag(b, m.existed)
  }

  function WriteDeleteResponse(m: Message, tail: Bytes): Bytes
    requires m.DeleteResponse?
  {
    var t := WriteFlag(m.existed, tail);
    WriteInt(m.code, 4, t)
  }

  function PutError(buf: Bytes, m: Message): Bytes
    requires m.Error?
  {
    var b := PutInt(buf, m.code, 4);
    var b := PutString(b, m.message);
    PutInt(b, m.originalRequestId, 4)
  }

  function WriteError(m: Message, tail: Bytes): Bytes
    requires m.Error?
  {
    var t := WriteInt(m.originalRequestId, 4, tail);
    var t := WriteString(m.message, t);
    WriteInt(m.code, 4, t)
  }

  function PutPayload(buf: Bytes, m: Message): Bytes {
    match m
    case Hello(_, _, _) => PutHello(buf, m)
    case HelloAck(_, _, _) => PutHelloAck(buf, m)
    case GossipPush(_, _) => PutGossipPush(buf, m)
    case Get(_, _, _) => PutGet(buf, m)
    case GetResponse(_, _, _, _) => PutGetResponse(buf, m)
    case Put(_, _, _, _) => PutPut(buf, m)
    case PutResponse(_, _) => PutPutResponse(buf, m)
    case Delete(_) => PutDelete(buf, m)
    case DeleteResponse(_, _) => PutDeleteResponse(buf, m)
    case Error(_, _, _) => PutError(buf, m)
  }

  function WritePayload(m: Message, tail: Bytes): Bytes {
    match m
    case Hello(_, _, _) => WriteHello(m, tail)
    case HelloAck(_, _, _) => WriteHelloAck(m, tail)
    case GossipPush(_, _) => WriteGossipPush(m, tail)
    case Get(_, _, _) => WriteGet(m, tail)
    case GetResponse(_, _, _, _) => WriteGetResponse(m, tail)
    case Put(_, _, _, _) => WritePut(m, tail)
    case PutResponse(_, _) => WritePutResponse(m, tail)
    case Delete(_) => WriteDelete(m, tail)
    case DeleteResponse(_, _) => WriteDeleteResponse(m, tail)
    case Error(_, _, _) => WriteError(m, tail)
  }

  /** How many bytes a payload takes. */
  function PayloadSize(m: Message): nat {
    match m
    case Hello(sender, clusterName, capabilities) =>
      InfoSize(sender) + StringSize(clusterName) + 4 + SizeAll(StringSize, capabilities)
    case HelloAck(sender, _, rejectReason) => InfoSize(sender) + 1 + StringSize(rejectReason)
    case GossipPush(_, nodes) => 8 + 4 + SizeAll(InfoSize, nodes)
    case Get(key, _, range) => StringSize(key) + 1 + RangeSize(range)
    case GetResponse(_, metadata, data, _) => 4 + MetadataSize(metadata) + StringSize(data) + 16
    case Put(key, data, ttl, _) => StringSize(key) + StringSize(data) + TtlSize(ttl) + 4
    case PutResponse(_, message) => 4 + StringSize(message)
    case Delete(key) => StringSize(key)
    case DeleteResponse(_, _) => 4 + 1
    case Error(_, message, _) => 4 + StringSize(message) + 4
  }

  /** A message as the wire carries it. */
  function OnWire(m: Message): Message {
    if m.GetResponse? then m.(metadata := Timeless(m.metadata)) else m
  }

  function TakeHello(d: Bytes): (r: Outcome<Got<Message>>)
    ensures r.Ok? ==> r.value.value.Hello? && |d| == PayloadSize(r.value.value) + |r.value.rest|
  {
    Powers();
    var sender :- TakeInfo(d);
    var clusterName :- TakeString(sender.rest);
    StringsSized(clusterName.rest);
    var capabilities :- TakeStrings(clusterName.rest);
    Ok(Got(Hello(sender.value, clusterName.value, capabilities.value), capabilities.rest))
  }

  function TakeHelloAck(d: Bytes): (r: Outcome<Got<Message>>)
    ensures r.Ok? ==> r.value.value.HelloAck? && |d| == PayloadSize(r.value.value) + |r.value.rest|
  {
    Powers();
    var sender :- TakeInfo(d);
    var accepted :- TakeFlag(sender.rest);
    var rejectReason :- TakeString(accepted.rest);
    Ok(Got(HelloAck(sender.value, accepted.value, rejectReason.value), rejectReason.rest))
  }

  function TakeGossipPush(d: Bytes): (r: Outcome<Got<Message>>)
    ensures r.Ok? ==> r.value.value.GossipPush? && |d| == PayloadSize(r.value.value) + |r.value.rest|
  {
    Powers();
    var from :- TakeInt(d, 8);
    InfosSized(from.rest);
    var nodes :- TakeInfos(from.rest);
    Ok(Got(GossipPush(from.value, nodes.value), nodes.rest))
  }

  function TakeGet(d: Bytes): (r: Outcome<Got<Message>>)
    ensures r.Ok? ==> r.value.value.Get? && |d| == PayloadSize(r.value.value) + |r.value.rest|
  {
    Powers();
    var key :- TakeString(d);
    var metadataOnly :- TakeFlag(key.rest);
    var range :- TakeRange(metadataOnly.rest);
    Ok(Got(Get(key.value, metadataOnly.value, range.value), range.rest))
  }

  function TakeGetResponse(d: Bytes): (r: Outcome<Got<Message>>)
    ensures r.Ok? ==> r.value.value.GetResponse? && |d| == PayloadSize(r.value.value) + |r.value.rest|
  {
    Powers();
    var result :- TakeInt(d, 4);
    var metadata :- TakeMetadata(result.rest);
    var data :- TakeString(metadata.rest);
    var actualRange :- TakeSpan(data.rest);
    Ok(Got(GetResponse(result.value, metadata.value, data.value, actualRange.value), actualRange.rest))
  }

  function TakePut(d: Bytes): (r: Outcome<Got<Message>>)
    ensures r.Ok? ==> r.value.value.Put? && |d| == PayloadSize(r.value.value) + |r.value.rest|
  {
    Powers();
    var key :- TakeString(d);
    var data :- TakeString(key.rest);
    var ttl :- TakeTtl(data.rest);
    var flags :- TakeInt(ttl.rest, 4);
    Ok(Got(Put(key.value, data.value, ttl.value, flags.value), flags.rest))
  }

  function TakePutResponse(d: Bytes): (r: Outcome<Got<Message>>)
    ensures r.Ok? ==> r.value.value.PutResponse? && |d| == PayloadSize(r.value.value) + |r.value.rest|
  {
    Powers();
    var code :- TakeInt(d, 4);
    var message :- TakeString(code.rest);
    Ok(Got(PutResponse(code.value, message.value), message.rest))
  }

  function TakeDelete(d: Bytes): (r: Outcome<Got<Message>>)
    ensures r.Ok? ==> r.value.value.Delete? && |d| == PayloadSize(r.value.value) + |r.value.rest|
  {
    Powers();
    var key :- TakeString(d);
    Ok(Got(Delete(key.value), key.rest))
  }

  function TakeDeleteResponse(d: Bytes): (r: Outcome<Got<Message>>)
    ensures r.Ok? ==> r.value.value.DeleteResponse? && |d| == PayloadSize(r.value.value) + |r.value.rest|
  {
    Powers();
    var code :- TakeInt(d, 4);
    var existed :- TakeFlag(code.rest);
    Ok(Got(DeleteResponse(code.value, existed.value), existed.rest))
  }

  function TakeError(d: Bytes): (r: Outcome<Got<Message>>)
    ensures r.Ok? ==> r.value.value.Error? && |d| == PayloadSize(r.value.value) + |r.value.rest|
  {
    Powers();
    var code :- TakeInt(d, 4);
    var message :- TakeString(code.rest);
    var originalRequestId :- TakeInt(message.rest, 4);
    Ok(Got(Error(code.value, message.value, originalRequestId.value), originalRequestId.rest))
  }

  /** The reader of a kind of message; an unknown kind throws. */
  function Taker(kind: u16): Bytes -> Outcome<Got<Message>> {
    match kind
    case 0x0001 => TakeHello
    case 0x0002 => TakeHelloAck
    case 0x0010 => TakeGossipPush
    case 0x0100 => TakeGet
    case 0x0101 => TakeGetResponse
    case 0x0102 => TakePut
    case 0x0103 => TakePutResponse
    case 0x0104 => TakeDelete
    case 0x0105 => TakeDeleteResponse
    case 0xFFFF => TakeError
    case _ => (d: Bytes) => Thrown
  }

  function TakePayload(kind: u16, d: Bytes): (r: Outcome<Got<Message>>) {
    Taker(kind)(d)
  }

  /** Taking a payload gives a message of that kind and consumes exactly its size. */
  lemma PayloadSized(kind: u16, d: Bytes)
    ensures var r := TakePayload(kind, d);
      r.Ok? ==> KindOf(r.value.value) == kind && |d| == PayloadSize(r.value.value) + |r.value.rest|
  {
  }

  lemma HelloTaken(m: Message, tail: Bytes)
    requires m.Hello? && PayloadSize(m) < TWO_32
    ensures TakePayload(KindOf(m), WritePayload(m, tail)) == Ok(Got(OnWire(m), tail))
  {
    Powers();
    var t2 := WriteStrings(m.capabilities, tail);
    var t1 := WriteString(m.clusterName, t2);
    InfoTaken(m.sender, t1);
    StringTaken(m.clusterName, t2);
    StringsTaken(m.capabilities, tail);
  }

  lemma HelloAckTaken(m: Message, tail: Bytes)
    requires m.HelloAck? && PayloadSize(m) < TWO_32
    ensures TakePayload(KindOf(m), WritePayload(m, tail)) == Ok(Got(OnWire(m), tail))
  {
    Powers();
    var t2 := WriteString(m.rejectReason, tail);
    var t1 := WriteFlag(m.accepted, t2);
    InfoTaken(m.sender, t1);
    FlagTaken(m.accepted, t2);
    StringTaken(m.rejectReason, tail);
  }

  lemma GossipPushTaken(m: Message, tail: Bytes)
    requires m.GossipPush? && PayloadSize(m) < TWO_32
    ensures TakePayload(KindOf(m), WritePayload(m, tail)) == Ok(Got(OnWire(m), tail))
  {
    Powers();
    var t1 := WriteInfos(m.nodes, tail);
    IntTaken(m.from, 8, t1);
    InfosTaken(m.nodes, tail);
    GossipPushSteps(WriteGossipPush(m, tail), t1, tail, m);
  }

  lemma GossipPushSteps(d: Bytes, d1: Bytes, d2: Bytes, m: Message)
    requires m.GossipPush?
    requires TakeInt(d, 8) == Ok(Got(m.from, d1))
    requires TakeInfos(d1) == Ok(Got(m.nodes, d2))
    ensures TakePayload(KindOf(m), d) == Ok(Got(OnWire(m), d2))
  {
    Powers();
  }

  lemma GetTaken(m: Message, tail: Bytes)
    requires m.Get? && PayloadSize(m) < TWO_32
    ensures TakePayload(KindOf(m), WritePayload(m, tail)) == Ok(Got(OnWire(m), tail))
  {
    Powers();
    var t2 := WriteRange(m.range, tail);
    var t1 := WriteFlag(m.metadataOnly, t2);
    StringTaken(m.key, t1);
    FlagTaken(m.metadataOnly, t2);
    RangeTaken(m.range, tail);
    GetSteps(WriteGet(m, tail), t1, t2, tail, m);
  }

  lemma GetSteps(d: Bytes, d1: Bytes, d2: Bytes, d3: Bytes, m: Message)
    requires m.Get?
    requires TakeString(d) == Ok(Got(m.key, d1))
    requires TakeFlag(d1) == Ok(Got(m.metadataOnly, d2))
    requires TakeRange(d2) == Ok(Got(m.range, d3))
    ensures TakePayload(KindOf(m), d) == Ok(Got(OnWire(m), d3))
  {
    Powers();
  }

  lemma GetResponseTaken(m: Message, tail: Bytes)
    requires m.GetResponse? && PayloadSize(m) < TWO_32
    ensures TakePayload(KindOf(m), WritePayload(m, tail)) == Ok(Got(OnWire(m), tail))
  {
    Powers();
    var t3 := WriteSpan(m.actualRange, tail);
    var t2 := WriteString(m.data, t3);
    var t1 := WriteMetadata(m.metadata, t2);
    IntTaken(m.result, 4, t1);
    MetadataTaken(m.metadata, t2);
    StringTaken(m.data, t3);
    SpanTaken(m.actualRange, tail);
    GetResponseSteps(WriteGetResponse(m, tail), t1, t2, t3, tail, m);
  }

  lemma GetResponseSteps(d: Bytes, d1: Bytes, d2: Bytes, d3: Bytes, d4: Bytes, m: Message)
    requires m.GetResponse?
    requires TakeInt(d, 4) == Ok(Got(m.result, d1))
    requires TakeMetadata(d1) == Ok(Got(Timeless(m.metadata), d2))
    requires TakeString(d2) == Ok(Got(m.data, d3))
    requires TakeSpan(d3) == Ok(Got(m.actualRange, d4))
    ensures TakePayload(KindOf(m), d) == Ok(Got(OnWire(m), d4))
  {
    Powers();
  }

  lemma PutTaken(m: Message, tail: Bytes)
    requires m.Put? && PayloadSize(m) < TWO_32
    ensures TakePayload(KindOf(m), WritePayload(m, tail)) == Ok(Got(OnWire(m), tail))
  {
    Powers();
    var t3 := WriteInt(m.flags, 4, tail);
    var t2 := WriteTtl(m.ttl, t3);
    var t1 := WriteString(m.data, t2);
    StringTaken(m.key, t1);
    StringTaken(m.data, t2);
    TtlTaken(m.ttl, t3);
    IntTaken(m.flags, 4, tail);
    PutSteps(WritePut(m, tail), t1, t2, t3, tail, m);
  }

  lemma PutSteps(d: Bytes, d1: Bytes, d2: Bytes, d3: Bytes, d4: Bytes, m: Message)
    requires m.Put?
    requires TakeString(d) == Ok(Got(m.key, d1))
    requires TakeString(d1) == Ok(Got(m.data, d2))
    requires TakeTtl(d2) == Ok(Got(m.ttl, d3))
    requires TakeInt(d3, 4) == Ok(Got(m.flags, d4))
    ensures TakePayload(KindOf(m), d) == Ok(Got(OnWire(m), d4))
  {
    Powers();
  }

  lemma PutResponseTaken(m: Message, tail: Bytes)
    requires m.PutResponse? && PayloadSize(m) < TWO_32
    ensures TakePayload(KindOf(m), WritePayload(m, tail)) == Ok(Got(OnWire(m), tail))
  {
    Powers();
    var t1 := WriteString(m.message, tail);
    IntTaken(m.code, 4, t1);
    StringTaken(m.message, tail);
  }

  lemma DeleteTaken(m: Message, tail: Bytes)
    requires m.Delete? && PayloadSize(m) < TWO_32
    ensures TakePayload(KindOf(m), WritePayload(m, tail)) == Ok(Got(OnWire(m), tail))
  {
    Powers();
    StringTaken(m.key, tail);
  }

  lemma DeleteResponseTaken(m: Message, tail: Bytes)
    requires m.DeleteResponse? && PayloadSize(m) < TWO_32
    ensures TakePayload(KindOf(m), WritePayload(m, tail)) == Ok(Got(OnWire(m), tail))
  {
    Powers();
    var t1 := WriteFlag(m.existed, tail);
    IntTaken(m.code, 4, t1);
    FlagTaken(m.existed, tail);
  }

  lemma ErrorTaken(m: Message, tail: Bytes)
    requires m.Error? && PayloadSize(m) < TWO_32
    ensures TakePayload(KindOf(m), WritePayload(m, tail)) == Ok(Got(OnWire(m), tail))
  {
    Powers();
    var t2 := WriteInt(m.originalRequestId, 4, tail);
    var t1 := WriteString(m.message, t2);
    IntTaken(m.code, 4, t1);
    StringTaken(m.message, t2);
    IntTaken(m.originalRequestId, 4, tail);
    ErrorSteps(WriteError(m, tail), t1, t2, tail, m);
  }

  lemma ErrorSteps(d: Bytes, d1: Bytes, d2: Bytes, d3: Bytes, m: Message)
    requires m.Error?
    requires TakeInt(d, 4) == Ok(Got(m.code, d1))
    requires TakeString(d1) == Ok(Got(m.message, d2))
    requires TakeInt(d2, 4) == Ok(Got(m.originalRequestId, d3))
    ensures TakePayload(KindOf(m), d) == Ok(Got(OnWire(m), d3))
  {
    Powers();
  }

  lemma HelloAppended(buf: Bytes, m: Message, tail: Bytes)
    requires m.Hello?
    ensures PutHello(buf, m) + tail == buf + WriteHello(m, tail)
  {
    var b1 := PutInfo(buf, m.sender);
    var b2 := PutString(b1, m.clusterName);
    StringsAppended(b2, m.capabilities, tail);
    var t2 := WriteStrings(m.capabilities, tail);
    StringAppended(b1, m.clusterName, t2);
    var t1 := WriteString(m.clusterName, t2);
    InfoAppended(buf, m.sender, t1);
  }

  lemma HelloAckAppended(buf: Bytes, m: Message, tail: Bytes)
    requires m.HelloAck?
    ensures PutHelloAck(buf, m) + tail == buf + WriteHelloAck(m, tail)
  {
    var b1 := PutInfo(buf, m.sender);
    var b2 := PutFlag(b1, m.accepted);
    StringAppended(b2, m.rejectReason, tail);
    var t2 := WriteString(m.rejectReason, tail);
    FlagAppended(b1, m.accepted, t2);
    var t1 := WriteFlag(m.accepted, t2);
    InfoAppended(buf, m.sender, t1);
  }

  lemma GossipPushAppended(buf: Bytes, m: Message, tail: Bytes)
    requires m.GossipPush?
    ensures PutGossipPush(buf, m) + tail == buf + WriteGossipPush(m, tail)
  {
    var b1 := PutInt(buf, m.from, 8);
    InfosAppended(b1, m.nodes, tail);
    var t1 := WriteInfos(m.nodes, tail);
    IntAppended(buf, m.from, 8, t1);
  }

  lemma GetAppended(buf: Bytes, m: Message, tail: Bytes)
    requires m.Get?
    ensures PutGet(buf, m) + tail == buf + WriteGet(m, tail)
  {
    var b1 := PutString(buf, m.key);
    var b2 := PutFlag(b1, m.metadataOnly);
    RangeAppended(b2, m.range, tail);
    var t2 := WriteRange(m.range, tail);
    FlagAppended(b1, m.metadataOnly, t2);
    var t1 := WriteFlag(m.metadataOnly, t2);
    StringAppended(buf, m.key, t1);
  }

  lemma GetResponseAppended(buf: Bytes, m: Message, tail: Bytes)
    requires m.GetResponse?
    ensures PutGetResponse(buf, m) + tail == buf + WriteGetResponse(m, tail)
  {
    var b1 := PutInt(buf, m.result, 4);
    var b2 := PutMetadata(b1, m.metadata);
    var b3 := PutString(b2, m.data);
    SpanAppended(b3, m.actualRange, tail);
    var t3 := WriteSpan(m.actualRange, tail);
    StringAppended(b2, m.data, t3);
    var t2 := WriteString(m.data, t3);
    MetadataAppended(b1, m.metadata, t2);
    var t1 := WriteMetadata(m.metadata, t2);
    IntAppended(buf, m.result, 4, t1);
  }

  lemma PutAppended(buf: Bytes, m: Message, tail: Bytes)
    requires m.Put?
    ensures PutPut(buf, m) + tail == buf + WritePut(m, tail)
  {
    var b1 := PutString(buf, m.key);
    var b2 := PutString(b1, m.data);
    var b3 := PutTtl(b2, m.ttl);
    IntAppended(b3, m.flags, 4, tail);
    var t3 := WriteInt(m.flags, 4, tail);
    TtlAppended(b2, m.ttl, t3);
    var t2 := WriteTtl(m.ttl, t3);
    StringAppended(b1, m.data, t2);
    var t1 := WriteString(m.data, t2);
    StringAppended(buf, m.key, t1);
  }

  lemma PutResponseAppended(buf: Bytes, m: Message, tail: Bytes)
    requires m.PutResponse?
    ensures PutPutResponse(buf, m) + tail == buf + WritePutResponse(m, tail)
  {
    var b1 := PutInt(buf, m.code, 4);
    StringAppended(b1, m.message, tail);
    var t1 := WriteString(m.message, tail);
    IntAppended(buf, m.code, 4, t1);
  }

  lemma DeleteAppended(buf: Bytes, m: Message, tail: Bytes)
    requires m.Delete?
    ensures PutDelete(buf, m) + tail == buf + WriteDelete(m, tail)
  {
    StringAppended(buf, m.key, tail);
  }

  lemma DeleteResponseAppended(buf: Bytes, m: Message, tail: Bytes)
    requires m.DeleteResponse?
    ensures PutDeleteResponse(buf, m) + tail == buf + WriteDeleteResponse(m, tail)
  {
    var b1 := PutInt(buf, m.code, 4);
    FlagAppended(b1, m.existed, tail);
    var t1 := WriteFlag(m.existed, tail);
    IntAppended(buf, m.code, 4, t1);
  }

  lemma ErrorAppended(buf: Bytes, m: Message, tail: Bytes)
    requires m.Error?
    ensures PutError(buf, m) + tail == buf + WriteError(m, tail)
  {
    var b1 := PutInt(buf, m.code, 4);
    var b2 := PutString(b1, m.message);
    IntAppended(b2, m.originalRequestId, 4, tail);
    var t2 := WriteInt(m.originalRequestId, 4, tail);
    StringAppended(b1, m.message, t2);
    var t1 := WriteString(m.message, t2);
    IntAppended(buf, m.code, 4, t1);
  }

  /** Every payload under 2^32 bytes is taken back as the message that was written, whatever follows it. */
  lemma PayloadTaken(m: Message, tail: Bytes)
    requires PayloadSize(m) < TWO_32
    ensures TakePayload(KindOf(m), WritePayload(m, tail)) == Ok(Got(OnWire(m), tail))
  {
    match m
    case Hello(_, _, _) => HelloTaken(m, tail);
    case HelloAck(_, _, _) => HelloAckTaken(m, tail);
    case GossipPush(_, _) => GossipPushTaken(m, tail);
    case Get(_, _, _) => GetTaken(m, tail);
    case GetResponse(_, _, _, _) => GetResponseTaken(m, tail);
    case Put(_, _, _, _) => PutTaken(m, tail);
    case PutResponse(_, _) => PutResponseTaken(m, tail);
    case Delete(_) => DeleteTaken(m, tail);
    case DeleteResponse(_, _) => DeleteResponseTaken(m, tail);
    case Error(_, _, _) => ErrorTaken(m, tail);
  }

  /** What the encoder appends is what the decoder is shown to take. */
  lemma PayloadAppended(buf: Bytes, m: Message, tail: Bytes)
    ensures PutPayload(buf, m) + tail == buf + WritePayload(m, tail)
  {
    match m
    case Hello(_, _, _) => HelloAppended(buf, m, tail);
    case HelloAck(_, _, _) => HelloAckAppended(buf, m, tail);
    case GossipPush(_, _) => GossipPushAppended(buf, m, tail);
    case Get(_, _, _) => GetAppended(buf, m, tail);
    case GetResponse(_, _, _, _) => GetResponseAppended(buf, m, tail);
    case Put(_, _, _, _) => PutAppended(buf, m, tail);
    case PutResponse(_, _) => PutResponseAppended(buf, m, tail);
    case Delete(_) => DeleteAppended(buf, m, tail);
    case DeleteResponse(_, _) => DeleteResponseAppended(buf, m, tail);
    case Error(_, _, _) => ErrorAppended(buf, m, tail);
  }

  /** A payload takes its size. */
  lemma PayloadWritten(m: Message, tail: Bytes)
    ensures |WritePayload(m, tail)| == PayloadSize(m) + |tail|
  {
    match m
    case Hello(_, _, capabilities) => AllWritten(WriteString, StringSize, capabilities, tail);
    case GossipPush(_, nodes) => AllWritten(WriteInfo, InfoSize, nodes, tail);
    case _ =>
  }
}
