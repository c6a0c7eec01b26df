/**
 The message codec. A message is a 24-byte header and a payload; all numbers are little-endian and lengths and counts
 are cut to 32 bits.
 */
module CodecSpec {
  import opened Options
  import opened Bytes
  import opened Messages
  import opened Wire

  const MAGIC: u32 := 0x454C_4341
  const VERSION: u16 := 1
  const HEADER_SIZE: nat := 24

  datatype Header = Header(magic: u32, version: u16, kind: u16, length: u32, requestId: u32, timestamp: u64)

  // ----- node infos ------------------------------------------------------------------------------------------

  function PutInfo(buf: Bytes, i: NodeInfo): Bytes {
    var b := PutInt(buf, i.id, 8);
    var b := PutString(b, i.address);
    var b := PutInt(b, i.port, 2);
    var b := PutInt(b, i.memoryCapacity, 8);
    var b := PutInt(b, i.memoryUsed, 8);
    var b := PutInt(b, i.diskCapacity, 8);
    var b := PutInt(b, i.diskUsed, 8);
    var b := PutInt(b, i.generation, 8);
    PutInt(b, i.state, 4)
  }

  function WriteInfo(i: NodeInfo, tail: Bytes): Bytes {
    var t := WriteInt(i.state, 4, tail);
    var t := WriteInt(i.generation, 8, t);
    var t := WriteInt(i.diskUsed, 8, t);
    var t := WriteInt(i.diskCapacity, 8, t);
    var t := WriteInt(i.memoryUsed, 8, t);
    var t := WriteInt(i.memoryCapacity, 8, t);
    var t := WriteInt(i.port, 2, t);
    var t := WriteString(i.address, t);
    WriteInt(i.id, 8, t)
  }

  function TakeInfo(d: Bytes): (r: Outcome<Got<NodeInfo>>)
    ensures r.Ok? ==> |d| == InfoSize(r.value.value) + |r.value.rest| && |r.value.value.address| < TWO_32
    ensures !r.OutOfBounds?
  {
    Powers();
    var id :- TakeInt(d, 8);
    var address :- TakeString(id.rest);
    var port :- TakeInt(address.rest, 2);
    var memoryCapacity :- TakeInt(port.rest, 8);
    var memoryUsed :- TakeInt(memoryCapacity.rest, 8);
    var diskCapacity :- TakeInt(memoryUsed.rest, 8);
    var diskUsed :- TakeInt(diskCapacity.rest, 8);
    var generation :- TakeInt(diskUsed.rest, 8);
    var state :- TakeInt(generation.rest, 4);
    Ok(Got(NodeInfo(id.value, address.value, port.value, memoryCapacity.value, memoryUsed.value, diskCapacity.value,
                    diskUsed.value, generation.value, state.value), state.rest))
  }

  /** How many bytes an info takes. */
  function InfoSize(i: NodeInfo): nat { 58 + |i.address| }

  lemma InfoTaken(i: NodeInfo, tail: Bytes)
    requires |i.address| < TWO_32
    ensures TakeInfo(WriteInfo(i, tail)) == Ok(Got(i, tail))
  {
    Powers();
    var t9 := WriteInt(i.state, 4, tail);
    var t8 := WriteInt(i.generation, 8, t9);
    var t7 := WriteInt(i.diskUsed, 8, t8);
    var t6 := WriteInt(i.diskCapacity, 8, t7);
    var t5 := WriteInt(i.memoryUsed, 8, t6);
    var t4 := WriteInt(i.memoryCapacity, 8, t5);
    var t3 := WriteInt(i.port, 2, t4);
    var t2 := WriteString(i.address, t3);
    IntTaken(i.id, 8, t2);
    StringTaken(i.address, t3);
    IntTaken(i.port, 2, t4);
    IntTaken(i.memoryCapacity, 8, t5);
    IntTaken(i.memoryUsed, 8, t6);
    IntTaken(i.diskCapacity, 8, t7);
    IntTaken(i.diskUsed, 8, t8);
    IntTaken(i.generation, 8, t9);
    IntTaken(i.state, 4, tail);
  }

  lemma InfoAppended(buf: Bytes, i: NodeInfo, tail: Bytes)
    ensures PutInfo(buf, i) + tail == buf + WriteInfo(i, tail)
  {
    var b1 := PutInt(buf, i.id, 8);
    var b2 := PutString(b1, i.address);
    var b3 := PutInt(b2, i.port, 2);
    var b4 := PutInt(b3, i.memoryCapacity, 8);
    var b5 := PutInt(b4, i.memoryUsed, 8);
    var b6 := PutInt(b5, i.diskCapacity, 8);
    var b7 := PutInt(b6, i.diskUsed, 8);
    var b8 := PutInt(b7, i.generation, 8);
    var t9 := WriteInt(i.state, 4, tail);
    var t8 := WriteInt(i.generation, 8, t9);
    var t7 := WriteInt(i.diskUsed, 8, t8);
    var t6 := WriteInt(i.diskCapacity, 8, t7);
    var t5 := WriteInt(i.memoryUsed, 8, t6);
    var t4 := WriteInt(i.memoryCapacity, 8, t5);
    var t3 := WriteInt(i.port, 2, t4);
    IntAppended(b8, i.state, 4, tail);
    IntAppended(b7, i.generation, 8, t9);
    IntAppended(b6, i.diskUsed, 8, t8);
    IntAppended(b5, i.diskCapacity, 8, t7);
    IntAppended(b4, i.memoryUsed, 8, t6);
    IntAppended(b3, i.memoryCapacity, 8, t5);
    IntAppended(b2, i.port, 2, t4);
    StringAppended(b1, i.address, t3);
    IntAppended(buf, i.id, 8, WriteString(i.address, t3));
  }

  function StringSize(s: Bytes): nat { 4 + |s| }

  // ----- optional fields -------------------------------------------------------------------------------------

  /** A signed count of seconds as the 64-bit pattern that carries it. */
  function Pattern(t: i64): u64 { if t < 0 then t + TWO_64 else t }

  function Seconds(v: u64): i64 { if v < TWO_63 then v else v - TWO_64 }

  function PutRange(buf: Bytes, r: Option<WireRange>): Bytes {
    var b := PutFlag(buf, r.Some?);
    if r.Some? then PutInt(PutInt(b, r.value.offset, 8), r.value.length, 8) else b
  }

  function WriteRange(r: Option<WireRange>, tail: Bytes): Bytes {
    WriteFlag(r.Some?, if r.Some? then WriteInt(r.value.offset, 8, WriteInt(r.value.length, 8, tail)) else tail)
  }

  function TakeRange(d: Bytes): (r: Outcome<Got<Option<WireRange>>>)
    ensures r.Ok? ==> |d| == RangeSize(r.value.value) + |r.value.rest|
  {
    Powers();
    var has :- TakeFlag(d);
    if !has.value then Ok(Got(None, has.rest))
    else
      var offset :- TakeInt(has.rest, 8);
      var length :- TakeInt(offset.rest, 8);
      Ok(Got(Some(WireRange(offset.value, length.value)), length.rest))
  }

  function RangeSize(r: Option<WireRange>): nat { if r.Some? then 17 else 1 }

  lemma RangeTaken(r: Option<WireRange>, tail: Bytes)
    ensures TakeRange(WriteRange(r, tail)) == Ok(Got(r, tail))
  {
    Powers();
    if r.Some? {
      var t := WriteInt(r.value.length, 8, tail);
      FlagTaken(true, WriteInt(r.value.offset, 8, t));
      IntTaken(r.value.offset, 8, t);
      IntTaken(r.value.length, 8, tail);
    } else {
      FlagTaken(false, tail);
    }
  }

  lemma RangeAppended(buf: Bytes, r: Option<WireRange>, tail: Bytes)
    ensures PutRange(buf, r) + tail == buf + WriteRange(r, tail)
  {
    if r.Some? {
      var b := PutFlag(buf, true);
      var t := WriteInt(r.value.length, 8, tail);
      IntAppended(PutInt(b, r.value.offset, 8), r.value.length, 8, tail);
      IntAppended(b, r.value.offset, 8, t);
      FlagAppended(buf, true, WriteInt(r.value.offset, 8, t));
    } else {
      FlagAppended(buf, false, tail);
    }
  }

  function PutMetadata(buf: Bytes, m: Option<Metadata>): Bytes {
    var b := PutFlag(buf, m.Some?);
    if m.Some? then PutInt(PutInt(PutInt(b, m.value.totalSize, 8), m.value.chunkCount, 8), m.value.flags, 4) else b
  }

  function WriteMetadata(m: Option<Metadata>, tail: Bytes): Bytes {
    WriteFlag(m.Some?,
      if m.Some? then
        WriteInt(m.value.totalSize, 8, WriteInt(m.value.chunkCount, 8, WriteInt(m.value.flags, 4, tail)))
      else tail)
  }

  function TakeMetadata(d: Bytes): (r: Outcome<Got<Option<Metadata>>>)
    ensures r.Ok? ==> |d| == MetadataSize(r.value.value) + |r.value.rest|
  {
    Powers();
    var has :- TakeFlag(d);
    if !has.value then Ok(Got(None, has.rest))
    else
      var totalSize :- TakeInt(has.rest, 8);
      var chunkCount :- TakeInt(totalSize.rest, 8);
      var flags :- TakeInt(chunkCount.rest, 4);
      Ok(Got(Some(Metadata(totalSize.value, chunkCount.value, flags.value, 0, 0, None)), flags.rest))
  }

  function MetadataSize(m: Option<Metadata>): nat { if m.Some? then 21 else 1 }

  /** The times of a value's metadata stay behind. */
  function Timeless(m: Option<Metadata>): Option<Metadata> {
    if m.None? then None
    else Some(m.value.(createdAt := 0, lastAccessed := 0, expiresAt := None))
  }

  lemma MetadataTaken(m: Option<Metadata>, tail: Bytes)
    ensures TakeMetadata(WriteMetadata(m, tail)) == Ok(Got(Timeless(m), tail))
  {
    Powers();
    if m.Some? {
      var t2 := WriteInt(m.value.flags, 4, tail);
      var t1 := WriteInt(m.value.chunkCount, 8, t2);
      FlagTaken(true, WriteInt(m.value.totalSize, 8, t1));
      IntTaken(m.value.totalSize, 8, t1);
      IntTaken(m.value.chunkCount, 8, t2);
      IntTaken(m.value.flags, 4, tail);
    } else {
      FlagTaken(false, tail);
    }
  }

  lemma MetadataAppended(buf: Bytes, m: Option<Metadata>, tail: Bytes)
    ensures PutMetadata(buf, m) + tail == buf + WriteMetadata(m, tail)
  {
    if m.Some? {
      var b0 := PutFlag(buf, true);
      var b1 := PutInt(b0, m.value.totalSize, 8);
      var b2 := PutInt(b1, m.value.chunkCount, 8);
      var t2 := WriteInt(m.value.flags, 4, tail);
      var t1 := WriteInt(m.value.chunkCount, 8, t2);
      IntAppended(b2, m.value.flags, 4, tail);
      IntAppended(b1, m.value.chunkCount, 8, t2);
      IntAppended(b0, m.value.totalSize, 8, t1);
      FlagAppended(buf, true, WriteInt(m.value.totalSize, 8, t1));
    } else {
      FlagAppended(buf, false, tail);
    }
  }

  function PutTtl(buf: Bytes, ttl: Option<i64>): Bytes {
    var b := PutFlag(buf, ttl.Some?);
    if ttl.Some? then PutInt(b, Pattern(ttl.value), 8) else b
  }

  function WriteTtl(ttl: Option<i64>, tail: Bytes): Bytes {
    WriteFlag(ttl.Some?, if ttl.Some? then WriteInt(Pattern(ttl.value), 8, tail) else tail)
  }

  function TakeTtl(d: Bytes): (r: Outcome<Got<Option<i64>>>)
    ensures r.Ok? ==> |d| == TtlSize(r.value.value) + |r.value.rest|
  {
    Powers();
    var has :- TakeFlag(d);
    if !has.value then Ok(Got(None, has.rest))
    else
      var count :- TakeInt(has.rest, 8);
      Ok(Got(Some(Seconds(count.value)), count.rest))
  }

  function TtlSize(ttl: Option<i64>): nat { if ttl.Some? then 9 else 1 }

  lemma TtlTaken(ttl: Option<i64>, tail: Bytes)
    ensures TakeTtl(WriteTtl(ttl, tail)) == Ok(Got(ttl, tail))
  {
    Powers();
    if ttl.Some? {
      FlagTaken(true, WriteInt(Pattern(ttl.value), 8, tail));
      IntTaken(Pattern(ttl.value), 8, tail);
    } else {
      FlagTaken(false, tail);
    }
  }

  lemma TtlAppended(buf: Bytes, ttl: Option<i64>, tail: Bytes)
    ensures PutTtl(buf, ttl) + tail == buf + WriteTtl(ttl, tail)
  {
    if ttl.Some? {
      IntAppended(PutFlag(buf, true), Pattern(ttl.value), 8, tail);
      FlagAppended(buf, true, WriteInt(Pattern(ttl.value), 8, tail));
    } else {
      FlagAppended(buf, false, tail);
    }
  }
}
