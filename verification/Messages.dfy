/** The messages nodes exchange: the ten kinds the codec can both write and read. */
module Messages {
  import opened Options
  import opened Bytes
  import opened HashPoint

  type i64 = x: int | -TWO_63 <= x < TWO_63

  /** What is known of a node; `generation` is its version. */
  datatype NodeInfo = NodeInfo(
    id: NodeId,
    address: Bytes,
    port: u16,
    memoryCapacity: u64,
    memoryUsed: u64,
    diskCapacity: u64,
    diskUsed: u64,
    generation: u64,
    state: u32)

  datatype WireRange = WireRange(offset: u64, length: u64)

  /** A value's metadata; the three times are not carried on the wire. */
  datatype Metadata = Metadata(
    totalSize: u64,
    chunkCount: u64,
    flags: u32,
    createdAt: int,
    lastAccessed: int,
    expiresAt: Option<int>)

  datatype Message =
    | Hello(sender: NodeInfo, clusterName: Bytes, capabilities: seq<Bytes>)
    | HelloAck(sender: NodeInfo, accepted: bool, rejectReason: Bytes)
    | GossipPush(from: NodeId, nodes: seq<NodeInfo>)
    | Get(key: Bytes, metadataOnly: bool, range: Option<WireRange>)
    | GetResponse(result: u32, metadata: Option<Metadata>, data: Bytes, actualRange: WireRange)
    | Put(key: Bytes, data: Bytes, ttl: Option<i64>, flags: u32)
    | PutResponse(code: u32, message: Bytes)
    | Delete(key: Bytes)
    | DeleteResponse(code: u32, existed: bool)
    | Error(code: u32, message: Bytes, originalRequestId: u32)
}
