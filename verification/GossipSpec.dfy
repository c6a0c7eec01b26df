/**
 Cluster membership as a value: the infos a member holds, one per node id, and the ring over those ids. An info is
 taken when its node is new or its generation is strictly greater than the one held.
 */
module GossipSpec {
  import opened Bytes
  import opened HashPoint
  import opened Messages
  import HashRings
  import R = RingSpec

  type Infos = map<NodeId, NodeInfo>

  datatype Member = Member(infos: Infos, ring: R.Ring<NodeId>)

  /** Take an info if it is news. */
  function Merge(infos: Infos, info: NodeInfo): (r: Infos) {
    if info.id in infos && info.generation <= infos[info.id].generation then infos else infos[info.id := info]
  }

  function MergeAll(infos: Infos, news: seq<NodeInfo>): (r: Infos)
    decreases |news|
  {
    if news == [] then infos else MergeAll(Merge(infos, news[0]), news[1..])
  }

  /** A node starts knowing itself. */
  function Start(virtualNodes: u64, self: NodeInfo): (m: Member) {
    Member(map[self.id := self], R.AddNode(R.Empty(), HashRings.Places(virtualNodes, self.id), self.id))
  }

  function Learn(m: Member, virtualNodes: u64, info: NodeInfo): (r: Member) {
    Member(
      Merge(m.infos, info),
      if info.id in m.infos then m.ring
      else R.AddNode(m.ring, HashRings.Places(virtualNodes, info.id), info.id))
  }

  function HandlePush(m: Member, virtualNodes: u64, news: seq<NodeInfo>): (r: Member)
    decreases |news|
  {
    if news == [] then m else HandlePush(Learn(m, virtualNodes, news[0]), virtualNodes, news[1..])
  }
}
