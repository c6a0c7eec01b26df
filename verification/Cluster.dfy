/** The cluster object and its nodes. `Model()` is a member of GossipSpec; its methods are proved against that. */
module Clusters {
  import opened Bytes
  import opened HashPoint
  import opened Messages
  import opened HashRings
  import G = GossipSpec
  import T = GossipTheorems
  import R = RingSpec
  import W = RingWalks

  class ClusterNode {
    var info: NodeInfo

    constructor (info: NodeInfo)
      ensures this.info == info
    {
      this.info := info;
    }

    /** Only a strictly greater generation replaces what is known. */
    method Update(info: NodeInfo)
      modifies this
      ensures this.info == if info.generation > old(this.info.generation) then info else old(this.info)
    {
      if info.generation > this.info.generation {
        this.info := info;
      }
    }
  }

  class Cluster {
    const replicationFactor: nat
    const ring: HashRing
    var nodes: map<NodeId, ClusterNode>

    ghost function Infos(): G.Infos
      reads this, nodes.Values
    {
      map id | id in nodes :: nodes[id].info
    }

    ghost function Model(): G.Member
      reads this, ring, nodes.Values
    {
      G.Member(Infos(), ring.Model())
    }

    /** Every node is filed under its id. */
    ghost predicate Filed()
      reads this, nodes.Values
    {
      forall id :: id in nodes ==> nodes[id].info.id == id
    }

    ghost predicate Valid()
      reads this, ring, nodes.Values
    {
      Filed() && nodes != map[] && T.Routed(Model(), ring.virtualNodes)
    }

    constructor (virtualNodes: u64, replicationFactor: nat, self: NodeInfo)
      ensures Filed() && fresh(ring) && fresh(nodes.Values)
      ensures ring.virtualNodes == virtualNodes && this.replicationFactor == replicationFactor
      ensures Infos() == map[self.id := self]
      ensures ring.Model() == R.AddNode(R.Empty(), Places(virtualNodes, self.id), self.id)
    {
      this.replicationFactor := replicationFactor;
      var local := new ClusterNode(self);
      var hashRing := new HashRing(virtualNodes);
      hashRing.AddNode(self.id);
      this.ring := hashRing;
      this.nodes := map[self.id := local];
    }

    /** A new cluster is a member that knows itself. */
    lemma StartsValid(self: NodeInfo)
      requires Filed() && Infos() == map[self.id := self]
      requires ring.Model() == R.AddNode(R.Empty(), Places(ring.virtualNodes, self.id), self.id)
      ensures Valid() && Model() == G.Start(ring.virtualNodes, self)
    {
      assert self.id in Infos();
      T.StartRouted(ring.virtualNodes, self);
    }

    method GetNode(id: NodeId) returns (node: ClusterNode?)
      ensures node != null <==> id in nodes
      ensures node != null ==> node == nodes[id]
    {
      if id in nodes { node := nodes[id]; } else { node := null; }
    }

    /** The info of a known node. */
    method Refresh(info: NodeInfo)
      requires Filed() && info.id in nodes
      modifies nodes[info.id]
      ensures Filed() && Infos() == G.Merge(old(Infos()), info)
    {
      nodes[info.id].Update(info);
    }

    method Admit(info: NodeInfo)
      requires Filed() && info.id !in nodes && ring.Valid()
      modifies this, ring
      ensures Filed() && fresh(nodes.Values - old(nodes.Values)) && nodes.Keys == old(nodes.Keys) + {info.id}
      ensures Infos() == G.Merge(old(Infos()), info)
      ensures ring.Model() == R.AddNode(old(ring.Model()), Places(ring.virtualNodes, info.id), info.id)
    {
      var node := new ClusterNode(info);
      nodes := nodes[info.id := node];
      ring.AddNode(info.id);
    }

    method HandleNodeUpdate(info: NodeInfo)
      requires Valid()
      modifies this, ring, nodes.Values
      ensures Valid() && fresh(nodes.Values - old(nodes.Values))
      ensures Model() == G.Learn(old(Model()), ring.virtualNodes, info)
    {
      T.LearnKeepsRouted(Model(), ring.virtualNodes, info);
      if info.id in nodes {
        Refresh(info);
      } else {
        Admit(info);
      }
    }

    method HandlePush(news: seq<NodeInfo>)
      requires Valid()
      modifies this, ring, nodes.Values
      ensures Valid() && fresh(nodes.Values - old(nodes.Values))
      ensures Model() == G.HandlePush(old(Model()), ring.virtualNodes, news)
    {
      ghost var goal := G.HandlePush(Model(), ring.virtualNodes, news);
      var rest := news;
      while rest != []
        invariant Valid() && fresh(nodes.Values - old(nodes.Values))
        invariant G.HandlePush(Model(), ring.virtualNodes, rest) == goal
        decreases |rest|
      {
        HandleNodeUpdate(rest[0]);
        rest := rest[1..];
      }
    }

    /** A push of every info held, in no particular order. */
    method PreparePush() returns (push: seq<NodeInfo>)
      ensures T.PushOf(Infos(), push)
    {
      push := [];
      var left := nodes.Keys;
      while left != {}
        invariant left <= nodes.Keys
        invariant forall info :: info in push ==> info in Infos().Values
        invariant forall id :: id in nodes && id !in left ==> nodes[id].info in push
        decreases left
      {
        var id :| id in left;
        assert Infos()[id] in Infos().Values;
        push := push + [nodes[id].info];
        left := left - {id};
      }
      forall info | info in Infos().Values ensures info in T.InfosIn(push) {
        var id :| id in Infos() && Infos()[id] == info;
      }
    }

    /** The nodes for a key, nearest first; none that the ring names is dropped. */
    method NodesForKey(hash: nat, count: nat) returns (result: seq<ClusterNode>)
      requires Valid() && R.Terminates(ring.Model(), hash, if count == 0 then replicationFactor else count)
      ensures var ids := R.GetNodes(ring.Model(), hash, if count == 0 then replicationFactor else count);
        |result| == |ids| && forall i :: 0 <= i < |ids| ==> ids[i] in nodes && result[i] == nodes[ids[i]]
    {
      var n := if count == 0 then replicationFactor else count;
      W.GetNodesKnown(ring.Model(), Placing(ring.virtualNodes), hash, n);
      var ids := ring.GetNodes(hash, n);
      result := [];
      for i := 0 to |ids|
        invariant |result| == i && forall j :: 0 <= j < i ==> ids[j] in nodes && result[j] == nodes[ids[j]]
      {
        var node := GetNode(ids[i]);
        if node != null { result := result + [node]; }
      }
    }
  }
}
