/** The hash ring object. Its methods are proved against RingSpec, with each node's points given by HashPoint. */
module HashRings {
  import opened Bytes
  import H = HashPoint
  import S = RingSpec
  import RT = RingTheorems
  import T = RingStability
  import W = RingWalks
  import O = RingOrder

  type NodeId = H.NodeId

  /** The points of a node's virtual nodes. */
  function Places(virtualNodes: u64, id: NodeId): (points: seq<nat>)
    ensures |points| == virtualNodes
  {
    seq(virtualNodes, i requires 0 <= i < virtualNodes => H.Point(id, i))
  }

  /** A ring whose nodes have no colliding points, by the exact condition on ids and replica numbers. */
  ghost predicate Apart(virtualNodes: u64, a: NodeId, b: NodeId) {
    forall i: u64, j: u64 :: i < virtualNodes && j < virtualNodes ==>
      H.Xor(a, b) != H.Xor(H.Times(i, H.SCALE), H.Times(j, H.SCALE))
  }

  ghost predicate Disjoint(a: seq<nat>, b: seq<nat>) {
    forall p :: p in a ==> p !in b
  }

  lemma ApartPlaces(virtualNodes: u64, a: NodeId, b: NodeId)
    ensures Apart(virtualNodes, a, b) <==> Disjoint(Places(virtualNodes, a), Places(virtualNodes, b))
  {
    var one, other := Places(virtualNodes, a), Places(virtualNodes, b);
    if Apart(virtualNodes, a, b) {
      forall p | p in one && p in other ensures false {
        var i :| 0 <= i < |one| && one[i] == p;
        var j :| 0 <= j < |other| && other[j] == p;
        H.PointsCollideIff(a, i, b, j);
      }
    } else {
      var i: u64, j: u64 :| i < virtualNodes && j < virtualNodes
        && H.Xor(a, b) == H.Xor(H.Times(i, H.SCALE), H.Times(j, H.SCALE));
      H.PointsCollideIff(a, i, b, j);
      assert one[i] in one && other[j] in other && one[i] == other[j];
    }
  }

  function Placing(virtualNodes: u64): T.Placement<NodeId> {
    (id: NodeId) => Places(virtualNodes, id)
  }

  lemma CollisionlessMeans(place: T.Placement<NodeId>, all: set<NodeId>)
    ensures T.Collisionless(place, all)
       <==> forall a, b :: a in all && b in all && a != b ==> Disjoint(place(a), place(b))
  {
    if forall a, b :: a in all && b in all && a != b ==> Disjoint(place(a), place(b)) {
      forall a, b, p | a in all && b in all && p in place(a) && p in place(b) ensures a == b {
        assert a != b ==> Disjoint(place(a), place(b));
      }
    }
  }

  /** The nodes collide nowhere exactly when no two ids differ by a difference of scaled replica numbers. */
  lemma CollisionlessIff(virtualNodes: u64, all: set<NodeId>)
    ensures T.Collisionless(Placing(virtualNodes), all)
       <==> forall a, b :: a in all && b in all && a != b ==> Apart(virtualNodes, a, b)
    ensures W.Populated(Placing(virtualNodes), all) <==> virtualNodes > 0 || all == {}
  {
    CollisionlessMeans(Placing(virtualNodes), all);
    forall a, b | a in all && b in all && a != b
      ensures Apart(virtualNodes, a, b) <==> Disjoint(Placing(virtualNodes)(a), Placing(virtualNodes)(b))
    {
      ApartPlaces(virtualNodes, a, b);
    }
  }

  /**
   Collisions starve nodes. With two virtual nodes every node has the same two points as one other. After both have
   joined only the second owns any, so a request for two nodes never returns; after it has left again the first is
   still in the ring and has no point.
   */
  lemma TwoNodesStarve(id: NodeId, hash: nat, turns: nat)
    ensures var other := H.Combine(id, 1);
      var one := S.AddNode(S.Empty(), Places(2, id), id);
      var both := S.AddNode(one, Places(2, other), other);
      && other != id && both.nodes == {id, other} && both.points != [] && S.Listed(both)
      && W.GoesOn(both, hash, 2, turns)
      && S.RemoveNode(both, Places(2, other), other) == S.Ring([], map[], {id})
  {
    var other := H.Combine(id, 1);
    H.FirstTwoShared(id);
    PlacesShared(id, other, 2, 0, 1);
    SamePlacesStarve(id, other, Places(2, id), Places(2, other), hash, turns);
  }

  lemma PlacesShared(id: NodeId, other: NodeId, n: u64, i: u64, j: u64)
    requires n == 2 && i == 0 && j == 1
    requires H.Point(other, i) == H.Point(id, j) && H.Point(other, j) == H.Point(id, i)
    ensures forall p :: p in Places(n, id) ==> p in Places(n, other)
  {
    var mine, theirs := Places(n, id), Places(n, other);
    assert mine[i] == theirs[j] && mine[j] == theirs[i];
    assert mine == [mine[i], mine[j]];
  }

  lemma SamePlacesStarve(id: NodeId, other: NodeId, mine: seq<nat>, theirs: seq<nat>, hash: nat, turns: nat)
    requires other != id && theirs != [] && forall p :: p in mine ==> p in theirs
    ensures var one := S.AddNode(S.Empty(), mine, id);
      var both := S.AddNode(one, theirs, other);
      && both.nodes == {id, other} && both.points != [] && S.Listed(both)
      && W.GoesOn(both, hash, 2, turns)
      && S.RemoveNode(both, theirs, other) == S.Ring([], map[], {id})
  {
    RT.AddPointsEffect(S.Ring([], map[], {id}), mine, id);
    assert S.Empty<NodeId>().(nodes := {} + {id}) == S.Ring([], map[], {id});
    W.TakeoverStarves(S.AddNode(S.Empty(), mine, id), theirs, other, hash, turns);
  }

  /** The position after a number of turns of the first lap, before wrapping. */
  function Index(points: seq<nat>, hash: nat, turns: nat): int {
    var k := S.LowerBound(points, hash);
    if turns <= |points| - k then k + turns else turns - (|points| - k)
  }

  lemma AtTurn(points: seq<nat>, owner: map<nat, NodeId>, hash: nat, turns: nat)
    requires turns < |points| && S.AllOwned(owner, S.Clockwise(points, hash))
    ensures var i := Index(points, hash, turns);
      var it := if i == |points| then 0 else i;
      0 <= it < |points| && points[it] in owner
      && S.Owners(owner, S.Clockwise(points, hash))[turns] == owner[points[it]]
  {
    W.OwnerAt(owner, S.Clockwise(points, hash), turns);
  }

  /** With too few collected, the first lap is not over. */
  lemma NotYet(owners: seq<NodeId>, turns: nat, wanted: nat)
    requires turns <= |owners| && |S.Distinct(owners[..turns])| < wanted <= |S.Distinct(owners)|
    ensures turns < |owners|
  {
    assert owners[..|owners|] == owners;
  }

  lemma Collected(owners: seq<NodeId>, turns: nat, wanted: nat)
    requires turns <= |owners| && |S.Distinct(owners[..turns])| == wanted <= |S.Distinct(owners)|
    ensures S.Distinct(owners[..turns]) == S.Distinct(owners)[..wanted]
  {
    W.DistinctPrefix(owners, turns);
  }

  class HashRing {
    const virtualNodes: u64
    var points: seq<nat>
    var owner: map<nat, NodeId>
    var nodes: set<NodeId>

    ghost function Model(): S.Ring<NodeId>
      reads this
    {
      S.Ring(points, owner, nodes)
    }

    /** The points are in order and owned, each by a node of the ring that has it among its places. */
    ghost predicate Valid()
      reads this
    {
      S.Listed(Model()) && W.OwnersPlaced(Model(), Placing(virtualNodes))
    }

    constructor (virtualNodes: u64)
      ensures Valid() && Model() == S.Empty() && this.virtualNodes == virtualNodes
    {
      this.virtualNodes := virtualNodes;
      points, owner, nodes := [], map[], {};
    }

    method AddNode(id: NodeId)
      requires Valid()
      modifies this
      ensures Valid() && Model() == S.AddNode(old(Model()), Places(virtualNodes, id), id)
    {
      W.AddKeepsPlaced(Model(), Placing(virtualNodes), id);
      if id in nodes { return; }
      nodes := nodes + {id};
      ghost var places := Places(virtualNodes, id);
      ghost var goal := S.AddPoints(Model(), places, id);
      var i := 0;
      assert places[0..] == places;
      while i < virtualNodes
        invariant 0 <= i <= virtualNodes && S.AddPoints(Model(), places[i..], id) == goal
      {
        assert places[i..][1..] == places[i + 1..];
        var point := H.Point(id, i);
        points := S.InsertPoint(points, point);
        owner := owner[point := id];
        i := i + 1;
      }
    }

    method RemoveNode(id: NodeId)
      requires Valid()
      modifies this
      ensures Valid() && Model() == S.RemoveNode(old(Model()), Places(virtualNodes, id), id)
    {
      W.RemoveKeepsPlaced(Model(), Placing(virtualNodes), id);
      if id !in nodes { return; }
      nodes := nodes - {id};
      ghost var places := Places(virtualNodes, id);
      ghost var goal := S.RemovePoints(Model(), places);
      var i := 0;
      assert places[0..] == places;
      while i < virtualNodes
        invariant 0 <= i <= virtualNodes && S.RemovePoints(Model(), places[i..]) == goal
      {
        assert places[i..][1..] == places[i + 1..];
        var point := H.Point(id, i);
        points := S.ErasePoint(points, point);
        owner := owner - {point};
        i := i + 1;
      }
    }

    /** One turn: take the owner at the position, unless it was seen. */
    method Visit(ghost owners: seq<NodeId>, ghost turns: nat, it: nat, before: seq<NodeId>, known: set<NodeId>)
        returns (result: seq<NodeId>, seen: set<NodeId>)
      requires it < |points| && points[it] in owner && turns < |owners| && owners[turns] == owner[points[it]]
      requires before == S.Distinct(owners[..turns])
      requires known == (set n | n in before) && |known| == |before|
      ensures result == S.Distinct(owners[..turns + 1]) && |before| <= |result| <= |before| + 1
      ensures seen == (set n | n in result) && |seen| == |result|
    {
      assert owners[..turns + 1] == owners[..turns] + [owners[turns]];
      W.DistinctAppend(owners[..turns], owners[turns]);
      W.DistinctFrom(owners[..turns], owners[turns]);
      result, seen := before, known;
      if owner[points[it]] !in known {
        seen := seen + {owner[points[it]]};
        result := result + [owner[points[it]]];
      }
    }

    /** Walk the ring clockwise from a hash until `wanted` distinct owners are collected. */
    method Walk(hash: nat, wanted: nat, ghost owners: seq<NodeId>) returns (result: seq<NodeId>)
      requires S.AllOwned(owner, points) && S.AllOwned(owner, S.Clockwise(points, hash)) && points != []
      requires owners == S.Owners(owner, S.Clockwise(points, hash))
      requires 0 < wanted <= |S.Distinct(owners)| && wanted <= |nodes|
      ensures result == S.Distinct(owners)[..wanted]
    {
      result := [];
      var seen := {};
      var it := S.LowerBound(points, hash);
      ghost var turns := 0;
      while |result| < wanted
        invariant 0 <= turns <= |points| && it == Index(points, hash, turns)
        invariant result == S.Distinct(owners[..turns]) && |result| <= wanted
        invariant seen == (set n | n in result) && |seen| == |result|
        decreases |points| - turns
      {
        NotYet(owners, turns, wanted);
        AtTurn(points, owner, hash, turns);
        if it == |points| { it := 0; }
        result, seen := Visit(owners, turns, it, result, seen);
        it := it + 1;
        turns := turns + 1;
        if |seen| >= |nodes| { break; }
      }
      Collected(owners, turns, wanted);
    }

    method GetNodes(hash: nat, count: nat) returns (result: seq<NodeId>)
      requires Valid() && S.Terminates(Model(), hash, count)
      ensures result == S.GetNodes(Model(), hash, count)
    {
      if points == [] { return []; }
      var wanted := Min(count, |nodes|);
      if wanted == 0 { wanted := 1; }
      assert points[0] in owner && owner[points[0]] in nodes;
      S.TurnOwned(owner, points, hash);
      result := Walk(hash, wanted, S.Owners(owner, S.Clockwise(points, hash)));
    }

    /** A node is responsible for a hash when it owns the first point at or after it, or else the lowest one. */
    method IsResponsible(node: NodeId, hash: nat) returns (r: bool)
      requires Valid() && S.Terminates(Model(), hash, 1)
      ensures r <==> exists p :: O.IsNext(Model(), hash, p) && owner[p] == node
    {
      var nodes := GetNodes(hash, 1);
      r := nodes != [] && nodes[0] == node;
      if points != [] {
        ghost var p := O.NextExists(Model(), hash);
        O.PreferenceStarts(Model(), hash, p);
      }
    }
  }
}
