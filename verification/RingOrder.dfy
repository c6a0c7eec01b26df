/**
 Where a preference list starts and how it goes on, in terms of the points alone. It starts with the owner of the first
 point at or after the hash, or of the lowest point when there is none (`PreferenceStarts`); a node comes before another
 exactly when its first point clockwise from the hash does (`PreferenceOrder`).
 */
module RingOrder {
  import opened RingSpec
  import opened RingWalks

  /** Clockwise from a hash, one point comes before another: the points from the hash on before those below it. */
  predicate Sooner(hash: nat, p: nat, q: nat) {
    if (p >= hash) == (q >= hash) then p < q else p >= hash
  }

  /** The first point clockwise from the hash: the least one at or after it, or else the least one of all. */
  ghost predicate IsNext<Node>(r: Ring<Node>, hash: nat, p: nat) {
    && p in r.owner
    && (if exists q :: q in r.owner && q >= hash then p >= hash && forall q :: q in r.owner && q >= hash ==> p <= q
        else forall q :: q in r.owner ==> p <= q)
  }

  /** The first of a node's points clockwise from the hash. */
  ghost predicate IsFirst<Node>(r: Ring<Node>, hash: nat, n: Node, p: nat) {
    && p in r.owner && r.owner[p] == n
    && forall q :: q in r.owner && r.owner[q] == n && q != p ==> Sooner(hash, p, q)
  }

  ghost predicate InTurn(hash: nat, turn: seq<nat>) {
    forall i, j :: 0 <= i < j < |turn| ==> Sooner(hash, turn[i], turn[j])
  }

  lemma TurnInOrder(points: seq<nat>, hash: nat)
    requires Ascending(points)
    ensures InTurn(hash, Clockwise(points, hash))
  {
    var k := LowerBound(points, hash);
    assert forall m :: k <= m < |points| ==> points[m] >= hash;
  }

  // ----- first appearances -----------------------------------------------------------------------------------

  /** The first position of an element. */
  function FirstAt<T(==)>(s: seq<T>, x: T): (i: nat)
    requires x in s
    ensures i < |s| && s[i] == x && forall j :: 0 <= j < i ==> s[j] != x
  {
    if s[0] == x then 0 else 1 + FirstAt(s[1..], x)
  }

  lemma FirstIs<T>(s: seq<T>, x: T, i: nat)
    requires i < |s| && s[i] == x && forall j :: 0 <= j < i ==> s[j] != x
    ensures FirstAt(s, x) == i
  {
  }

  /** Keeping each element once keeps them in order of first appearance. */
  lemma {:induction false} DistinctInOrder<T>(s: seq<T>, a: nat, b: nat)
    requires a < b < |Distinct(s)|
    ensures Distinct(s)[a] in s && Distinct(s)[b] in s && FirstAt(s, Distinct(s)[a]) < FirstAt(s, Distinct(s)[b])
    decreases |s|
  {
    var rest, x := s[..|s| - 1], s[|s| - 1];
    assert s == rest + [x];
    DistinctAppend(rest, x);
    var l := Distinct(rest);
    DistinctFrom(rest, Distinct(s)[a]);
    DistinctFrom(s, Distinct(s)[b]);
    if b < |l| {
      DistinctInOrder(rest, a, b);
      StillFirst(rest, x, l[a]);
      StillFirst(rest, x, l[b]);
    } else {
      DistinctFrom(rest, l[a]);
      assert l[a] in l;
      StillFirst(rest, x, l[a]);
      FirstIs(s, x, |rest|);
    }
  }

  lemma StillFirst<T>(s: seq<T>, x: T, y: T)
    requires y in s
    ensures y in s + [x] && FirstAt(s + [x], y) == FirstAt(s, y)
  {
    FirstIs(s + [x], y, FirstAt(s, y));
  }

  // ----- preference lists ------------------------------------------------------------------------------------

  /** A node's first point is where its name first appears on the turn. */
  lemma FirstPointIs<Node>(r: Ring<Node>, hash: nat, n: Node) returns (p: nat)
    requires Listed(r) && n in r.owner.Values
    ensures var turn := Clockwise(r.points, hash);
      && AllOwned(r.owner, turn)
      && n in Owners(r.owner, turn) && p == turn[FirstAt(Owners(r.owner, turn), n)]
    ensures IsFirst(r, hash, n, p)
  {
    TurnListed(r, hash);
    TurnInOrder(r.points, hash);
    p := FirstOnTurn(r, hash, Clockwise(r.points, hash), n);
  }

  lemma FirstOnTurn<Node>(r: Ring<Node>, hash: nat, turn: seq<nat>, n: Node) returns (p: nat)
    requires InTurn(hash, turn) && Members(turn, r.owner.Keys) && AllOwned(r.owner, turn) && n in r.owner.Values
    ensures n in Owners(r.owner, turn) && p == turn[FirstAt(Owners(r.owner, turn), n)]
    ensures IsFirst(r, hash, n, p)
  {
    var owners := Owners(r.owner, turn);
    var own :| own in r.owner && r.owner[own] == n;
    var k :| 0 <= k < |turn| && turn[k] == own;
    OwnerAt(r.owner, turn, k);
    var i := FirstAt(owners, n);
    OwnerAt(r.owner, turn, i);
    p := turn[i];
    forall q | q in r.owner && r.owner[q] == n && q != p ensures Sooner(hash, p, q) {
      var j :| 0 <= j < |turn| && turn[j] == q;
      OwnerAt(r.owner, turn, j);
      assert i < j;
    }
  }

  /** A list of preferences names exactly the owners, each of which has a first point. */
  lemma PreferenceNames<Node>(r: Ring<Node>, hash: nat, n: Node)
    requires Listed(r)
    ensures AllOwned(r.owner, r.points)
    ensures n in Preference(r, hash) <==> exists p :: IsFirst(r, hash, n, p)
  {
    TurnListed(r, hash);
    var turn := Clockwise(r.points, hash);
    DistinctFrom(Owners(r.owner, turn), n);
    if n in Owners(r.owner, turn) {
      var i :| 0 <= i < |turn| && Owners(r.owner, turn)[i] == n;
      OwnerAt(r.owner, turn, i);
      var p := FirstPointIs(r, hash, n);
    }
    if p :| IsFirst(r, hash, n, p) {
      var q := FirstPointIs(r, hash, n);
    }
  }

  /** A node comes before another exactly when its first point clockwise from the hash does. */
  lemma PreferenceOrder<Node>(r: Ring<Node>, hash: nat, i: nat, j: nat, p: nat, q: nat)
    requires Listed(r)
    requires i < |Preference(r, hash)| && IsFirst(r, hash, Preference(r, hash)[i], p)
    requires j < |Preference(r, hash)| && IsFirst(r, hash, Preference(r, hash)[j], q)
    ensures i < j <==> Sooner(hash, p, q)
  {
    if i < j {
      EarlierIsSooner(r, hash, i, j, p, q);
    } else if j < i {
      EarlierIsSooner(r, hash, j, i, q, p);
    }
  }

  lemma EarlierIsSooner<Node>(r: Ring<Node>, hash: nat, i: nat, j: nat, p: nat, q: nat)
    requires Listed(r) && i < j < |Preference(r, hash)|
    requires IsFirst(r, hash, Preference(r, hash)[i], p) && IsFirst(r, hash, Preference(r, hash)[j], q)
    ensures Sooner(hash, p, q)
  {
    var l := Preference(r, hash);
    var p' := FirstPointIs(r, hash, l[i]);
    var q' := FirstPointIs(r, hash, l[j]);
    assert p == p' && q == q';
    var owners := Owners(r.owner, Clockwise(r.points, hash));
    DistinctInOrder(owners, i, j);
    TurnInOrder(r.points, hash);
  }

  /** The list starts with the owner of the first point at or after the hash, or of the lowest point if none is. */
  lemma PreferenceStarts<Node>(r: Ring<Node>, hash: nat, p: nat)
    requires Listed(r) && IsNext(r, hash, p)
    ensures Preference(r, hash) != [] && Preference(r, hash)[0] == r.owner[p]
  {
    TurnListed(r, hash);
    var turn := Clockwise(r.points, hash);
    var k :| 0 <= k < |turn| && turn[k] == p;
    assert turn[0] in r.owner;
    TurnInOrder(r.points, hash);
    assert turn[0] == p;
    OwnerAt(r.owner, turn, 0);
  }

  lemma NextExists<Node>(r: Ring<Node>, hash: nat) returns (p: nat)
    requires Listed(r) && r.points != []
    ensures IsNext(r, hash, p)
  {
    var k := LowerBound(r.points, hash);
    if k < |r.points| {
      p := r.points[k];
      assert p in r.owner && p >= hash;
    } else {
      p := r.points[0];
    }
  }

  // ----- what a request returns ------------------------------------------------------------------------------

  /** The nodes returned are in order of their first points, starting with the owner of the next one. */
  lemma GetNodesInOrder<Node>(r: Ring<Node>, hash: nat, count: nat, i: nat, j: nat, p: nat, q: nat)
    requires Listed(r) && Terminates(r, hash, count)
    requires i < |GetNodes(r, hash, count)| && IsFirst(r, hash, GetNodes(r, hash, count)[i], p)
    requires j < |GetNodes(r, hash, count)| && IsFirst(r, hash, GetNodes(r, hash, count)[j], q)
    ensures i < j <==> Sooner(hash, p, q)
    ensures i == 0 ==> IsNext(r, hash, p)
  {
    PreferenceOrder(r, hash, i, j, p, q);
    if i == 0 {
      var next := NextExists(r, hash);
      PreferenceStarts(r, hash, next);
      assert next == p;
    }
  }

  /** A node that is not returned is further away than every one that is. */
  lemma GetNodesNearest<Node>(r: Ring<Node>, hash: nat, count: nat, i: nat, p: nat, n: Node, q: nat)
    requires Listed(r) && Terminates(r, hash, count)
    requires i < |GetNodes(r, hash, count)| && IsFirst(r, hash, GetNodes(r, hash, count)[i], p)
    requires n !in GetNodes(r, hash, count) && IsFirst(r, hash, n, q)
    ensures Sooner(hash, p, q)
  {
    PreferenceNames(r, hash, n);
    var l := Preference(r, hash);
    var j :| 0 <= j < |l| && l[j] == n;
    assert forall k :: 0 <= k < |GetNodes(r, hash, count)| ==> GetNodes(r, hash, count)[k] == l[k];
    PreferenceOrder(r, hash, i, j, p, q);
  }
}
