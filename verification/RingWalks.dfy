/**
 Walking the ring. The walk collects owners clockwise, wrapping around, until it has enough distinct ones. It ends
 exactly when there are enough (`WalkEndsIff`); without collisions there always are, and it returns the wanted number
 of distinct nodes, a smaller request a prefix of a larger one's answer.
 */
module RingWalks {
  import opened Bytes
  import opened RingSpec
  import opened RingTheorems
  import opened RingStability

  ghost predicate NoRepeats<T>(s: seq<T>) {
    forall i, j :: 0 <= i < j < |s| ==> s[i] != s[j]
  }

  lemma {:induction false} DistinctFrom<T>(s: seq<T>, x: T)
    ensures x in Distinct(s) <==> x in s
    decreases |s|
  {
    if s != [] {
      DistinctFrom(Without(s[1..], s[0]), x);
      WithoutMembers(s[1..], s[0]);
      assert x in s <==> x == s[0] || x in s[1..];
    }
  }

  lemma {:induction false} DistinctOnce<T>(s: seq<T>)
    ensures NoRepeats(Distinct(s))
    decreases |s|
  {
    if s != [] {
      var rest := Without(s[1..], s[0]);
      DistinctOnce(rest);
      var tail := Distinct(rest);
      forall i | 0 <= i < |tail| ensures tail[i] != s[0] {
        DistinctFrom(rest, tail[i]);
        WithoutMembers(s[1..], s[0]);
      }
    }
  }

  /** One more element is added at the end, unless it was seen. */
  lemma {:induction false} DistinctAppend<T>(s: seq<T>, x: T)
    ensures Distinct(s + [x]) == if x in s then Distinct(s) else Distinct(s) + [x]
    decreases |s|
  {
    if s != [] {
      assert (s + [x])[1..] == s[1..] + [x];
      WithoutAppend(s[1..], x, s[0]);
      DistinctAppend(Without(s[1..], s[0]), x);
      WithoutMembers(s[1..], s[0]);
      assert forall y :: y in s <==> y == s[0] || y in s[1..];
    }
  }

  lemma {:induction false} WithoutAppend<T>(s: seq<T>, x: T, y: T)
    ensures Without(s + [x], y) == if x == y then Without(s, y) else Without(s, y) + [x]
  {
    if s != [] {
      assert (s + [x])[1..] == s[1..] + [x];
      WithoutAppend(s[1..], x, y);
    }
  }

  lemma {:induction false} DistinctPrefix<T>(s: seq<T>, k: nat)
    requires k <= |s|
    ensures Distinct(s[..k]) <= Distinct(s)
    decreases |s| - k
  {
    if k == |s| {
      assert s[..k] == s;
    } else {
      DistinctPrefix(s, k + 1);
      assert s[..k + 1] == s[..k] + [s[k]];
      DistinctAppend(s[..k], s[k]);
    }
  }

  // ----- the walk, turn by turn ------------------------------------------------------------------------------

  /** The position after a number of turns around `n` points. */
  function Position(n: pos, turns: nat): (i: nat)
    ensures i < n
  {
    if turns == 0 then 0 else var i := Position(n, turns - 1) + 1; if i == n then 0 else i
  }

  /** What the walk has collected after a number of turns. */
  function Collected<Node(==)>(owners: seq<Node>, turns: nat): (seen: seq<Node>)
    requires owners != []
  {
    if turns == 0 then []
    else
      var before, x := Collected(owners, turns - 1), owners[Position(|owners|, turns - 1)];
      if x in before then before else before + [x]
  }

  lemma {:induction false} FirstLap(n: pos, turns: nat)
    requires turns < n
    ensures Position(n, turns) == turns
    decreases turns
  {
    if turns > 0 { FirstLap(n, turns - 1); }
  }

  lemma {:induction false} CollectedFirstLap<Node>(owners: seq<Node>, turns: nat)
    requires owners != [] && turns <= |owners|
    ensures Collected(owners, turns) == Distinct(owners[..turns])
    decreases turns
  {
    if turns > 0 {
      CollectedFirstLap(owners, turns - 1);
      FirstLap(|owners|, turns - 1);
      assert owners[..turns] == owners[..turns - 1] + [owners[turns - 1]];
      DistinctAppend(owners[..turns - 1], owners[turns - 1]);
      DistinctFrom(owners[..turns - 1], owners[turns - 1]);
    }
  }

  /** Nothing is collected after the first lap. */
  lemma {:induction false} CollectedLater<Node>(owners: seq<Node>, turns: nat)
    requires owners != [] && turns >= |owners|
    ensures Collected(owners, turns) == Distinct(owners)
    decreases turns
  {
    if turns == |owners| {
      CollectedFirstLap(owners, turns);
      assert owners[..turns] == owners;
    } else {
      CollectedLater(owners, turns - 1);
      DistinctFrom(owners, owners[Position(|owners|, turns - 1)]);
    }
  }

  /** The loop's guard: too few collected, and not yet as many as there are nodes. */
  predicate GoesOn<Node(==)>(r: Ring<Node>, hash: nat, count: nat, turns: nat)
    requires r.points != [] && AllOwned(r.owner, r.points)
  {
    TurnOwned(r.owner, r.points, hash);
    var seen := Collected(Owners(r.owner, Clockwise(r.points, hash)), turns);
    |seen| < Wanted(r, count) && (turns == 0 || |seen| < |r.nodes|)
  }

  /** How many distinct owners the ring has; from whatever hash the walk starts, it can collect that many. */
  lemma PreferenceCounts<Node>(r: Ring<Node>, hash: nat)
    requires Listed(r)
    ensures AllOwned(r.owner, r.points) && |Preference(r, hash)| == |r.owner.Values|
  {
    TurnListed(r, hash);
    var turn := Clockwise(r.points, hash);
    var owners, l := Owners(r.owner, turn), Preference(r, hash);
    forall n ensures n in l <==> n in r.owner.Values {
      DistinctFrom(owners, n);
      if n in owners {
        var i :| 0 <= i < |owners| && owners[i] == n;
        OwnerAt(r.owner, turn, i);
      }
      if n in r.owner.Values {
        var p :| p in r.owner && r.owner[p] == n;
        var i :| 0 <= i < |turn| && turn[i] == p;
        OwnerAt(r.owner, turn, i);
      }
    }
    DistinctOnce(owners);
    SizeOfDistinct(l, r.owner.Values);
  }

  /**
   The walk stops at some turn exactly when the ring has as many distinct owners as are wanted, from whatever hash it
   starts; otherwise it goes on forever.
   */
  lemma WalkEndsIff<Node>(r: Ring<Node>, hash: nat, count: nat)
    requires Listed(r) && r.points != [] && r.nodes != {}
    ensures (exists turns: nat :: !GoesOn(r, hash, count, turns)) <==> Wanted(r, count) <= |r.owner.Values|
    ensures Terminates(r, hash, count) <==> Wanted(r, count) <= |r.owner.Values|
  {
    PreferenceCounts(r, hash);
    TurnOwned(r.owner, r.points, hash);
    var owners := Owners(r.owner, Clockwise(r.points, hash));
    CollectedLater(owners, |owners|);
    if Terminates(r, hash, count) {
      assert !GoesOn(r, hash, count, |owners|);
    } else {
      forall turns: nat ensures GoesOn(r, hash, count, turns) {
        if turns >= |owners| {
          CollectedLater(owners, turns);
        } else {
          CollectedFirstLap(owners, turns);
          DistinctPrefix(owners, turns);
        }
      }
    }
  }

  // ----- what is returned ------------------------------------------------------------------------------------

  lemma {:induction false} SizeOfDistinct<T>(s: seq<T>, all: set<T>)
    requires NoRepeats(s) && (forall x :: x in s <==> x in all)
    ensures |s| == |all|
    decreases |s|
  {
    if s == [] {
      assert all == {};
    } else {
      var rest, x := s[..|s| - 1], s[|s| - 1];
      assert s == rest + [x];
      SizeOfDistinct(rest, all - {x});
      assert all == (all - {x}) + {x};
    }
  }

  lemma {:induction false} OwnerAt<Node>(owner: map<nat, Node>, s: seq<nat>, i: nat)
    requires i < |s| && AllOwned(owner, s)
    ensures Owners(owner, s)[i] == owner[s[i]]
    decreases |s|
  {
    if i > 0 { OwnerAt(owner, s[1..], i - 1); }
  }

  ghost predicate Populated<Node>(place: Placement<Node>, all: set<Node>) {
    forall n :: n in all ==> place(n) != []
  }

  lemma TurnMembers(s: seq<nat>, hash: nat)
    ensures forall p :: p in Clockwise(s, hash) <==> p in s
  {
    var k := LowerBound(s, hash);
    assert s == s[..k] + s[k..];
  }

  lemma TurnListed<Node>(r: Ring<Node>, hash: nat)
    requires Listed(r)
    ensures Members(Clockwise(r.points, hash), r.owner.Keys) && AllOwned(r.owner, Clockwise(r.points, hash))
  {
    TurnMembers(r.points, hash);
    TurnOwned(r.owner, r.points, hash);
  }

  lemma OwnerIsNode<Node>(r: Ring<Node>, place: Placement<Node>, points: seq<nat>, n: Node)
    requires Owned(r, place) && AllOwned(r.owner, points)
    requires n in Owners(r.owner, points)
    ensures n in r.nodes
  {
    var i :| 0 <= i < |points| && Owners(r.owner, points)[i] == n;
    OwnerAt(r.owner, points, i);
  }

  lemma NodeIsOwner<Node>(r: Ring<Node>, place: Placement<Node>, points: seq<nat>, n: Node)
    requires Owned(r, place) && n in r.nodes && place(n) != [] && place(n)[0] in points
    requires AllOwned(r.owner, points)
    ensures n in Owners(r.owner, points)
  {
    var i :| 0 <= i < |points| && points[i] == place(n)[0];
    OwnerAt(r.owner, points, i);
    assert place(n)[0] in place(n);
  }

  lemma OwnersAreNodes<Node>(r: Ring<Node>, place: Placement<Node>, points: seq<nat>)
    requires Owned(r, place) && Populated(place, r.nodes) && Members(points, r.owner.Keys)
    ensures forall n :: n in Owners(r.owner, points) <==> n in r.nodes
  {
    forall n | n in r.nodes ensures n in Owners(r.owner, points) {
      assert place(n)[0] in place(n);
      NodeIsOwner(r, place, points, n);
    }
    forall n | n in Owners(r.owner, points) ensures n in r.nodes {
      OwnerIsNode(r, place, points, n);
    }
  }

  lemma ListNamesAll<Node>(owners: seq<Node>, nodes: set<Node>)
    requires forall n :: n in owners <==> n in nodes
    ensures NoRepeats(Distinct(owners)) && |Distinct(owners)| == |nodes|
    ensures forall i :: 0 <= i < |Distinct(owners)| ==> Distinct(owners)[i] in nodes
    ensures forall n :: n in nodes ==> n in Distinct(owners)
  {
    var l := Distinct(owners);
    DistinctOnce(owners);
    forall n ensures n in l <==> n in owners { DistinctFrom(owners, n); }
    forall i | 0 <= i < |l| ensures l[i] in nodes { DistinctFrom(owners, l[i]); }
    SizeOfDistinct(l, nodes);
  }

  /** Without collisions and with at least one point each, a preference list names every node once. */
  lemma PreferenceIsAll<Node>(r: Ring<Node>, place: Placement<Node>, hash: nat)
    requires Listed(r) && Owned(r, place) && Populated(place, r.nodes)
    ensures NoRepeats(Preference(r, hash)) && |Preference(r, hash)| == |r.nodes|
    ensures forall i :: 0 <= i < |Preference(r, hash)| ==> Preference(r, hash)[i] in r.nodes
    ensures forall n :: n in r.nodes ==> n in Preference(r, hash)
  {
    TurnListed(r, hash);
    OwnersAreNodes(r, place, Clockwise(r.points, hash));
    ListNamesAll(Owners(r.owner, Clockwise(r.points, hash)), r.nodes);
  }

  lemma NodesHavePoints<Node>(r: Ring<Node>, place: Placement<Node>)
    requires Listed(r) && Owned(r, place) && Populated(place, r.nodes) && r.nodes != {}
    ensures r.points != []
  {
    var n :| n in r.nodes;
    assert place(n)[0] in place(n);
    assert place(n)[0] in r.points;
  }

  /**
   Without collisions the walk ends and returns min(max(count, 1), number of nodes) distinct nodes of the ring, in
   order of first appearance, and a smaller request returns a prefix.
   */
  lemma GetNodesExact<Node>(r: Ring<Node>, place: Placement<Node>, hash: nat, count: nat, fewer: nat)
    requires Listed(r) && Owned(r, place) && Populated(place, r.nodes) && r.nodes != {} && fewer <= count
    ensures Terminates(r, hash, count) && Terminates(r, hash, fewer)
    ensures var l := GetNodes(r, hash, count);
      && |l| == Min(Max(count, 1), |r.nodes|)
      && NoRepeats(l)
      && (forall i :: 0 <= i < |l| ==> l[i] in r.nodes)
      && GetNodes(r, hash, fewer) <= l <= Preference(r, hash)
  {
    PreferenceIsAll(r, place, hash);
    NodesHavePoints(r, place);
  }

  // ----- with collisions -------------------------------------------------------------------------------------

  /** Whoever owns a point is a node of the ring, and the point is one of its places; it need not own all of them. */
  ghost predicate OwnersPlaced<Node>(r: Ring<Node>, place: Placement<Node>) {
    forall p :: p in r.owner ==> r.owner[p] in r.nodes && p in place(r.owner[p])
  }

  lemma AddKeepsPlaced<Node>(r: Ring<Node>, place: Placement<Node>, id: Node)
    requires Listed(r) && OwnersPlaced(r, place)
    ensures Listed(AddNode(r, place(id), id)) && OwnersPlaced(AddNode(r, place(id), id), place)
  {
    if id !in r.nodes { AddPointsEffect(r.(nodes := r.nodes + {id}), place(id), id); }
  }

  /** A leaving node takes all its places along, its own and those that changed hands; what is left is placed. */
  lemma RemoveKeepsPlaced<Node>(r: Ring<Node>, place: Placement<Node>, id: Node)
    requires Listed(r) && OwnersPlaced(r, place)
    ensures Listed(RemoveNode(r, place(id), id)) && OwnersPlaced(RemoveNode(r, place(id), id), place)
  {
    if id in r.nodes { RemovePointsEffect(r.(nodes := r.nodes - {id}), place(id)); }
  }

  /** After every history of joins and leaves, with or without collisions. */
  lemma {:induction false} RunPlaced<Node>(place: Placement<Node>, changes: seq<Change<Node>>)
    ensures var r := Run(place, changes); Listed(r) && OwnersPlaced(r, place) && r.nodes == After(changes)
    decreases |changes|
  {
    if changes != [] {
      RunPlaced(place, changes[..|changes| - 1]);
      ApplyPlaced(Run(place, changes[..|changes| - 1]), place, changes[|changes| - 1]);
    }
  }

  lemma ApplyPlaced<Node>(r: Ring<Node>, place: Placement<Node>, change: Change<Node>)
    requires Listed(r) && OwnersPlaced(r, place)
    ensures var r' := Apply(r, place, change);
      && Listed(r') && OwnersPlaced(r', place)
      && r'.nodes == match change case Join(id) => r.nodes + {id} case Leave(id) => r.nodes - {id}
  {
    AddKeepsPlaced(r, place, change.id);
    RemoveKeepsPlaced(r, place, change.id);
    AddListed(r, place(change.id), change.id);
    RemovePointsListed(r.(nodes := r.nodes - {change.id}), place(change.id));
  }

  lemma GetNodesKnown<Node>(r: Ring<Node>, place: Placement<Node>, hash: nat, count: nat)
    requires Listed(r) && OwnersPlaced(r, place) && Terminates(r, hash, count)
    ensures forall i :: 0 <= i < |GetNodes(r, hash, count)| ==> GetNodes(r, hash, count)[i] in r.nodes
  {
    TurnListed(r, hash);
    var points := Clockwise(r.points, hash);
    var owners, l := Owners(r.owner, points), Preference(r, hash);
    forall i | 0 <= i < |l| ensures l[i] in r.nodes {
      DistinctFrom(owners, l[i]);
      var j :| 0 <= j < |owners| && owners[j] == l[i];
      OwnerAt(r.owner, points, j);
    }
  }

  /** So after every history, whatever collides, a walk that ends returns only nodes that are in. */
  lemma RunNodesKnown<Node>(place: Placement<Node>, changes: seq<Change<Node>>, hash: nat, count: nat)
    requires AllOwned(Run(place, changes).owner, Run(place, changes).points)
    requires Terminates(Run(place, changes), hash, count)
    ensures var l := GetNodes(Run(place, changes), hash, count); forall i :: 0 <= i < |l| ==> l[i] in After(changes)
  {
    RunPlaced(place, changes);
    GetNodesKnown(Run(place, changes), place, hash, count);
  }

  lemma {:induction false} AllTheSame<Node>(owner: map<nat, Node>, points: seq<nat>, id: Node)
    requires AllOwned(owner, points) && points != [] && forall i :: 0 <= i < |points| ==> owner[points[i]] == id
    ensures Distinct(Owners(owner, points)) == [id]
  {
    var owners := Owners(owner, points);
    var l := Distinct(owners);
    forall i | 0 <= i < |l| ensures l[i] == id {
      DistinctFrom(owners, l[i]);
      var j :| 0 <= j < |owners| && owners[j] == l[i];
      OwnerAt(owner, points, j);
    }
    assert owners[0] == id by { OwnerAt(owner, points, 0); }
    DistinctFrom(owners, id);
    DistinctOnce(owners);
    SizeOfDistinct(l, {id});
  }

  /**
   A node that joins on top of every owned point starves the others: it is then the only owner, so a request for two
   nodes walks forever from every hash; and when it leaves again the ring is left without a point.
   */
  lemma TakeoverStarves<Node>(r: Ring<Node>, points: seq<nat>, id: Node, hash: nat, turns: nat)
    requires Listed(r) && r.nodes != {} && id !in r.nodes && points != []
    requires forall p :: p in r.owner ==> p in points
    ensures var r' := AddNode(r, points, id);
      && r'.nodes == r.nodes + {id} && r'.points != [] && Listed(r')
      && Preference(r', hash) == [id]
      && GoesOn(r', hash, 2, turns)
      && RemoveNode(r', points, id) == Ring([], map[], r.nodes)
  {
    var joined := r.(nodes := r.nodes + {id});
    AddPointsEffect(joined, points, id);
    var r' := AddNode(r, points, id);
    assert points[0] in r'.owner && r'.points != [];
    TurnListed(r', hash);
    AllTheSame(r'.owner, Clockwise(r'.points, hash), id);
    TwoNodes(r.nodes, id);
    assert !Terminates(r', hash, 2);
    WalkEndsIff(r', hash, 2);
    Emptied(r', points, id);
  }

  lemma TwoNodes<Node>(nodes: set<Node>, id: Node)
    requires nodes != {} && id !in nodes
    ensures |nodes + {id}| >= 2
  {
  }

  lemma Emptied<Node>(r: Ring<Node>, points: seq<nat>, id: Node)
    requires Listed(r) && id in r.nodes && forall p :: p in r.owner ==> p in points
    ensures RemoveNode(r, points, id) == Ring([], map[], r.nodes - {id})
  {
    RemovePointsEffect(r.(nodes := r.nodes - {id}), points);
    var left := RemoveNode(r, points, id);
    assert left.owner == map[];
    RingUnique(left, Ring([], map[], r.nodes - {id}));
  }
}
