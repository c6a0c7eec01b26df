/**
 Rings without collisions: no two nodes in play share a point. Then the ring depends on the set of nodes alone,
 removing a node deletes it from every preference list, and adding one only inserts it.
 */
module RingStability {
  import opened RingSpec
  import opened RingTheorems

  type Placement<!Node> = Node -> seq<nat>

  ghost predicate Collisionless<Node>(place: Placement<Node>, all: set<Node>) {
    forall a, b, p :: a in all && b in all && p in place(a) && p in place(b) ==> a == b
  }

  /** Every node owns its points, and no point is owned otherwise. */
  ghost predicate Owned<Node>(r: Ring<Node>, place: Placement<Node>) {
    && (forall p :: p in r.owner ==> r.owner[p] in r.nodes && p in place(r.owner[p]))
    && (forall n, p :: n in r.nodes && p in place(n) ==> p in r.owner && r.owner[p] == n)
  }

  lemma AddListed<Node>(r: Ring<Node>, points: seq<nat>, id: Node)
    requires Listed(r)
    ensures Listed(AddNode(r, points, id)) && AddNode(r, points, id).nodes == r.nodes + {id}
  {
    AddPointsListed(r.(nodes := r.nodes + {id}), points, id);
  }

  lemma AddKeepsOwned<Node>(r: Ring<Node>, place: Placement<Node>, id: Node)
    requires Listed(r) && Owned(r, place) && Collisionless(place, r.nodes + {id})
    ensures var r' := AddNode(r, place(id), id);
      Listed(r') && Owned(r', place) && r'.nodes == r.nodes + {id}
  {
    if id !in r.nodes {
      AddPointsEffect(r.(nodes := r.nodes + {id}), place(id), id);
    }
  }

  lemma RemoveKeepsOwned<Node>(r: Ring<Node>, place: Placement<Node>, id: Node)
    requires Listed(r) && Owned(r, place) && Collisionless(place, r.nodes + {id})
    ensures var r' := RemoveNode(r, place(id), id);
      Listed(r') && Owned(r', place) && r'.nodes == r.nodes - {id}
  {
    if id in r.nodes {
      RemovePointsEffect(r.(nodes := r.nodes - {id}), place(id));
    }
  }

  // ----- the ring depends on the node set alone --------------------------------------------------------------

  lemma OwnedUnique<Node>(a: Ring<Node>, b: Ring<Node>, place: Placement<Node>)
    requires Listed(a) && Owned(a, place) && Listed(b) && Owned(b, place) && a.nodes == b.nodes
    ensures a == b
  {
    assert forall p :: p in a.owner ==> p in b.owner && b.owner[p] == a.owner[p];
    assert forall p :: p in b.owner ==> p in a.owner;
    assert a.owner == b.owner;
    RingUnique(a, b);
  }

  datatype Change<Node> = Join(id: Node) | Leave(id: Node)

  function Apply<Node(==)>(r: Ring<Node>, place: Placement<Node>, change: Change<Node>): Ring<Node> {
    match change
    case Join(id) => AddNode(r, place(id), id)
    case Leave(id) => RemoveNode(r, place(id), id)
  }

  function Run<Node(==)>(place: Placement<Node>, changes: seq<Change<Node>>): Ring<Node> {
    if changes == [] then Empty()
    else Apply(Run(place, changes[..|changes| - 1]), place, changes[|changes| - 1])
  }

  /** Who is in after a history of joins and leaves. */
  function After<Node(==)>(changes: seq<Change<Node>>): set<Node> {
    if changes == [] then {}
    else
      var before := After(changes[..|changes| - 1]);
      match changes[|changes| - 1]
      case Join(id) => before + {id}
      case Leave(id) => before - {id}
  }

  lemma {:induction false} RunOwned<Node>(place: Placement<Node>, changes: seq<Change<Node>>, all: set<Node>)
    requires Collisionless(place, all) && forall i :: 0 <= i < |changes| ==> changes[i].id in all
    ensures var r := Run(place, changes);
      Listed(r) && Owned(r, place) && r.nodes == After(changes) && r.nodes <= all
    decreases |changes|
  {
    if changes != [] {
      RunOwned(place, changes[..|changes| - 1], all);
      var r, last := Run(place, changes[..|changes| - 1]), changes[|changes| - 1];
      assert last.id in all;
      AddKeepsOwned(r, place, last.id);
      RemoveKeepsOwned(r, place, last.id);
    }
  }

  /** Two histories that leave the same nodes in leave the same ring. */
  lemma RingDependsOnNodes<Node>(place: Placement<Node>, one: seq<Change<Node>>, other: seq<Change<Node>>,
                                 all: set<Node>)
    requires Collisionless(place, all) && After(one) == After(other)
    requires (forall i :: 0 <= i < |one| ==> one[i].id in all) && (forall i :: 0 <= i < |other| ==> other[i].id in all)
    ensures Run(place, one) == Run(place, other)
  {
    RunOwned(place, one, all);
    RunOwned(place, other, all);
    OwnedUnique(Run(place, one), Run(place, other), place);
  }

  // ----- removing a node -------------------------------------------------------------------------------------

  /** The points of the other nodes. */
  function Others<Node(==)>(owner: map<nat, Node>, s: seq<nat>, n: Node): (r: seq<nat>)
    requires AllOwned(owner, s)
    ensures forall p :: p in r <==> p in s && owner[p] != n
    ensures forall i :: 0 <= i < |r| ==> r[i] in owner && owner[r[i]] != n
  {
    if s == [] then []
    else
      assert forall p :: p in s <==> p == s[0] || p in s[1..];
      if owner[s[0]] == n then Others(owner, s[1..], n)
      else [s[0]] + Others(owner, s[1..], n)
  }

  lemma {:induction false} OthersConcat<Node>(owner: map<nat, Node>, a: seq<nat>, b: seq<nat>, n: Node)
    requires AllOwned(owner, a) && AllOwned(owner, b)
    ensures Others(owner, a + b, n) == Others(owner, a, n) + Others(owner, b, n)
    decreases |a|
  {
    if a == [] {
      assert a + b == b;
    } else {
      assert (a + b)[1..] == a[1..] + b;
      OthersConcat(owner, a[1..], b, n);
    }
  }

  lemma {:induction false} OthersAscending<Node>(owner: map<nat, Node>, s: seq<nat>, n: Node)
    requires Ascending(s) && AllOwned(owner, s)
    ensures Ascending(Others(owner, s, n))
    decreases |s|
  {
    if s != [] {
      OthersAscending(owner, s[1..], n);
      var rest := Others(owner, s[1..], n);
      forall i | 0 <= i < |rest| ensures s[0] < rest[i] { assert rest[i] in rest; }
      ConsAscending(s[0], rest);
    }
  }

  lemma ConsAscending(x: nat, rest: seq<nat>)
    requires Ascending(rest) && forall i :: 0 <= i < |rest| ==> x < rest[i]
    ensures Ascending([x] + rest)
  {
  }

  lemma {:induction false} OwnersOfOthers<Node>(owner: map<nat, Node>, left: map<nat, Node>, s: seq<nat>, n: Node)
    requires AllOwned(owner, s)
    requires forall p :: p in left ==> p in owner && left[p] == owner[p]
    requires forall p :: p in owner && owner[p] != n ==> p in left
    ensures Owners(left, Others(owner, s, n)) == Without(Owners(owner, s), n)
    decreases |s|
  {
    if s != [] { OwnersOfOthers(owner, left, s[1..], n); }
  }

  lemma {:induction false} BoundUnique(s: seq<nat>, hash: nat, k: nat)
    requires k <= |s| && (forall i :: 0 <= i < k ==> s[i] < hash) && (forall i :: k <= i < |s| ==> hash <= s[i])
    ensures LowerBound(s, hash) == k
  {
    if k > 0 { BoundUnique(s[1..], hash, k - 1); }
  }

  /** Dropping a node's points splits the rest at the same place. */
  lemma BoundOfOthers<Node>(owner: map<nat, Node>, low: seq<nat>, high: seq<nat>, n: Node, hash: nat)
    requires AllOwned(owner, low) && forall i :: 0 <= i < |low| ==> low[i] < hash
    requires AllOwned(owner, high) && forall i :: 0 <= i < |high| ==> hash <= high[i]
    ensures Clockwise(Others(owner, low, n) + Others(owner, high, n), hash)
         == Others(owner, high, n) + Others(owner, low, n)
  {
    var a, b := Others(owner, low, n), Others(owner, high, n);
    forall i | 0 <= i < |a| ensures a[i] < hash { assert a[i] in a; }
    forall i | 0 <= i < |b| ensures hash <= b[i] { assert b[i] in b; }
    BoundUnique(a + b, hash, |a|);
  }

  lemma ClockwiseOthers<Node>(owner: map<nat, Node>, s: seq<nat>, n: Node, hash: nat)
    requires Ascending(s) && AllOwned(owner, s)
    ensures AllOwned(owner, Clockwise(s, hash))
    ensures Clockwise(Others(owner, s, n), hash) == Others(owner, Clockwise(s, hash), n)
  {
    var k := LowerBound(s, hash);
    TurnOwned(owner, s, hash);
    TurnOthers(owner, s, s[..k], s[k..], n, hash);
  }

  lemma TurnOthers<Node>(owner: map<nat, Node>, s: seq<nat>, low: seq<nat>, high: seq<nat>, n: Node, hash: nat)
    requires s == low + high
    requires AllOwned(owner, low) && forall i :: 0 <= i < |low| ==> low[i] < hash
    requires AllOwned(owner, high) && forall i :: 0 <= i < |high| ==> hash <= high[i]
    ensures Clockwise(Others(owner, s, n), hash) == Others(owner, high + low, n)
  {
    OthersConcat(owner, low, high, n);
    OthersConcat(owner, high, low, n);
    BoundOfOthers(owner, low, high, n, hash);
  }

  lemma {:induction false} WithoutTwice<T>(s: seq<T>, x: T, y: T)
    ensures Without(Without(s, x), y) == Without(Without(s, y), x)
  {
    if s != [] { WithoutTwice(s[1..], x, y); }
  }

  lemma {:induction false} WithoutAgain<T>(s: seq<T>, x: T)
    ensures Without(Without(s, x), x) == Without(s, x)
    ensures x !in s ==> Without(s, x) == s
  {
    if s != [] { WithoutAgain(s[1..], x); }
  }

  lemma {:induction false} WithoutMembers<T>(s: seq<T>, x: T)
    ensures forall y :: y in Without(s, x) <==> y in s && y != x
  {
    if s != [] {
      WithoutMembers(s[1..], x);
      assert forall y :: y in s <==> y == s[0] || y in s[1..];
    }
  }

  /** Deleting an element before or after removing repetitions is the same. */
  lemma {:induction false} DistinctWithout<T>(s: seq<T>, x: T)
    ensures Distinct(Without(s, x)) == Without(Distinct(s), x)
    decreases |s|
  {
    if s != [] {
      var rest := Without(s[1..], s[0]);
      DistinctWithout(rest, x);
      if s[0] == x {
        WithoutAgain(s[1..], x);
      } else {
        WithoutTwice(s[1..], s[0], x);
      }
    }
  }

  /** The ring that is left when a node's points are gone, and nothing else. */
  ghost predicate LeftBy<Node>(r: Ring<Node>, r': Ring<Node>, n: Node) {
    && (forall p :: p in r'.owner ==> p in r.owner && r'.owner[p] == r.owner[p])
    && (forall p :: p in r'.owner <==> p in r.owner && r.owner[p] != n)
  }

  lemma RemoveLeaves<Node>(r: Ring<Node>, place: Placement<Node>, n: Node)
    requires Listed(r) && Owned(r, place) && Collisionless(place, r.nodes + {n})
    ensures Listed(RemoveNode(r, place(n), n)) && LeftBy(r, RemoveNode(r, place(n), n), n)
  {
    RemovePointsEffect(r.(nodes := r.nodes - {n}), place(n));
  }

  lemma PointsLeft<Node>(r: Ring<Node>, r': Ring<Node>, n: Node)
    requires Listed(r) && Listed(r') && LeftBy(r, r', n)
    ensures r'.points == Others(r.owner, r.points, n)
  {
    OthersAscending(r.owner, r.points, n);
    AscendingUnique(r'.points, Others(r.owner, r.points, n));
  }

  lemma ListLeft<Node>(owner: map<nat, Node>, left: map<nat, Node>, s: seq<nat>, s': seq<nat>, n: Node)
    requires AllOwned(owner, s)
    requires forall p :: p in left ==> p in owner && left[p] == owner[p]
    requires forall p :: p in owner && owner[p] != n ==> p in left
    requires s' == Others(owner, s, n)
    ensures AllOwned(left, s')
    ensures Distinct(Owners(left, s')) == Without(Distinct(Owners(owner, s)), n)
  {
    OwnersOfOthers(owner, left, s, n);
    DistinctWithout(Owners(owner, s), n);
  }

  lemma PreferenceLeft<Node>(r: Ring<Node>, r': Ring<Node>, n: Node, hash: nat)
    requires Listed(r) && Listed(r') && LeftBy(r, r', n)
    ensures Preference(r', hash) == Without(Preference(r, hash), n)
  {
    PointsLeft(r, r', n);
    TurnOwned(r.owner, r.points, hash);
    ClockwiseOthers(r.owner, r.points, n, hash);
    ListLeft(r.owner, r'.owner, Clockwise(r.points, hash), Clockwise(r'.points, hash), n);
  }

  /**
   Without collisions, removing a node deletes it from every key's preference list and leaves all the rest in order.
   */
  lemma RemoveStable<Node>(r: Ring<Node>, place: Placement<Node>, n: Node, hash: nat)
    requires Listed(r) && Owned(r, place) && Collisionless(place, r.nodes + {n})
    ensures Listed(RemoveNode(r, place(n), n))
    ensures Preference(RemoveNode(r, place(n), n), hash) == Without(Preference(r, hash), n)
  {
    RemoveLeaves(r, place, n);
    PreferenceLeft(r, RemoveNode(r, place(n), n), n, hash);
  }

  /** Dually, adding a node only inserts it, so a key's owner stays or becomes the new node. */
  lemma AddStable<Node>(r: Ring<Node>, place: Placement<Node>, n: Node, hash: nat)
    requires Listed(r) && Owned(r, place) && Collisionless(place, r.nodes + {n}) && n !in r.nodes
    ensures Listed(AddNode(r, place(n), n))
    ensures Without(Preference(AddNode(r, place(n), n), hash), n) == Preference(r, hash)
    ensures var l, l' := Preference(r, hash), Preference(AddNode(r, place(n), n), hash);
      l' != [] ==> l'[0] == n || (l != [] && l'[0] == l[0])
  {
    AddKeepsOwned(r, place, n);
    var r' := AddNode(r, place(n), n);
    RemoveStable(r', place, n, hash);
    RemoveKeepsOwned(r', place, n);
    OwnedUnique(RemoveNode(r', place(n), n), r, place);
  }
}
