/**
 The consistent hash ring as a value: its points in ascending order, the owner of each point, and the nodes that
 were added. A node's points are given by a function, so that what is said here holds wherever they fall.
 */
module RingSpec {
  import opened Bytes

  datatype Ring<Node> = Ring(points: seq<nat>, owner: map<nat, Node>, nodes: set<Node>)

  function Empty<Node>(): Ring<Node> { Ring([], map[], {}) }

  // ----- the ordered points ----------------------------------------------------------------------------------

  ghost predicate Ascending(s: seq<nat>) {
    forall i, j :: 0 <= i < j < |s| ==> s[i] < s[j]
  }

  ghost predicate Members(s: seq<nat>, all: set<nat>) {
    && (forall i :: 0 <= i < |s| ==> s[i] in all)
    && (forall p :: p in all ==> p in s)
  }

  /** The points listed are exactly the owned ones, in ascending order. */
  ghost predicate Listed<Node>(r: Ring<Node>) {
    Ascending(r.points) && Members(r.points, r.owner.Keys)
  }

  /** The position of the first point at or after a hash. */
  function LowerBound(s: seq<nat>, hash: nat): (k: nat)
    ensures k <= |s|
    ensures forall i :: 0 <= i < k ==> s[i] < hash
    ensures k < |s| ==> hash <= s[k]
  {
    if s == [] || hash <= s[0] then 0 else 1 + LowerBound(s[1..], hash)
  }

  function InsertPoint(s: seq<nat>, p: nat): (r: seq<nat>) {
    var k := LowerBound(s, p);
    if k < |s| && s[k] == p then s else s[..k] + [p] + s[k..]
  }

  function ErasePoint(s: seq<nat>, p: nat): (r: seq<nat>) {
    var k := LowerBound(s, p);
    if k < |s| && s[k] == p then s[..k] + s[k + 1..] else s
  }

  // ----- adding and removing ---------------------------------------------------------------------------------

  /** Give points to a node, one by one; a point that is taken changes hands. */
  function AddPoints<Node(==)>(r: Ring<Node>, points: seq<nat>, id: Node): (r': Ring<Node>)
    decreases |points|
  {
    if points == [] then r
    else AddPoints(Ring(InsertPoint(r.points, points[0]), r.owner[points[0] := id], r.nodes), points[1..], id)
  }

  /** Take points off the ring, whoever owns them. */
  function RemovePoints<Node(==)>(r: Ring<Node>, points: seq<nat>): (r': Ring<Node>)
    decreases |points|
  {
    if points == [] then r
    else RemovePoints(Ring(ErasePoint(r.points, points[0]), r.owner - {points[0]}, r.nodes), points[1..])
  }

  function AddNode<Node(==)>(r: Ring<Node>, points: seq<nat>, id: Node): (r': Ring<Node>) {
    if id in r.nodes then r else AddPoints(r.(nodes := r.nodes + {id}), points, id)
  }

  function RemoveNode<Node(==)>(r: Ring<Node>, points: seq<nat>, id: Node): (r': Ring<Node>) {
    if id !in r.nodes then r else RemovePoints(r.(nodes := r.nodes - {id}), points)
  }

  // ----- owners along the ring -------------------------------------------------------------------------------

  ghost predicate AllOwned<Node>(owner: map<nat, Node>, points: seq<nat>) {
    forall i :: 0 <= i < |points| ==> points[i] in owner
  }

  lemma TurnOwned<Node>(owner: map<nat, Node>, points: seq<nat>, hash: nat)
    requires AllOwned(owner, points)
    ensures AllOwned(owner, Clockwise(points, hash))
  {
  }

  function Owners<Node>(owner: map<nat, Node>, points: seq<nat>): (r: seq<Node>)
    requires AllOwned(owner, points)
    ensures |r| == |points|
  {
    if points == [] then [] else [owner[points[0]]] + Owners(owner, points[1..])
  }

  /** All points, clockwise from a hash, wrapping around. */
  function Clockwise(points: seq<nat>, hash: nat): (r: seq<nat>) {
    points[LowerBound(points, hash)..] + points[..LowerBound(points, hash)]
  }

  function Without<T(==)>(s: seq<T>, x: T): (r: seq<T>)
    ensures |r| <= |s|
  {
    if s == [] then [] else if s[0] == x then Without(s[1..], x) else [s[0]] + Without(s[1..], x)
  }

  /** Each element once, in order of first appearance. */
  function Distinct<T(==)>(s: seq<T>): (r: seq<T>)
    decreases |s|
  {
    if s == [] then [] else [s[0]] + Distinct(Without(s[1..], s[0]))
  }

  /** A key's full preference list: the nodes in order of first appearance clockwise from its hash. */
  function Preference<Node(==)>(r: Ring<Node>, hash: nat): (l: seq<Node>)
    requires AllOwned(r.owner, r.points)
  {
    TurnOwned(r.owner, r.points, hash);
    Distinct(Owners(r.owner, Clockwise(r.points, hash)))
  }

  /** How many nodes a request for `count` asks for. */
  function Wanted<Node>(r: Ring<Node>, count: nat): (n: nat) {
    Max(Min(count, |r.nodes|), 1)
  }

  /** The walk comes to an end exactly when the ring has as many owners as are wanted (or no points at all). */
  predicate Terminates<Node(==)>(r: Ring<Node>, hash: nat, count: nat)
    requires AllOwned(r.owner, r.points)
  {
    r.points == [] || Wanted(r, count) <= |Preference(r, hash)|
  }

  function GetNodes<Node(==)>(r: Ring<Node>, hash: nat, count: nat): (l: seq<Node>)
    requires AllOwned(r.owner, r.points)
    requires Terminates(r, hash, count)
  {
    if r.points == [] then [] else Preference(r, hash)[..Wanted(r, count)]
  }
}
