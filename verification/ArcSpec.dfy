/**
 The adaptive replacement cache as a value: two resident lists (`t1` seen once, `t2` seen again), two ghost
 lists of recently evicted keys (`b1`, `b2`), the adaptation target `p` and the byte counter `current`.
 Index 0 of every list is its front (most recent) end.

 `ArcCache` in ArcCache.dfy is the same cache with its linked nodes and hash indexes; its methods are proved
 against the functions here.
 */
module ArcSpec {
  import opened Options

  datatype Entry<K, V> = Entry(key: K, value: V, size: nat)

  datatype State<K, V> = State(
    capacity: nat,
    t1: seq<Entry<K, V>>,
    t2: seq<Entry<K, V>>,
    b1: seq<K>,
    b2: seq<K>,
    p: real,
    current: int)

  /** A new state together with the entries the operation evicted, oldest victim first. */
  datatype Outcome<K, V> = Outcome(state: State<K, V>, evicted: seq<Entry<K, V>>)

  // ----- list vocabulary -------------------------------------------------------------------------------------

  function Keys<K, V>(s: seq<Entry<K, V>>): (ks: seq<K>)
    ensures |ks| == |s| && forall i :: 0 <= i < |s| ==> ks[i] == s[i].key
  {
    seq(|s|, i requires 0 <= i < |s| => s[i].key)
  }

  function Total<K, V>(s: seq<Entry<K, V>>): (n: nat) {
    if s == [] then 0 else s[0].size + Total(s[1..])
  }

  /** The position at which a key is found; lists keep their keys distinct, so it is the only one. */
  function Position<K(==)>(ks: seq<K>, k: K): (i: nat)
    requires k in ks
    ensures i < |ks| && ks[i] == k
    ensures forall j :: 0 <= j < i ==> ks[j] != k
  {
    if ks[0] == k then 0 else 1 + Position(ks[1..], k)
  }

  function Find<K(==), V>(s: seq<Entry<K, V>>, k: K): (e: Entry<K, V>)
    requires k in Keys(s)
    ensures e in s && e.key == k
  {
    s[Position(Keys(s), k)]
  }

  function EraseAt<T>(s: seq<T>, i: nat): (r: seq<T>)
    requires i < |s|
  {
    s[..i] + s[i + 1..]
  }

  function Erase<K(==), V>(s: seq<Entry<K, V>>, k: K): (r: seq<Entry<K, V>>) {
    if k in Keys(s) then EraseAt(s, Position(Keys(s), k)) else s
  }

  function EraseKey<K(==)>(ks: seq<K>, k: K): (r: seq<K>) {
    if k in ks then EraseAt(ks, Position(ks, k)) else ks
  }

  // ----- the operations --------------------------------------------------------------------------------------

  function Empty<K, V>(capacity: nat): (st: State<K, V>) {
    State(capacity, [], [], [], [], 0.0, 0)
  }

  function Min(a: real, b: real): real { if a <= b then a else b }
  function Max(a: real, b: real): real { if a <= b then b else a }

  /** A lookup promotes: from `t1` to the front of `t2`, or to the front within `t2`. */
  function Get<K(==), V>(st: State<K, V>, key: K): (r: (State<K, V>, Option<V>)) {
    if key in Keys(st.t1) then
      var e := Find(st.t1, key);
      (st.(t1 := Erase(st.t1, key), t2 := [e] + st.t2), Some(e.value))
    else if key in Keys(st.t2) then
      var e := Find(st.t2, key);
      (st.(t2 := [e] + Erase(st.t2, key)), Some(e.value))
    else
      (st, None)
  }

  /** True when the next victim comes from `t1`. */
  predicate VictimInT1<K, V>(st: State<K, V>) {
    st.t1 != [] && (Total(st.t1) > st.p.Floor || st.t2 == [])
  }

  function EvictOne<K, V>(st: State<K, V>): (r: Outcome<K, V>) {
    if VictimInT1(st) then
      var e := st.t1[|st.t1| - 1];
      Outcome(st.(t1 := st.t1[..|st.t1| - 1], current := st.current - e.size, b1 := [e.key] + st.b1), [e])
    else if st.t2 != [] then
      var e := st.t2[|st.t2| - 1];
      Outcome(st.(t2 := st.t2[..|st.t2| - 1], current := st.current - e.size, b2 := [e.key] + st.b2), [e])
    else
      Outcome(st, [])
  }

  predicate MustEvict<K, V>(st: State<K, V>, needed: nat) {
    st.current + needed > st.capacity && (st.t1 != [] || st.t2 != [])
  }

  function EvictFor<K, V>(st: State<K, V>, needed: nat): (r: Outcome<K, V>)
    decreases |st.t1| + |st.t2|
  {
    if MustEvict(st, needed) then
      var one := EvictOne(st);
      var rest := EvictFor(one.state, needed);
      Outcome(rest.state, one.evicted + rest.evicted)
    else
      Outcome(st, [])
  }

  /** Case 3: a hit in the first ghost list raises the target and drops the ghost. */
  function AdaptUp<K(==), V>(st: State<K, V>, key: K): (r: State<K, V>)
    requires key in st.b1
  {
    var delta := if |st.b2| >= |st.b1| then 1.0 else |st.b2| as real / |st.b1| as real;
    st.(p := Min(st.p + delta, st.capacity as real), b1 := EraseKey(st.b1, key))
  }

  /** Case 4: a hit in the second ghost list lowers the target and drops the ghost. */
  function AdaptDown<K(==), V>(st: State<K, V>, key: K): (r: State<K, V>)
    requires key in st.b2
  {
    var delta := if |st.b1| >= |st.b2| then 1.0 else |st.b1| as real / |st.b2| as real;
    st.(p := Max(st.p - delta, 0.0), b2 := EraseKey(st.b2, key))
  }

  /** Case 5: an unknown key forgets the oldest ghost of one list when the directory is full. */
  function TrimGhosts<K, V>(st: State<K, V>): (r: State<K, V>) {
    if |st.t1| + |st.b1| >= st.capacity then
      if st.b1 != [] then st.(b1 := st.b1[..|st.b1| - 1]) else st
    else if |st.t1| + |st.t2| + (|st.b1| + |st.b2|) >= st.capacity * 2 then
      if st.b2 != [] then st.(b2 := st.b2[..|st.b2| - 1]) else st
    else st
  }

  function InsertT1<K, V>(st: State<K, V>, e: Entry<K, V>): (r: State<K, V>) {
    st.(t1 := [e] + st.t1, current := st.current + e.size)
  }

  function InsertT2<K, V>(st: State<K, V>, e: Entry<K, V>): (r: State<K, V>) {
    st.(t2 := [e] + st.t2, current := st.current + e.size)
  }

  function Put<K(==), V>(st: State<K, V>, key: K, value: V, size: nat): (r: Outcome<K, V>) {
    var e := Entry(key, value, size);
    if key in Keys(st.t1) then
      Outcome(st.(t1 := Erase(st.t1, key), t2 := [e] + st.t2,
                  current := st.current - Find(st.t1, key).size + size), [])
    else if key in Keys(st.t2) then
      Outcome(st.(t2 := [e] + Erase(st.t2, key), current := st.current - Find(st.t2, key).size + size), [])
    else if key in st.b1 then
      var r := EvictFor(AdaptUp(st, key), size);
      Outcome(InsertT2(r.state, e), r.evicted)
    else if key in st.b2 then
      var r := EvictFor(AdaptDown(st, key), size);
      Outcome(InsertT2(r.state, e), r.evicted)
    else
      var r := EvictFor(TrimGhosts(st), size);
      Outcome(InsertT1(r.state, e), r.evicted)
  }

  function Remove<K(==), V>(st: State<K, V>, key: K): (r: (State<K, V>, bool)) {
    if key in Keys(st.t1) then
      (st.(t1 := Erase(st.t1, key), current := st.current - Find(st.t1, key).size), true)
    else if key in Keys(st.t2) then
      (st.(t2 := Erase(st.t2, key), current := st.current - Find(st.t2, key).size), true)
    else
      (st.(b1 := EraseKey(st.b1, key), b2 := EraseKey(st.b2, key)), false)
  }

  predicate Contains<K(==), V>(st: State<K, V>, key: K) {
    key in Keys(st.t1) || key in Keys(st.t2)
  }

  // ----- the invariant ---------------------------------------------------------------------------------------

  /** How often each key occurs over the four lists together. */
  ghost function Census<K, V>(st: State<K, V>): multiset<K> {
    multiset(Keys(st.t1)) + multiset(Keys(st.t2)) + multiset(st.b1) + multiset(st.b2)
  }

  ghost predicate OncePerKey<K, V>(st: State<K, V>) {
    forall k :: k in Census(st) ==> Census(st)[k] == 1
  }

  ghost predicate Inv<K, V>(st: State<K, V>) {
    && OncePerKey(st)
    && st.current == Total(st.t1) + Total(st.t2)
    && 0.0 <= st.p <= st.capacity as real
  }

  ghost predicate Distinct<T>(s: seq<T>) {
    forall i, j :: 0 <= i < j < |s| ==> s[i] != s[j]
  }

  ghost predicate Apart<T>(a: seq<T>, b: seq<T>) {
    forall x :: x in a ==> x !in b
  }

  /** The resident entries, with multiplicity. */
  ghost function Residents<K, V>(st: State<K, V>): multiset<Entry<K, V>> {
    multiset(st.t1) + multiset(st.t2)
  }

  // ----- list lemmas -----------------------------------------------------------------------------------------

  lemma {:induction false} TotalConcat<K, V>(a: seq<Entry<K, V>>, b: seq<Entry<K, V>>)
    ensures Total(a + b) == Total(a) + Total(b)
  {
    if a == [] {
      assert a + b == b;
    } else {
      assert (a + b)[1..] == a[1..] + b;
      TotalConcat(a[1..], b);
    }
  }

  lemma KeysConcat<K, V>(a: seq<Entry<K, V>>, b: seq<Entry<K, V>>)
    ensures Keys(a + b) == Keys(a) + Keys(b)
  {
  }

  /** Cutting a list at a position splits its keys, its entries and its total accordingly. */
  lemma EraseAtSplits<K, V>(s: seq<Entry<K, V>>, i: nat)
    requires i < |s|
    ensures multiset(s) == multiset(EraseAt(s, i)) + multiset{s[i]}
    ensures multiset(Keys(s)) == multiset(Keys(EraseAt(s, i))) + multiset{s[i].key}
    ensures Total(s) == Total(EraseAt(s, i)) + s[i].size
  {
    EraseAtMultiset(s, i);
    EraseAtMultiset(Keys(s), i);
    KeysEraseAt(s, i);
    EraseAtTotal(s, i);
  }

  lemma EraseAtMultiset<T>(s: seq<T>, i: nat)
    requires i < |s|
    ensures multiset(s) == multiset(EraseAt(s, i)) + multiset{s[i]}
  {
    assert s == s[..i] + [s[i]] + s[i + 1..];
  }

  lemma KeysEraseAt<K, V>(s: seq<Entry<K, V>>, i: nat)
    requires i < |s|
    ensures Keys(EraseAt(s, i)) == EraseAt(Keys(s), i)
  {
  }

  lemma EraseAtTotal<K, V>(s: seq<Entry<K, V>>, i: nat)
    requires i < |s|
    ensures Total(s) == Total(EraseAt(s, i)) + s[i].size
  {
    assert s == s[..i] + s[i..];
    TotalConcat(s[..i], s[i..]);
    TotalConcat(s[..i], s[i + 1..]);
    assert s[i..][1..] == s[i + 1..];
  }

  lemma EraseKeySplits<K>(ks: seq<K>, k: K)
    ensures multiset(EraseKey(ks, k)) == multiset(ks) - multiset{k}
  {
    if k in ks {
      EraseAtMultiset(ks, Position(ks, k));
    }
  }

  lemma EraseSplits<K, V>(s: seq<Entry<K, V>>, k: K)
    requires k in Keys(s)
    ensures multiset(s) == multiset(Erase(s, k)) + multiset{Find(s, k)}
    ensures multiset(Keys(s)) == multiset(Keys(Erase(s, k))) + multiset{k}
    ensures Total(s) == Total(Erase(s, k)) + Find(s, k).size
  {
    EraseAtSplits(s, Position(Keys(s), k));
  }

  lemma PushSplits<K, V>(s: seq<Entry<K, V>>, e: Entry<K, V>)
    ensures multiset([e] + s) == multiset{e} + multiset(s)
    ensures multiset(Keys([e] + s)) == multiset{e.key} + multiset(Keys(s))
    ensures Total([e] + s) == e.size + Total(s)
  {
    KeysConcat([e], s);
    assert Keys([e]) == [e.key];
    assert ([e] + s)[1..] == s;
  }

  lemma PushKeySplits<K>(ks: seq<K>, k: K)
    ensures multiset([k] + ks) == multiset{k} + multiset(ks)
  {
  }

  lemma PopSplits<K, V>(s: seq<Entry<K, V>>)
    requires s != []
    ensures multiset(s) == multiset(s[..|s| - 1]) + multiset{s[|s| - 1]}
    ensures multiset(Keys(s)) == multiset(Keys(s[..|s| - 1])) + multiset{s[|s| - 1].key}
    ensures Total(s) == Total(s[..|s| - 1]) + s[|s| - 1].size
  {
    EraseAtSplits(s, |s| - 1);
    assert EraseAt(s, |s| - 1) == s[..|s| - 1];
  }

  lemma {:induction false} CountTwo<T>(s: seq<T>, i: nat, j: nat)
    requires i < j < |s| && s[i] == s[j]
    ensures multiset(s)[s[i]] >= 2
  {
    assert s == s[..i] + [s[i]] + s[i + 1..j] + [s[j]] + s[j + 1..];
  }

  /** What the invariant's key census says in terms of the four lists. */
  lemma InvMeans<K, V>(st: State<K, V>)
    requires OncePerKey(st)
    ensures Distinct(Keys(st.t1)) && Distinct(Keys(st.t2)) && Distinct(st.b1) && Distinct(st.b2)
    ensures Apart(Keys(st.t1), Keys(st.t2)) && Apart(st.b1, st.b2)
    ensures Apart(Keys(st.t1), st.b1) && Apart(Keys(st.t1), st.b2)
    ensures Apart(Keys(st.t2), st.b1) && Apart(Keys(st.t2), st.b2)
  {
    DistinctIfOnce(st, Keys(st.t1));
    DistinctIfOnce(st, Keys(st.t2));
    DistinctIfOnce(st, st.b1);
    DistinctIfOnce(st, st.b2);
    ApartIfOnce(st, Keys(st.t1), Keys(st.t2));
    ApartIfOnce(st, st.b1, st.b2);
    ApartIfOnce(st, Keys(st.t1), st.b1);
    ApartIfOnce(st, Keys(st.t1), st.b2);
    ApartIfOnce(st, Keys(st.t2), st.b1);
    ApartIfOnce(st, Keys(st.t2), st.b2);
  }

  lemma DistinctIfOnce<K, V>(st: State<K, V>, s: seq<K>)
    requires OncePerKey(st) && multiset(s) <= Census(st)
    ensures Distinct(s)
  {
    forall i, j | 0 <= i < j < |s| ensures s[i] != s[j] {
      assert s[i] in multiset(s) && multiset(s)[s[i]] <= Census(st)[s[i]] <= 1;
      if s[i] == s[j] {
        CountTwo(s, i, j);
      }
    }
  }

  lemma ApartIfOnce<K, V>(st: State<K, V>, a: seq<K>, b: seq<K>)
    requires OncePerKey(st) && multiset(a) + multiset(b) <= Census(st)
    ensures Apart(a, b)
  {
    forall x | x in a ensures x !in b {
      assert x in multiset(a);
      assert (multiset(a) + multiset(b))[x] <= Census(st)[x] <= 1;
      assert multiset(b)[x] == 0;
    }
  }
}
