/**
 The cache object: four lists, the adaptation target and the byte counter, updated in place. `Model()` is the
 value of the object; every method is proved against the function of ArcSpec with the same name.
 */
module ArcCaches {
  import opened Options
  import opened ArcSpec
  import opened ArcLists
  import Bytes
  import T = ArcTheorems

  /** The evicted entries as the caller gets them: keys with their values. */
  function Pairs<K, V>(s: seq<Entry<K, V>>): (r: seq<(K, V)>) {
    seq(|s|, i requires 0 <= i < |s| => (s[i].key, s[i].value))
  }

  ghost function Victims<K, V>(st: State<K, V>, needed: nat): seq<(K, V)> {
    Pairs(EvictFor(st, needed).evicted)
  }

  lemma EvictForUnfolds<K, V>(st: State<K, V>, needed: nat)
    requires MustEvict(st, needed)
    ensures var one := EvictOne(st);
            var rest := EvictFor(one.state, needed);
            && EvictFor(st, needed).state == rest.state
            && |one.evicted| == 1
            && Victims(st, needed) == [(one.evicted[0].key, one.evicted[0].value)] + Victims(one.state, needed)
            && |one.state.t1| + |one.state.t2| < |st.t1| + |st.t2|
  {
  }

  // What the list operations rely on: a key is in one list at most.
  ghost predicate OnePlace<K, V>(st: State<K, V>, key: K) {
    && (key in Keys(st.t1) ==> key !in Keys(st.t2))
    && (Contains(st, key) ==> key !in st.b1 && key !in st.b2)
    && (key in st.b1 ==> key !in st.b2)
  }

  ghost predicate GhostsApart<K, V>(st: State<K, V>) {
    Apart(Keys(st.t1), st.b1) && Apart(Keys(st.t2), st.b2)
  }

  lemma InvPlaces<K, V>(st: State<K, V>, key: K)
    requires Inv(st)
    ensures OnePlace(st, key) && GhostsApart(st)
  {
    InvMeans(st);
  }

  lemma GetKeepsInv<K, V>(st: State<K, V>, key: K)
    requires Inv(st)
    ensures Inv(Get(st, key).0)
  {
    T.GetKeeps(st, key);
  }

  lemma RemoveKeepsInv<K, V>(st: State<K, V>, key: K)
    requires Inv(st)
    ensures Inv(Remove(st, key).0)
  {
    T.RemoveKeepsInv(st, key);
  }

  /** Rebinding an entry before erasing it changes nothing about what is left. */
  lemma AssignedThenErased<K, V>(s: seq<Entry<K, V>>, key: K, e: Entry<K, V>)
    requires key in Keys(s) && e.key == key
    ensures var i := Position(Keys(s), key);
            Keys(s[i := e]) == Keys(s) && Erase(s[i := e], key) == Erase(s, key)
  {
    var i := Position(Keys(s), key);
    assert Keys(s[i := e]) == Keys(s);
  }

  lemma EvictOneKeepsInv<K, V>(st: State<K, V>)
    requires Inv(st) && (st.t1 != [] || st.t2 != [])
    ensures Inv(EvictOne(st).state)
  {
    T.EvictOneCensus(st);
    T.EvictOneEffect(st);
  }

  lemma PreparedKeepsInv<K, V>(st: State<K, V>, key: K)
    requires Inv(st) && !Contains(st, key)
    ensures Inv(T.Prepared(st, key))
  {
    T.PreparedFrame(st, key);
    T.PreparedCensus(st, key);
    OnceInSubset(Census(st), Census(T.Prepared(st, key)));
  }

  lemma OnceInSubset<K>(whole: multiset<K>, part: multiset<K>)
    requires (forall k :: k in whole ==> whole[k] == 1) && part <= whole
    ensures forall k :: k in part ==> part[k] == 1
  {
    forall k | k in part ensures part[k] == 1 {
      assert part[k] <= whole[k];
    }
  }

  /** After preparing and evicting, the new key is in none of the four lists. */
  lemma InsertIsFresh<K, V>(st: State<K, V>, key: K, size: nat)
    requires Inv(st) && !Contains(st, key)
    ensures var e := EvictFor(T.Prepared(st, key), size).state;
            key !in Keys(e.t1) && key !in Keys(e.t2)
  {
    T.EvictForEffect(T.Prepared(st, key), size);
    T.NotPrepared(st, key);
    var e := EvictFor(T.Prepared(st, key), size).state;
    assert Census(e)[key] == 0;
    assert multiset(Keys(e.t1))[key] == 0 && multiset(Keys(e.t2))[key] == 0;
  }

  class ArcCache<K(==), V> {
    const capacity: nat
    const sizeOf: V -> nat
    const t1: LruList<K, V>
    const t2: LruList<K, V>
    const b1: GhostList<K>
    const b2: GhostList<K>
    var p: real
    var currentSize: int

    ghost const Repr: set<object> := {this, t1, t2, b1, b2}

    ghost function Model(): State<K, V>
      reads Repr
    {
      State(capacity, t1.entries, t2.entries, b1.keys, b2.keys, p, currentSize)
    }

    /** Each list agrees with its own index. */
    ghost predicate Shaped()
      reads Repr
    {
      t1 != t2 && b1 != b2 && t1.Valid() && t2.Valid() && b1.Valid() && b2.Valid()
    }

    /** The four lists together keep the cache's invariant. */
    ghost predicate Valid()
      reads Repr
    {
      Shaped() && Inv(Model())
    }

    constructor (capacity: nat, sizeOf: V -> nat)
      ensures Valid() && fresh(Repr) && Model() == Empty(capacity) && this.sizeOf == sizeOf
    {
      this.capacity := capacity;
      this.sizeOf := sizeOf;
      t1 := new LruList();
      t2 := new LruList();
      b1 := new GhostList();
      b2 := new GhostList();
      p := 0.0;
      currentSize := 0;
      T.EmptyInv<K, V>(capacity);
    }

    method Contains(key: K) returns (found: bool)
      requires Valid()
      ensures found <==> ArcSpec.Contains(Model(), key)
    {
      found := t1.Contains(key);
      if !found {
        found := t2.Contains(key);
      }
    }

    // ----- lookup --------------------------------------------------------------------------------------------

    method GetImpl(key: K) returns (value: Option<V>)
      requires Shaped() && OnePlace(Model(), key)
      modifies Repr
      ensures Shaped() && Model() == ArcSpec.Get(old(Model()), key).0
      ensures value == ArcSpec.Get(old(Model()), key).1
    {
      var it := t1.FindNode(key);
      if it != null {
        value := Some(it.value);
        t1.EraseNode(it);
        t2.PushFront(key, it.value, it.size);
      } else {
        it := t2.FindNode(key);
        if it != null {
          value := Some(it.value);
          t2.MoveToFront(it);
        } else {
          value := None;
        }
      }
    }

    method Get(key: K) returns (value: Option<V>)
      requires Valid()
      modifies Repr
      ensures Valid() && Model() == ArcSpec.Get(old(Model()), key).0
      ensures value == ArcSpec.Get(old(Model()), key).1
    {
      GetKeepsInv(Model(), key);
      InvPlaces(Model(), key);
      value := GetImpl(key);
    }

    // ----- eviction ------------------------------------------------------------------------------------------

    method EvictFromT1() returns (e: Entry<K, V>)
      requires Shaped() && GhostsApart(Model()) && t1.entries != []
      modifies Repr
      ensures Shaped() && e == old(t1.entries)[|old(t1.entries)| - 1]
      ensures Model() == old(Model()).(t1 := old(t1.entries)[..|old(t1.entries)| - 1], b1 := [e.key] + old(b1.keys),
                                       current := old(currentSize) - e.size)
    {
      assert Keys(t1.entries)[|t1.entries| - 1] == t1.entries[|t1.entries| - 1].key;
      e := t1.PopBack();
      currentSize := currentSize - e.size;
      b1.PushFront(e.key);
    }

    method EvictFromT2() returns (e: Entry<K, V>)
      requires Shaped() && GhostsApart(Model()) && t2.entries != []
      modifies Repr
      ensures Shaped() && e == old(t2.entries)[|old(t2.entries)| - 1]
      ensures Model() == old(Model()).(t2 := old(t2.entries)[..|old(t2.entries)| - 1], b2 := [e.key] + old(b2.keys),
                                       current := old(currentSize) - e.size)
    {
      assert Keys(t2.entries)[|t2.entries| - 1] == t2.entries[|t2.entries| - 1].key;
      e := t2.PopBack();
      currentSize := currentSize - e.size;
      b2.PushFront(e.key);
    }

    method EvictOneImpl() returns (e: Entry<K, V>)
      requires Shaped() && GhostsApart(Model()) && (t1.entries != [] || t2.entries != [])
      modifies Repr
      ensures Shaped() && Model() == ArcSpec.EvictOne(old(Model())).state
      ensures ArcSpec.EvictOne(old(Model())).evicted == [e]
    {
      var t1Size := t1.TotalSize();
      var t1Empty := t1.IsEmpty();
      var t2Empty := t2.IsEmpty();
      ghost var m := Model();
      if !t1Empty && (t1Size > p.Floor || t2Empty) {
        assert VictimInT1(m);
        e := EvictFromT1();
      } else {
        assert !VictimInT1(m) && m.t2 != [];
        e := EvictFromT2();
      }
    }

    method EvictOne() returns (e: Entry<K, V>)
      requires Valid() && (t1.entries != [] || t2.entries != [])
      modifies Repr
      ensures Valid() && Model() == ArcSpec.EvictOne(old(Model())).state
      ensures ArcSpec.EvictOne(old(Model())).evicted == [e]
    {
      EvictOneKeepsInv(Model());
      InvMeans(Model());
      e := EvictOneImpl();
    }

    method HasResident() returns (any: bool)
      requires Shaped()
      ensures any <==> t1.entries != [] || t2.entries != []
    {
      var t1Empty := t1.IsEmpty();
      var t2Empty := t2.IsEmpty();
      any := !t1Empty || !t2Empty;
    }

    /** One turn of the eviction loop, which leaves the rest of the loop's work unchanged. */
    method EvictTurn(ghost needed: nat) returns (pair: (K, V))
      requires Valid() && MustEvict(Model(), needed)
      modifies Repr
      ensures Valid() && |t1.entries| + |t2.entries| < old(|t1.entries| + |t2.entries|)
      ensures EvictFor(old(Model()), needed).state == EvictFor(Model(), needed).state
      ensures Victims(old(Model()), needed) == [pair] + Victims(Model(), needed)
    {
      EvictForUnfolds(Model(), needed);
      var e := EvictOne();
      pair := (e.key, e.value);
    }

    method EvictForSize(needed: nat) returns (evicted: seq<(K, V)>)
      requires Valid()
      modifies Repr
      ensures Valid()
      ensures Model() == EvictFor(old(Model()), needed).state
      ensures evicted == Victims(old(Model()), needed)
    {
      evicted := [];
      var resident := HasResident();
      ghost var goal, victims := EvictFor(Model(), needed).state, Victims(Model(), needed);
      while currentSize + needed > capacity && resident
        invariant Valid()
        invariant resident == (t1.entries != [] || t2.entries != [])
        invariant goal == EvictFor(Model(), needed).state
        invariant victims == evicted + Victims(Model(), needed)
        decreases |t1.entries| + |t2.entries|
      {
        var pair := EvictTurn(needed);
        Bytes.AppendOne(evicted, pair, Victims(Model(), needed));
        evicted := evicted + [pair];
        resident := HasResident();
      }
    }

    // ----- insertion -----------------------------------------------------------------------------------------

    method RebindT1(it: LruNode<K, V>, value: V, size: nat)
      requires Shaped() && it in t1.list && it.key in Keys(t1.entries) && it.key !in Keys(t2.entries)
      modifies this`currentSize, t1, t2
      ensures Shaped() && currentSize == old(currentSize) - it.size + size
      ensures t1.entries == Erase(old(t1.entries), it.key)
      ensures t2.entries == [Entry(it.key, value, size)] + old(t2.entries)
    {
      AssignedThenErased(t1.entries, it.key, Entry(it.key, value, size));
      currentSize := currentSize - it.size;
      var it' := t1.Assign(it, value, size);
      currentSize := currentSize + size;
      t1.EraseNode(it');
      t2.PushFront(it'.key, it'.value, size);
    }

    method RebindT2(it: LruNode<K, V>, value: V, size: nat)
      requires Shaped() && it in t2.list && it.key in Keys(t2.entries)
      modifies this`currentSize, t2
      ensures Shaped() && currentSize == old(currentSize) - it.size + size
      ensures t2.entries == [Entry(it.key, value, size)] + Erase(old(t2.entries), it.key)
    {
      AssignedThenErased(t2.entries, it.key, Entry(it.key, value, size));
      currentSize := currentSize - it.size;
      var it' := t2.Assign(it, value, size);
      currentSize := currentSize + size;
      t2.MoveToFront(it');
    }

    method HitB1(key: K)
      requires Shaped() && key in b1.keys
      modifies this`p, b1
      ensures Shaped() && p == AdaptUp(old(Model()), key).p && b1.keys == EraseKey(old(b1.keys), key)
    {
      var n1 := b1.Size();
      var n2 := b2.Size();
      var delta := if n2 >= n1 then 1.0 else n2 as real / n1 as real;
      p := Min(p + delta, capacity as real);
      b1.Erase(key);
    }

    method HitB2(key: K)
      requires Shaped() && key in b2.keys
      modifies this`p, b2
      ensures Shaped() && p == AdaptDown(old(Model()), key).p && b2.keys == EraseKey(old(b2.keys), key)
    {
      var n1 := b1.Size();
      var n2 := b2.Size();
      var delta := if n1 >= n2 then 1.0 else n1 as real / n2 as real;
      p := Max(p - delta, 0.0);
      b2.Erase(key);
    }

    /** Cases 3 to 5 up to the eviction: adapt the target to a ghost hit, or trim the ghost lists. */
    method Prepare(key: K, inB1: bool, inB2: bool)
      requires Shaped() && inB1 == (key in b1.keys) && inB2 == (key in b2.keys)
      modifies Repr
      ensures Shaped() && Model() == T.Prepared(old(Model()), key)
    {
      if inB1 {
        HitB1(key);
      } else if inB2 {
        HitB2(key);
      } else {
        Trim();
      }
    }

    method Trim()
      requires Shaped()
      modifies Repr
      ensures Shaped() && Model() == TrimGhosts(old(Model()))
    {
      var r1 := t1.Size();
      var r2 := t2.Size();
      var g1 := b1.Size();
      var g2 := b2.Size();
      if r1 + g1 >= capacity {
        if g1 != 0 {
          var _ := b1.PopBack();
        }
      } else if r1 + r2 + (g1 + g2) >= capacity * 2 {
        if g2 != 0 {
          var _ := b2.PopBack();
        }
      }
    }

    /** Cases 3 to 5: the key is not resident. */
    method Insert(key: K, value: V) returns (evicted: seq<(K, V)>)
      requires Valid() && !ArcSpec.Contains(Model(), key)
      modifies Repr
      ensures Shaped() && Model() == ArcSpec.Put(old(Model()), key, value, sizeOf(value)).state
      ensures evicted == Pairs(ArcSpec.Put(old(Model()), key, value, sizeOf(value)).evicted)
    {
      var size := sizeOf(value);
      PreparedKeepsInv(Model(), key);
      InsertIsFresh(Model(), key, size);
      var inB1 := b1.Contains(key);
      var inB2 := b2.Contains(key);
      Prepare(key, inB1, inB2);
      evicted := EvictForSize(size);
      if inB1 || inB2 {
        t2.PushFront(key, value, size);
      } else {
        t1.PushFront(key, value, size);
      }
      currentSize := currentSize + size;
    }

    /** Cases 1 and 2: a resident key is rebound and promoted. */
    method Rebind(key: K, value: V, size: nat) returns (resident: bool)
      requires Shaped() && OnePlace(Model(), key)
      modifies Repr
      ensures Shaped() && resident == ArcSpec.Contains(old(Model()), key)
      ensures Model() == if resident then ArcSpec.Put(old(Model()), key, value, size).state else old(Model())
    {
      var it := t1.FindNode(key);
      if it != null {
        RebindT1(it, value, size);
        return true;
      }
      it := t2.FindNode(key);
      if it != null {
        RebindT2(it, value, size);
        return true;
      }
      resident := false;
    }

    method PutImpl(key: K, value: V) returns (evicted: seq<(K, V)>)
      requires Valid()
      modifies Repr
      ensures Shaped() && Model() == ArcSpec.Put(old(Model()), key, value, sizeOf(value)).state
      ensures evicted == Pairs(ArcSpec.Put(old(Model()), key, value, sizeOf(value)).evicted)
    {
      InvPlaces(Model(), key);
      var resident := Rebind(key, value, sizeOf(value));
      if resident {
        evicted := [];
      } else {
        evicted := Insert(key, value);
      }
    }

    method Put(key: K, value: V) returns (evicted: seq<(K, V)>)
      requires Valid()
      modifies Repr
      ensures Valid() && Model() == ArcSpec.Put(old(Model()), key, value, sizeOf(value)).state
      ensures evicted == Pairs(ArcSpec.Put(old(Model()), key, value, sizeOf(value)).evicted)
    {
      T.PutKeepsInv(Model(), key, value, sizeOf(value));
      evicted := PutImpl(key, value);
    }

    // ----- removal -------------------------------------------------------------------------------------------

    method EraseFrom(t: LruList<K, V>, it: LruNode<K, V>)
      requires t.Valid() && it in t.list && (t == t1 || t == t2)
      modifies this`currentSize, t
      ensures t.Valid() && currentSize == old(currentSize) - it.size
      ensures t.entries == Erase(old(t.entries), it.key)
    {
      currentSize := currentSize - it.size;
      t.EraseNode(it);
    }

    method RemoveImpl(key: K) returns (removed: bool)
      requires Shaped()
      modifies Repr
      ensures Shaped() && Model() == ArcSpec.Remove(old(Model()), key).0
      ensures removed == ArcSpec.Remove(old(Model()), key).1
    {
      removed := true;
      var it := t1.FindNode(key);
      if it != null {
        EraseFrom(t1, it);
      } else {
        it := t2.FindNode(key);
        if it != null {
          EraseFrom(t2, it);
        } else {
          b1.Erase(key);
          b2.Erase(key);
          removed := false;
        }
      }
    }

    method Remove(key: K) returns (removed: bool)
      requires Valid()
      modifies Repr
      ensures Valid() && Model() == ArcSpec.Remove(old(Model()), key).0
      ensures removed == ArcSpec.Remove(old(Model()), key).1
    {
      RemoveKeepsInv(Model(), key);
      removed := RemoveImpl(key);
    }

    method Clear()
      requires Valid()
      modifies Repr
      ensures Valid() && Model() == Empty(capacity)
    {
      T.EmptyInv<K, V>(capacity);
      t1.Clear();
      t2.Clear();
      b1.Clear();
      b2.Clear();
      p := 0.0;
      currentSize := 0;
    }
  }
}
