/**
 What the adaptive replacement cache keeps: the key census, the byte counter and the adaptation target over
 every operation (`PutKeepsInv`, `RunKeepsInv`), the conservation of entries (`PutConserves`), the eviction
 policy (`EvictionOrder`, `EvictionMinimal`, `EvictionPolicy`), when a put fits (`PutFitsIff`), and the bounds
 of every run whose keys determine their sizes (`RunStaysWithinCapacity`).
 */
module ArcTheorems {
  import opened Options
  import opened ArcSpec

  ghost predicate Accounted<K, V>(st: State<K, V>) {
    st.current == Total(st.t1) + Total(st.t2)
  }

  ghost predicate TargetInRange<K, V>(st: State<K, V>) {
    0.0 <= st.p <= st.capacity as real
  }

  // ----- one eviction, and the eviction loop -----------------------------------------------------------------

  lemma EvictOneCensus<K, V>(st: State<K, V>)
    requires st.t1 != [] || st.t2 != []
    ensures Census(EvictOne(st).state) == Census(st)
  {
    if VictimInT1(st) {
      PopSplits(st.t1);
      PushKeySplits(st.b1, st.t1[|st.t1| - 1].key);
    } else {
      PopSplits(st.t2);
      PushKeySplits(st.b2, st.t2[|st.t2| - 1].key);
    }
  }

  lemma EvictOneEffect<K, V>(st: State<K, V>)
    requires st.t1 != [] || st.t2 != []
    ensures var r := EvictOne(st);
            && |r.evicted| == 1
            && Residents(r.state) + multiset(r.evicted) == Residents(st)
            && r.state.current == st.current - r.evicted[0].size
            && Total(r.state.t1) + Total(r.state.t2) + r.evicted[0].size == Total(st.t1) + Total(st.t2)
  {
    if VictimInT1(st) {
      PopSplits(st.t1);
    } else {
      PopSplits(st.t2);
    }
  }

  /** The eviction loop moves keys from resident to ghost lists and nothing else. */
  lemma {:induction false} EvictForEffect<K, V>(st: State<K, V>, needed: nat)
    ensures var r := EvictFor(st, needed);
            && Census(r.state) == Census(st)
            && Residents(r.state) + multiset(r.evicted) == Residents(st)
            && (Accounted(st) ==> Accounted(r.state))
    decreases |st.t1| + |st.t2|
  {
    if MustEvict(st, needed) {
      EvictOneCensus(st);
      EvictOneEffect(st);
      EvictForEffect(EvictOne(st).state, needed);
    }
  }

  /** The loop ends with room for the new entry, or with nothing left to evict; the target is not touched. */
  lemma {:induction false} EvictForLeavesRoom<K, V>(st: State<K, V>, needed: nat)
    ensures var r := EvictFor(st, needed).state;
            !MustEvict(r, needed) && r.p == st.p && r.capacity == st.capacity
    decreases |st.t1| + |st.t2|
  {
    if MustEvict(st, needed) {
      EvictForLeavesRoom(EvictOne(st).state, needed);
    }
  }

  /** Only the tail of each resident list is evicted, and its keys reach the ghost list's front in list order. */
  lemma EvictionOrder<K, V>(st: State<K, V>, needed: nat)
    ensures var r := EvictFor(st, needed).state;
            && r.t1 <= st.t1 && r.b1 == Keys(st.t1[|r.t1|..]) + st.b1
            && r.t2 <= st.t2 && r.b2 == Keys(st.t2[|r.t2|..]) + st.b2
  {
    EvictionOrderT1(st, needed);
    EvictionOrderT2(st, needed);
  }

  lemma {:induction false} EvictionOrderT1<K, V>(st: State<K, V>, needed: nat)
    ensures var r := EvictFor(st, needed).state;
            r.t1 <= st.t1 && r.b1 == Keys(st.t1[|r.t1|..]) + st.b1
    decreases |st.t1| + |st.t2|
  {
    if MustEvict(st, needed) {
      var one := EvictOne(st).state;
      EvictionOrderT1(one, needed);
      if VictimInT1(st) {
        TailKeys(st.t1, |EvictFor(one, needed).state.t1|, st.b1);
      }
    }
  }

  lemma {:induction false} EvictionOrderT2<K, V>(st: State<K, V>, needed: nat)
    ensures var r := EvictFor(st, needed).state;
            r.t2 <= st.t2 && r.b2 == Keys(st.t2[|r.t2|..]) + st.b2
    decreases |st.t1| + |st.t2|
  {
    if MustEvict(st, needed) {
      var one := EvictOne(st).state;
      EvictionOrderT2(one, needed);
      if !VictimInT1(st) {
        TailKeys(st.t2, |EvictFor(one, needed).state.t2|, st.b2);
      }
    }
  }

  lemma TailKeys<K, V>(s: seq<Entry<K, V>>, n: nat, ghosts: seq<K>)
    requires n < |s|
    ensures Keys(s[..|s| - 1][n..]) + ([s[|s| - 1].key] + ghosts) == Keys(s[n..]) + ghosts
  {
    assert s[n..] == s[..|s| - 1][n..] + [s[|s| - 1]];
  }

  /** No victim is taken once the new entry fits: before each eviction it still did not. */
  lemma {:induction false} EvictionMinimal<K, V>(st: State<K, V>, needed: nat, i: nat)
    requires i < |EvictFor(st, needed).evicted|
    ensures st.current - Total(EvictFor(st, needed).evicted[..i]) + needed > st.capacity
    decreases |st.t1| + |st.t2|
  {
    EvictOneEffect(st);
    var one := EvictOne(st);
    var rest := EvictFor(one.state, needed).evicted;
    if i > 0 {
      EvictionMinimal(one.state, needed, i - 1);
      assert (one.evicted + rest)[..i] == one.evicted + rest[..i - 1];
      TotalConcat(one.evicted, rest[..i - 1]);
    }
  }

  /**
   The adaptation target splits the victims: the second list gives up entries only once the first is within
   the target, and (while the second list lasts) the first gives up only entries that exceed it.
   */
  lemma {:induction false} EvictionPolicy<K, V>(st: State<K, V>, needed: nat)
    ensures var r := EvictFor(st, needed).state;
            && r.t1 <= st.t1 && r.t2 <= st.t2
            && (r.t2 != st.t2 ==> Total(r.t1) <= st.p.Floor || r.t1 == [])
            && (r.t1 != st.t1 && r.t2 != [] ==> Total(st.t1[..|r.t1| + 1]) > st.p.Floor)
    decreases |st.t1| + |st.t2|
  {
    if MustEvict(st, needed) {
      var one := EvictOne(st).state;
      EvictionPolicy(one, needed);
      var r := EvictFor(one, needed).state;
      if VictimInT1(st) {
        if r.t1 == one.t1 {
          assert st.t1[..|r.t1| + 1] == st.t1;
        } else {
          assert st.t1[..|r.t1| + 1] == one.t1[..|r.t1| + 1];
        }
      } else {
        TotalOfPrefix(st.t1, |r.t1|);
        assert st.t1[..|r.t1|] == r.t1;
      }
    }
  }

  lemma TotalOfPrefix<K, V>(s: seq<Entry<K, V>>, n: nat)
    requires n <= |s|
    ensures Total(s[..n]) <= Total(s)
  {
    assert s == s[..n] + s[n..];
    TotalConcat(s[..n], s[n..]);
  }

  // ----- the invariant ---------------------------------------------------------------------------------------

  lemma EmptyInv<K, V>(capacity: nat)
    ensures Inv(Empty<K, V>(capacity))
  {
  }

  /** A lookup keeps the invariant and every resident entry, and answers with the resident value. */
  lemma GetKeeps<K, V>(st: State<K, V>, key: K)
    requires Inv(st)
    ensures Inv(Get(st, key).0)
    ensures Residents(Get(st, key).0) == Residents(st)
    ensures Get(st, key).1.Some? <==> Contains(st, key)
    ensures forall e :: e in Residents(st) && e.key == key ==> Get(st, key).1 == Some(e.value)
  {
    GetCensus(st, key);
    GetAnswers(st, key);
  }

  lemma GetCensus<K, V>(st: State<K, V>, key: K)
    ensures Census(Get(st, key).0) == Census(st)
    ensures Residents(Get(st, key).0) == Residents(st)
    ensures Accounted(st) ==> Accounted(Get(st, key).0)
  {
    if key in Keys(st.t1) {
      PromoteCensus(st, key);
    } else if key in Keys(st.t2) {
      EraseSplits(st.t2, key);
      PushSplits(Erase(st.t2, key), Find(st.t2, key));
    }
  }

  lemma PromoteCensus<K, V>(st: State<K, V>, key: K)
    requires key in Keys(st.t1)
    ensures Census(Get(st, key).0) == Census(st)
    ensures Residents(Get(st, key).0) == Residents(st)
    ensures Accounted(st) ==> Accounted(Get(st, key).0)
  {
    EraseSplits(st.t1, key);
    PushSplits(st.t2, Find(st.t1, key));
    var a, a', b, b' := Keys(st.t1), Keys(Erase(st.t1, key)), Keys(st.t2), Keys([Find(st.t1, key)] + st.t2);
    assert multiset(a') + multiset(b') == multiset(a) + multiset(b);
  }

  lemma GetAnswers<K, V>(st: State<K, V>, key: K)
    requires OncePerKey(st)
    ensures Get(st, key).1.Some? <==> Contains(st, key)
    ensures forall e :: e in Residents(st) && e.key == key ==> Get(st, key).1 == Some(e.value)
  {
    forall e | e in Residents(st) && e.key == key ensures Get(st, key).1 == Some(e.value) {
      ResidentIsFound(st, e);
    }
  }

  /** A lookup that answers moves the key to the front of T2 and touches nothing else. */
  lemma GetPromotes<K, V>(st: State<K, V>, key: K)
    requires Inv(st) && Contains(st, key)
    ensures var r := Get(st, key).0;
      && r.t2 != [] && r.t2[0].key == key && key !in Keys(r.t1)
      && r.b1 == st.b1 && r.b2 == st.b2 && r.p == st.p && r.current == st.current && r.capacity == st.capacity
  {
    InvMeans(st);
    if key in Keys(st.t1) {
      var i := Position(Keys(st.t1), key);
      KeysEraseAt(st.t1, i);
      assert forall j :: 0 <= j < |st.t1| && j != i ==> Keys(st.t1)[j] != key;
    }
  }

  /** A resident entry is the one its key finds: no other entry carries that key. */
  lemma ResidentIsFound<K, V>(st: State<K, V>, e: Entry<K, V>)
    requires OncePerKey(st) && e in Residents(st)
    ensures if e.key in Keys(st.t1) then e == Find(st.t1, e.key)
            else e.key in Keys(st.t2) && e == Find(st.t2, e.key)
  {
    InvMeans(st);
    if e in st.t1 {
      var i :| 0 <= i < |st.t1| && st.t1[i] == e;
      assert Keys(st.t1)[i] == e.key;
    } else {
      var i :| 0 <= i < |st.t2| && st.t2[i] == e;
      assert Keys(st.t2)[i] == e.key;
    }
  }

  ghost predicate Known<K, V>(st: State<K, V>, key: K) {
    key in Census(st)
  }

  /** The prepared state a put of a non-resident key evicts from. */
  ghost function Prepared<K, V>(st: State<K, V>, key: K): State<K, V> {
    if key in st.b1 then AdaptUp(st, key)
    else if key in st.b2 then AdaptDown(st, key)
    else TrimGhosts(st)
  }

  lemma PreparedFrame<K, V>(st: State<K, V>, key: K)
    ensures var q := Prepared(st, key);
            && q.t1 == st.t1 && q.t2 == st.t2 && q.current == st.current && q.capacity == st.capacity
            && (TargetInRange(st) ==> TargetInRange(q))
  {
  }

  lemma PreparedCensus<K, V>(st: State<K, V>, key: K)
    ensures Census(Prepared(st, key)) <= Census(st)
    ensures key in st.b1 || key in st.b2 ==> Census(Prepared(st, key)) == Census(st) - multiset{key}
  {
    if key in st.b1 {
      EraseKeySplits(st.b1, key);
    } else if key in st.b2 {
      EraseKeySplits(st.b2, key);
    } else {
      TrimCensus(st);
    }
  }

  lemma TrimCensus<K, V>(st: State<K, V>)
    ensures Census(TrimGhosts(st)) <= Census(st)
  {
    var q := TrimGhosts(st);
    ShrunkCensus(st, q);
  }

  lemma ShrunkCensus<K, V>(st: State<K, V>, q: State<K, V>)
    requires q.t1 == st.t1 && q.t2 == st.t2 && q.b1 <= st.b1 && q.b2 <= st.b2
    ensures Census(q) <= Census(st)
  {
    PrefixMultiset(q.b1, st.b1);
    PrefixMultiset(q.b2, st.b2);
  }

  lemma PrefixMultiset<K>(a: seq<K>, b: seq<K>)
    requires a <= b
    ensures multiset(a) <= multiset(b)
  {
    assert b == a + b[|a|..];
  }

  lemma RebindT1Census<K, V>(st: State<K, V>, key: K, value: V, size: nat)
    requires key in Keys(st.t1)
    ensures var r := Put(st, key, value, size).state;
            && Census(r) == Census(st)
            && (Accounted(st) ==> Accounted(r))
            && Residents(r) == Residents(st) - multiset{Find(st.t1, key)} + multiset{Entry(key, value, size)}
  {
    EraseSplits(st.t1, key);
    PushSplits(st.t2, Entry(key, value, size));
    var a, a', b, b' := Keys(st.t1), Keys(Erase(st.t1, key)), Keys(st.t2), Keys([Entry(key, value, size)] + st.t2);
    assert multiset(a') + multiset(b') == multiset(a) + multiset(b);
  }

  lemma RebindT2Census<K, V>(st: State<K, V>, key: K, value: V, size: nat)
    requires key !in Keys(st.t1) && key in Keys(st.t2)
    ensures var r := Put(st, key, value, size).state;
            && Census(r) == Census(st)
            && (Accounted(st) ==> Accounted(r))
            && Residents(r) == Residents(st) - multiset{Find(st.t2, key)} + multiset{Entry(key, value, size)}
  {
    EraseSplits(st.t2, key);
    PushSplits(Erase(st.t2, key), Entry(key, value, size));
  }

  /** A put of a non-resident key evicts from the prepared state and inserts at the front of `t1` or `t2`. */
  lemma InsertEffect<K, V>(st: State<K, V>, key: K, value: V, size: nat)
    requires !Contains(st, key)
    ensures var r := Put(st, key, value, size);
            var e := EvictFor(Prepared(st, key), size);
            && Census(r.state) == Census(e.state) + multiset{key}
            && (Accounted(e.state) ==> Accounted(r.state))
            && Residents(r.state) == Residents(e.state) + multiset{Entry(key, value, size)}
            && r.evicted == e.evicted && r.state.p == e.state.p && r.state.capacity == e.state.capacity
  {
    var e := EvictFor(Prepared(st, key), size).state;
    if key in st.b1 || key in st.b2 {
      InsertT2Effect(e, Entry(key, value, size));
    } else {
      InsertT1Effect(e, Entry(key, value, size));
    }
  }

  lemma InsertT1Effect<K, V>(st: State<K, V>, e: Entry<K, V>)
    ensures Census(InsertT1(st, e)) == Census(st) + multiset{e.key}
    ensures Residents(InsertT1(st, e)) == Residents(st) + multiset{e}
    ensures Accounted(st) ==> Accounted(InsertT1(st, e))
  {
    PushSplits(st.t1, e);
  }

  lemma InsertT2Effect<K, V>(st: State<K, V>, e: Entry<K, V>)
    ensures Census(InsertT2(st, e)) == Census(st) + multiset{e.key}
    ensures Residents(InsertT2(st, e)) == Residents(st) + multiset{e}
    ensures Accounted(st) ==> Accounted(InsertT2(st, e))
  {
    PushSplits(st.t2, e);
  }

  /** Every put keeps the key census, the byte counter and the target, whichever of the five cases it takes. */
  lemma PutKeepsInv<K, V>(st: State<K, V>, key: K, value: V, size: nat)
    requires Inv(st)
    ensures Inv(Put(st, key, value, size).state)
  {
    if key in Keys(st.t1) {
      RebindT1Census(st, key, value, size);
    } else if key in Keys(st.t2) {
      RebindT2Census(st, key, value, size);
    } else {
      InsertKeepsInv(st, key, value, size);
    }
  }

  lemma InsertKeepsInv<K, V>(st: State<K, V>, key: K, value: V, size: nat)
    requires Inv(st) && !Contains(st, key)
    ensures Inv(Put(st, key, value, size).state)
  {
    var q := Prepared(st, key);
    PreparedFrame(st, key);
    EvictForEffect(q, size);
    EvictForLeavesRoom(q, size);
    InsertEffect(st, key, value, size);
    PreparedCensus(st, key);
    NotPrepared(st, key);
    OnceMore(Census(st), Census(q), key);
  }

  lemma OnceMore<K>(before: multiset<K>, kept: multiset<K>, key: K)
    requires (forall k :: k in before ==> before[k] == 1) && kept <= before && kept[key] == 0
    ensures forall k :: k in kept + multiset{key} ==> (kept + multiset{key})[k] == 1
  {
    forall k | k in kept + multiset{key} ensures (kept + multiset{key})[k] == 1 {
      assert k in kept ==> kept[k] <= before[k];
    }
  }

  lemma NotPrepared<K, V>(st: State<K, V>, key: K)
    requires OncePerKey(st) && !Contains(st, key)
    ensures Census(Prepared(st, key))[key] == 0
  {
    PreparedCensus(st, key);
    if key in st.b1 || key in st.b2 {
      assert key in Census(st);
    } else {
      assert key !in Census(st);
    }
  }

  lemma RemoveKeepsInv<K, V>(st: State<K, V>, key: K)
    requires Inv(st)
    ensures Inv(Remove(st, key).0)
    ensures Remove(st, key).1 <==> Contains(st, key)
    ensures !Known(Remove(st, key).0, key)
  {
    if key in Keys(st.t1) {
      EraseSplits(st.t1, key);
    } else if key in Keys(st.t2) {
      EraseSplits(st.t2, key);
    } else {
      EraseKeySplits(st.b1, key);
      EraseKeySplits(st.b2, key);
    }
    RemoveCensus(st, key);
  }

  lemma RemoveCensus<K, V>(st: State<K, V>, key: K)
    requires OncePerKey(st)
    ensures Census(Remove(st, key).0) == Census(st) - multiset{key}
  {
    if key in Keys(st.t1) {
      EraseSplits(st.t1, key);
    } else if key in Keys(st.t2) {
      EraseSplits(st.t2, key);
    } else {
      EraseKeySplits(st.b1, key);
      EraseKeySplits(st.b2, key);
      InvMeans(st);
      assert key in st.b1 ==> key in multiset(st.b1);
      assert key in st.b2 ==> key in multiset(st.b2);
    }
  }

  // ----- conservation ----------------------------------------------------------------------------------------

  ghost function Bound<K, V>(st: State<K, V>, key: K): multiset<Entry<K, V>> {
    if key in Keys(st.t1) then multiset{Find(st.t1, key)}
    else if key in Keys(st.t2) then multiset{Find(st.t2, key)}
    else multiset{}
  }

  /**
   Nothing is lost and nothing is made up: the old residents, with the key rebound to the new value, are the new
   residents plus the evicted entries.
   */
  lemma PutConserves<K, V>(st: State<K, V>, key: K, value: V, size: nat)
    ensures var r := Put(st, key, value, size);
            Residents(r.state) + multiset(r.evicted)
            == Residents(st) - Bound(st, key) + multiset{Entry(key, value, size)}
  {
    if key in Keys(st.t1) {
      RebindT1Census(st, key, value, size);
    } else if key in Keys(st.t2) {
      RebindT2Census(st, key, value, size);
    } else {
      PreparedFrame(st, key);
      EvictForEffect(Prepared(st, key), size);
      InsertEffect(st, key, value, size);
    }
  }

  /** The evicted keys are remembered as ghosts, so none of them is still resident. */
  lemma EvictedBecomeGhosts<K, V>(st: State<K, V>, key: K, value: V, size: nat)
    requires Inv(st)
    ensures var r := Put(st, key, value, size);
            forall e :: e in r.evicted ==> !Contains(r.state, e.key) && e.key in r.state.b1 + r.state.b2
  {
    var r := Put(st, key, value, size);
    PutKeepsInv(st, key, value, size);
    InvMeans(r.state);
    if !Contains(st, key) {
      EvictForGhosts(Prepared(st, key), size);
    }
  }

  lemma {:induction false} EvictForGhosts<K, V>(st: State<K, V>, needed: nat)
    ensures var r := EvictFor(st, needed);
            && (forall e :: e in r.evicted ==> e.key in r.state.b1 + r.state.b2)
            && (forall k :: k in st.b1 ==> k in r.state.b1)
            && (forall k :: k in st.b2 ==> k in r.state.b2)
    decreases |st.t1| + |st.t2|
  {
    if MustEvict(st, needed) {
      EvictForGhosts(EvictOne(st).state, needed);
    }
  }

  // ----- placement and adaptation ----------------------------------------------------------------------------

  /** A key seen before lands at the front of `t2`, a new one at the front of `t1`; it is nowhere else. */
  lemma PutPlaces<K, V>(st: State<K, V>, key: K, value: V, size: nat)
    requires Inv(st)
    ensures var r := Put(st, key, value, size).state;
            && (Known(st, key) ==> r.t2 != [] && r.t2[0] == Entry(key, value, size))
            && (!Known(st, key) ==> r.t1 != [] && r.t1[0] == Entry(key, value, size))
            && Get(r, key).1 == Some(value)
  {
    var r := Put(st, key, value, size).state;
    PutKeepsInv(st, key, value, size);
    assert Entry(key, value, size) in Residents(r) by {
      PutConserves(st, key, value, size);
      FreshIsResident(st, key, value, size);
    }
    GetAnswers(r, key);
    assert Known(st, key) <==> Contains(st, key) || key in st.b1 || key in st.b2;
  }

  lemma FreshIsResident<K, V>(st: State<K, V>, key: K, value: V, size: nat)
    ensures Entry(key, value, size) in Residents(Put(st, key, value, size).state)
  {
    var r := Put(st, key, value, size).state;
    assert Entry(key, value, size) in r.t1 || Entry(key, value, size) in r.t2;
  }

  /**
   Only ghost hits move the target: a hit in `b1` raises it unless it is at capacity or `b2` is empty, a hit in
   `b2` lowers it unless it is at zero or `b1` is empty, and one hit moves it by at most one.
   */
  lemma PutAdapts<K, V>(st: State<K, V>, key: K, value: V, size: nat)
    requires Inv(st)
    ensures var p' := Put(st, key, value, size).state.p;
            && st.p - 1.0 <= p' <= st.p + 1.0
            && (p' > st.p <==> key in st.b1 && st.p < st.capacity as real && st.b2 != [])
            && (p' < st.p <==> key in st.b2 && st.p > 0.0 && st.b1 != [])
  {
    InvMeans(st);
    if !Contains(st, key) {
      EvictForLeavesRoom(Prepared(st, key), size);
      PreparedTarget(st, key);
    }
  }

  /** How far: by the ratio of the ghost lists' lengths, at most one, cut to the range of the target. */
  lemma PutAdaptsBy<K, V>(st: State<K, V>, key: K, value: V, size: nat)
    requires Inv(st)
    ensures var target := Put(st, key, value, size).state.p;
      && (key in st.b1 ==>
            target == Min(st.p + Min(1.0, |st.b2| as real / |st.b1| as real), st.capacity as real))
      && (key in st.b2 ==> target == Max(st.p - Min(1.0, |st.b1| as real / |st.b2| as real), 0.0))
      && (key !in st.b1 && key !in st.b2 ==> target == st.p)
  {
    InvMeans(st);
    if !Contains(st, key) {
      EvictForLeavesRoom(Prepared(st, key), size);
      RatioAtLeastOne(|st.b1|, |st.b2|);
      RatioAtLeastOne(|st.b2|, |st.b1|);
    }
  }

  lemma RatioAtLeastOne(a: nat, b: nat)
    ensures b > 0 ==> (a >= b <==> a as real / b as real >= 1.0)
  {
  }

  lemma PreparedTarget<K, V>(st: State<K, V>, key: K)
    requires TargetInRange(st) && Apart(st.b1, st.b2)
    ensures var p' := Prepared(st, key).p;
            && st.p - 1.0 <= p' <= st.p + 1.0
            && (p' > st.p <==> key in st.b1 && st.p < st.capacity as real && st.b2 != [])
            && (p' < st.p <==> key in st.b2 && st.p > 0.0 && st.b1 != [])
  {
    if key in st.b1 {
      Fraction(|st.b2|, |st.b1|);
    } else if key in st.b2 {
      Fraction(|st.b1|, |st.b2|);
    }
  }

  lemma Fraction(a: nat, b: nat)
    requires b > 0
    ensures a < b ==> 0.0 <= a as real / b as real < 1.0
    ensures a as real / b as real == 0.0 <==> a == 0
  {
    assert (a as real / b as real) * b as real == a as real;
  }

  // ----- capacity --------------------------------------------------------------------------------------------

  /** A put leaves the cache within capacity exactly when the new entry does, next to what it may not evict. */
  lemma PutFitsIff<K, V>(st: State<K, V>, key: K, value: V, size: nat)
    requires Inv(st)
    ensures Put(st, key, value, size).state.current <= st.capacity
            <==> if key in Keys(st.t1) then st.current - Find(st.t1, key).size + size <= st.capacity
                 else if key in Keys(st.t2) then st.current - Find(st.t2, key).size + size <= st.capacity
                 else size <= st.capacity
  {
    if !Contains(st, key) {
      PreparedFrame(st, key);
      EvictForLeavesRoom(Prepared(st, key), size);
      EvictForEffect(Prepared(st, key), size);
    }
  }

  /** A larger value put on a resident key does not fit, and nothing is evicted to make it. */
  lemma ResidentPutOverflows()
    ensures var st := Put(Empty<int, int>(1), 0, 0, 1).state;
      && st.current == st.capacity == 1
      && Put(st, 0, 0, 2) == Outcome(st.(t1 := [], t2 := [Entry(0, 0, 2)], current := 2), [])
  {
    var st := Put(Empty<int, int>(1), 0, 0, 1).state;
    assert Keys<int, int>([]) == [];
    assert st.t1 == [Entry(0, 0, 1)];
    assert Keys(st.t1) == [0];
  }
}
