/** What a remove leaves: everything but the key, in its place. */
module ArcRemoval {
  import opened ArcSpec
  import opened ArcTheorems

  /** The elements to keep, in their order. */
  ghost function Sift<T>(s: seq<T>, keep: T -> bool): seq<T> {
    if s == [] then [] else if keep(s[0]) then [s[0]] + Sift(s[1..], keep) else Sift(s[1..], keep)
  }

  lemma {:induction false} SiftAll<T>(s: seq<T>, keep: T -> bool)
    requires forall i :: 0 <= i < |s| ==> keep(s[i])
    ensures Sift(s, keep) == s
  {
    if s != [] { SiftAll(s[1..], keep); }
  }

  lemma {:induction false} SiftCut<T>(s: seq<T>, keep: T -> bool, i: nat)
    requires i < |s| && forall j :: 0 <= j < |s| ==> (keep(s[j]) <==> j != i)
    ensures Sift(s, keep) == EraseAt(s, i)
    decreases i
  {
    if i == 0 {
      SiftAll(s[1..], keep);
      assert EraseAt(s, 0) == s[1..];
    } else {
      SiftCut(s[1..], keep, i - 1);
      assert EraseAt(s, i) == [s[0]] + EraseAt(s[1..], i - 1);
    }
  }

  ghost function NotEntry<K, V>(key: K): Entry<K, V> -> bool { (e: Entry<K, V>) => e.key != key }

  ghost function NotKey<K>(key: K): K -> bool { (k: K) => k != key }

  lemma EraseSifts<K, V>(s: seq<Entry<K, V>>, key: K)
    requires Distinct(Keys(s))
    ensures Erase(s, key) == Sift(s, NotEntry(key))
  {
    assert forall i :: 0 <= i < |s| ==> Keys(s)[i] == s[i].key;
    if key in Keys(s) {
      SiftCut(s, NotEntry(key), Position(Keys(s), key));
    } else {
      SiftAll(s, NotEntry(key));
    }
  }

  lemma EraseKeySifts<K>(s: seq<K>, key: K)
    requires Distinct(s)
    ensures EraseKey(s, key) == Sift(s, NotKey(key))
  {
    if key in s {
      SiftCut(s, NotKey(key), Position(s, key));
    } else {
      SiftAll(s, NotKey(key));
    }
  }

  /** Removing takes the key out of all four lists, and leaves everything else in its place, and the target. */
  lemma RemoveTakesOnly<K, V>(st: State<K, V>, key: K)
    requires Inv(st)
    ensures var r := Remove(st, key).0;
      && r.t1 == Sift(st.t1, NotEntry(key)) && r.t2 == Sift(st.t2, NotEntry(key))
      && r.b1 == Sift(st.b1, NotKey(key)) && r.b2 == Sift(st.b2, NotKey(key))
      && r.p == st.p && r.capacity == st.capacity
  {
    InvMeans(st);
    EraseSifts(st.t1, key);
    EraseSifts(st.t2, key);
    EraseKeySifts(st.b1, key);
    EraseKeySifts(st.b2, key);
  }

  /** The residents after a remove are those before without the key's. */
  lemma RemoveConserves<K, V>(st: State<K, V>, key: K)
    requires Inv(st)
    ensures Residents(Remove(st, key).0) == Residents(st) - Bound(st, key)
  {
    InvMeans(st);
    if key in Keys(st.t1) {
      EraseSplits(st.t1, key);
    } else if key in Keys(st.t2) {
      EraseSplits(st.t2, key);
    }
  }
}
