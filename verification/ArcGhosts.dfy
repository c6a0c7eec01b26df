/**
 The ghost lists over whole runs. They hold evicted keys in order of eviction, most recent first (`RunGhostsInOrder`),
 and when a new key makes one of them forget a key, it is the one evicted longest ago (`PutForgetsOldest`). Eviction is
 timed by the log of all keys evicted so far, in order.
 */
module ArcGhosts {
  import opened ArcSpec
  import opened ArcTheorems
  import opened ArcRuns

  // ----- the log ---------------------------------------------------------------------------------------------

  /** The keys an operation evicts, in order. */
  ghost function EvictedBy<K, V>(st: State<K, V>, op: Op<K, V>, sizeOf: V -> nat): seq<K> {
    if op.PutOp? then Keys(Put(st, op.key, op.value, sizeOf(op.value)).evicted) else []
  }

  /** The keys evicted over a run, in order. */
  ghost function Log<K, V>(capacity: nat, ops: seq<Op<K, V>>, sizeOf: V -> nat): seq<K> {
    if ops == [] then []
    else
      var before := ops[..|ops| - 1];
      Log(capacity, before, sizeOf) + EvictedBy(Run(capacity, before, sizeOf), ops[|ops| - 1], sizeOf)
  }

  /** When a key was last evicted. */
  ghost function LastAt<K>(log: seq<K>, k: K): (i: nat)
    requires k in log
    ensures i < |log| && log[i] == k && forall j :: i < j < |log| ==> log[j] != k
  {
    if log[|log| - 1] == k then |log| - 1 else LastAt(log[..|log| - 1], k)
  }

  lemma LastIs<K>(log: seq<K>, k: K, i: nat)
    requires i < |log| && log[i] == k && forall j :: i < j < |log| ==> log[j] != k
    ensures LastAt(log, k) == i
  {
  }

  /** More evictions: a key's last one is the same, or among them. */
  lemma LastLater<K>(log: seq<K>, more: seq<K>, k: K)
    requires k in log || k in more
    ensures k in log + more
    ensures k in more ==> LastAt(log + more, k) >= |log|
    ensures k !in more ==> LastAt(log + more, k) == LastAt(log, k)
  {
    if k in more {
      var i := LastAt(more, k);
      assert (log + more)[|log| + i] == k;
    } else {
      LastIs(log + more, k, LastAt(log, k));
    }
  }

  // ----- lists in order of eviction --------------------------------------------------------------------------

  /** Every key was evicted, the most recently evicted first. */
  ghost predicate LatestFirst<K>(b: seq<K>, log: seq<K>) {
    && (forall i :: 0 <= i < |b| ==> b[i] in log)
    && (forall i, j :: 0 <= i < j < |b| ==> LastAt(log, b[i]) > LastAt(log, b[j]))
  }

  lemma StillLatestFirst<K>(b: seq<K>, log: seq<K>, k: K)
    requires LatestFirst(b, log) && k !in b
    ensures LatestFirst(b, log + [k])
  {
    forall i | 0 <= i < |b| ensures b[i] in log + [k] && LastAt(log + [k], b[i]) == LastAt(log, b[i]) {
      LastLater(log, [k], b[i]);
    }
  }

  lemma PushLatestFirst<K>(b: seq<K>, log: seq<K>, k: K)
    requires LatestFirst(b, log) && k !in b
    ensures LatestFirst([k] + b, log + [k])
  {
    StillLatestFirst(b, log, k);
    LastIs(log + [k], k, |log|);
    forall i | 0 <= i < |b| ensures LastAt(log + [k], b[i]) < |log| {
      LastLater(log, [k], b[i]);
    }
  }

  lemma CutLatestFirst<K>(b: seq<K>, log: seq<K>, i: nat)
    requires LatestFirst(b, log) && i < |b|
    ensures LatestFirst(EraseAt(b, i), log)
  {
    var r := EraseAt(b, i);
    assert forall j :: 0 <= j < |r| ==> r[j] == if j < i then b[j] else b[j + 1];
  }

  // ----- every operation -------------------------------------------------------------------------------------

  ghost predicate GhostsInOrder<K, V>(st: State<K, V>, log: seq<K>) {
    LatestFirst(st.b1, log) && LatestFirst(st.b2, log)
  }

  lemma EvictOneInOrder<K, V>(st: State<K, V>, log: seq<K>)
    requires OncePerKey(st) && GhostsInOrder(st, log) && (st.t1 != [] || st.t2 != [])
    ensures var one := EvictOne(st); |one.evicted| == 1 && GhostsInOrder(one.state, log + [one.evicted[0].key])
  {
    InvMeans(st);
    var e := EvictOne(st).evicted[0];
    if VictimInT1(st) {
      assert Keys(st.t1)[|st.t1| - 1] == e.key;
      PushLatestFirst(st.b1, log, e.key);
      StillLatestFirst(st.b2, log, e.key);
    } else {
      assert Keys(st.t2)[|st.t2| - 1] == e.key;
      PushLatestFirst(st.b2, log, e.key);
      StillLatestFirst(st.b1, log, e.key);
    }
  }

  lemma {:induction false} EvictForInOrder<K, V>(st: State<K, V>, needed: nat, log: seq<K>)
    requires OncePerKey(st) && GhostsInOrder(st, log)
    ensures var r := EvictFor(st, needed); GhostsInOrder(r.state, log + Keys(r.evicted))
    decreases |st.t1| + |st.t2|
  {
    if MustEvict(st, needed) {
      var one := EvictOne(st);
      EvictOneInOrder(st, log);
      EvictOneCensus(st);
      var k := one.evicted[0].key;
      EvictForInOrder(one.state, needed, log + [k]);
      LogOneMore(log, one.evicted, EvictFor(one.state, needed).evicted);
    } else {
      assert Keys<K, V>([]) == [] && log + [] == log;
    }
  }

  lemma LogOneMore<K, V>(log: seq<K>, one: seq<Entry<K, V>>, rest: seq<Entry<K, V>>)
    requires |one| == 1
    ensures log + Keys(one + rest) == log + [one[0].key] + Keys(rest)
  {
    KeysConcat(one, rest);
    assert Keys(one) == [one[0].key];
  }

  lemma PreparedInOrder<K, V>(st: State<K, V>, key: K, log: seq<K>)
    requires GhostsInOrder(st, log)
    ensures GhostsInOrder(Prepared(st, key), log)
  {
    if key in st.b1 {
      CutLatestFirst(st.b1, log, Position(st.b1, key));
    } else if key in st.b2 {
      CutLatestFirst(st.b2, log, Position(st.b2, key));
    }
  }

  lemma PutInOrder<K, V>(st: State<K, V>, key: K, value: V, size: nat, log: seq<K>)
    requires Inv(st) && GhostsInOrder(st, log)
    ensures var r := Put(st, key, value, size); GhostsInOrder(r.state, log + Keys(r.evicted))
  {
    if Contains(st, key) {
      assert Keys<K, V>([]) == [] && log + [] == log;
    } else {
      PreparedInOrder(st, key, log);
      PreparedCensus(st, key);
      FewerOncePerKey(st, Prepared(st, key));
      EvictForInOrder(Prepared(st, key), size, log);
    }
  }

  lemma FewerOncePerKey<K, V>(st: State<K, V>, q: State<K, V>)
    requires OncePerKey(st) && Census(q) <= Census(st)
    ensures OncePerKey(q)
  {
    forall k | k in Census(q) ensures Census(q)[k] == 1 {
      assert Census(q)[k] <= Census(st)[k];
    }
  }

  lemma RemoveInOrder<K, V>(st: State<K, V>, key: K, log: seq<K>)
    requires GhostsInOrder(st, log)
    ensures GhostsInOrder(Remove(st, key).0, log)
  {
    if key in st.b1 { CutLatestFirst(st.b1, log, Position(st.b1, key)); }
    if key in st.b2 { CutLatestFirst(st.b2, log, Position(st.b2, key)); }
  }

  lemma StepInOrder<K, V>(st: State<K, V>, op: Op<K, V>, sizeOf: V -> nat, log: seq<K>)
    requires Inv(st) && GhostsInOrder(st, log)
    ensures GhostsInOrder(Step(st, op, sizeOf), log + EvictedBy(st, op, sizeOf))
  {
    assert log + [] == log;
    match op
    case GetOp(key) =>
    case PutOp(key, value) => PutInOrder(st, key, value, sizeOf(value), log);
    case RemoveOp(key) => RemoveInOrder(st, key, log);
    case ClearOp =>
  }

  /** In every reachable state both ghost lists are in order of eviction, most recent first. */
  lemma {:induction false} RunGhostsInOrder<K, V>(capacity: nat, ops: seq<Op<K, V>>, sizeOf: V -> nat)
    ensures GhostsInOrder(Run(capacity, ops, sizeOf), Log(capacity, ops, sizeOf))
    decreases |ops|
  {
    if ops != [] {
      var before := ops[..|ops| - 1];
      RunGhostsInOrder(capacity, before, sizeOf);
      RunKeepsInv(capacity, before, sizeOf);
      StepInOrder(Run(capacity, before, sizeOf), ops[|ops| - 1], sizeOf, Log(capacity, before, sizeOf));
    }
  }

  // ----- which ghost is forgotten ----------------------------------------------------------------------------

  /** A ghost was one before, or was just evicted; and what was one before still is. */
  lemma {:induction false} EvictForGhostKeys<K, V>(st: State<K, V>, needed: nat, k: K)
    ensures var r := EvictFor(st, needed);
      && (k in r.state.b1 ==> k in st.b1 || k in Keys(r.evicted))
      && (k in r.state.b2 ==> k in st.b2 || k in Keys(r.evicted))
      && (k in Keys(r.evicted) ==> k in r.state.b1 || k in r.state.b2)
      && (k in st.b1 ==> k in r.state.b1) && (k in st.b2 ==> k in r.state.b2)
    decreases |st.t1| + |st.t2|
  {
    if MustEvict(st, needed) {
      var one := EvictOne(st);
      EvictForGhostKeys(one.state, needed, k);
      var rest := EvictFor(one.state, needed);
      KeysConcat(one.evicted, rest.evicted);
      assert Keys(one.evicted) == [one.evicted[0].key];
    } else {
      assert Keys<K, V>([]) == [];
    }
  }

  /** Trimming drops at most one key, the last of the list it trims. */
  lemma TrimDrops<K, V>(st: State<K, V>, gone: K)
    requires OncePerKey(st) && Known(st, gone) && !Known(TrimGhosts(st), gone)
    ensures gone in st.b1 ==>
      && st.b1[|st.b1| - 1] == gone && TrimGhosts(st).b1 == st.b1[..|st.b1| - 1]
      && |st.t1| + |st.b1| >= st.capacity
    ensures gone !in st.b1 ==>
      && gone in st.b2 && st.b2[|st.b2| - 1] == gone && TrimGhosts(st).b2 == st.b2[..|st.b2| - 1]
      && |st.t1| + |st.b1| < st.capacity && |st.t1| + |st.t2| + |st.b1| + |st.b2| >= 2 * st.capacity
  {
    var q := TrimGhosts(st);
    assert gone in Keys(st.t1) ==> gone in multiset(Keys(q.t1));
    assert gone in Keys(st.t2) ==> gone in multiset(Keys(q.t2));
    if gone in st.b1 {
      assert q.b1 != st.b1;
      LastDropped(st.b1, gone);
    } else {
      assert gone in st.b2 && q.b2 != st.b2;
      LastDropped(st.b2, gone);
    }
  }

  lemma LastDropped<K>(b: seq<K>, gone: K)
    requires gone in b
    ensures gone !in b[..|b| - 1] ==> b[|b| - 1] == gone
  {
    assert b == b[..|b| - 1] + [b[|b| - 1]];
  }

  /** A key that a put of a new key takes out of the four lists was a ghost, and was not evicted by it. */
  lemma PutDrops<K, V>(st: State<K, V>, key: K, value: V, size: nat, gone: K)
    requires Inv(st) && !Known(st, key) && Known(st, gone) && !Known(Put(st, key, value, size).state, gone)
    ensures !Known(TrimGhosts(st), gone) && gone !in Keys(Put(st, key, value, size).evicted)
  {
    NewKeyKnows(st, key, value, size, gone);
    if gone in Keys(Put(st, key, value, size).evicted) { EvictedIsKnown(st, key, value, size, gone); }
  }

  lemma EvictedIsKnown<K, V>(st: State<K, V>, key: K, value: V, size: nat, k: K)
    requires !Known(st, key) && k in Keys(Put(st, key, value, size).evicted)
    ensures Known(Put(st, key, value, size).state, k)
  {
    assert !Contains(st, key) && key !in st.b1 && key !in st.b2;
    EvictForGhostKeys(TrimGhosts(st), size, k);
  }

  /** By the log, a key was evicted before every key of a list. */
  ghost predicate EvictedBeforeAll<K>(gone: K, b: seq<K>, log: seq<K>) {
    gone in log && forall k :: k in b ==> k in log && LastAt(log, gone) < LastAt(log, k)
  }

  lemma DroppedIsOldest<K>(b: seq<K>, kept: seq<K>, gone: K, after: seq<K>, log: seq<K>, more: seq<K>)
    requires b != [] && kept == b[..|b| - 1] && b[|b| - 1] == gone && LatestFirst(b, log) && gone !in more
    requires forall k :: k in after ==> k in kept || k in more
    ensures EvictedBeforeAll(gone, after, log + more)
  {
    LastLater(log, more, gone);
    forall k | k in after ensures k in log + more && LastAt(log + more, gone) < LastAt(log + more, k) {
      if k !in more {
        var i :| 0 <= i < |b| - 1 && b[i] == k;
        assert LastAt(log, b[i]) > LastAt(log, gone);
      }
      LastLater(log, more, k);
    }
  }

  /**
   In every run, a key that a put of a new key makes the cache forget was evicted before every key left in its ghost
   list. It is one of the first ghost list when that and T1 fill the capacity, and one of the second only when they do
   not, and all four lists together are full.
   */
  lemma PutForgetsOldest<K, V>(capacity: nat, ops: seq<Op<K, V>>, sizeOf: V -> nat, key: K, value: V, gone: K)
    requires var st := Run(capacity, ops, sizeOf);
             && !Known(st, key) && Known(st, gone)
             && !Known(Run(capacity, ops + [PutOp(key, value)], sizeOf), gone)
    ensures var st := Run(capacity, ops, sizeOf);
            var r := Run(capacity, ops + [PutOp(key, value)], sizeOf);
            var log := Log(capacity, ops + [PutOp(key, value)], sizeOf);
            if gone in st.b1 then |st.t1| + |st.b1| >= capacity && EvictedBeforeAll(gone, r.b1, log)
            else
              && gone in st.b2 && EvictedBeforeAll(gone, r.b2, log)
              && |st.t1| + |st.b1| < capacity && |st.t1| + |st.t2| + |st.b1| + |st.b2| >= 2 * capacity
  {
    var st := Run(capacity, ops, sizeOf);
    assert (ops + [PutOp(key, value)])[..|ops|] == ops;
    RunKeepsInv(capacity, ops, sizeOf);
    RunGhostsInOrder(capacity, ops, sizeOf);
    NewKeyForgetsOldest(st, key, value, sizeOf(value), gone, Log(capacity, ops, sizeOf));
  }

  lemma NewKeyForgetsOldest<K, V>(st: State<K, V>, key: K, value: V, size: nat, gone: K, log: seq<K>)
    requires Inv(st) && GhostsInOrder(st, log)
    requires !Known(st, key) && Known(st, gone) && !Known(Put(st, key, value, size).state, gone)
    ensures var r := Put(st, key, value, size);
            if gone in st.b1 then
              |st.t1| + |st.b1| >= st.capacity && EvictedBeforeAll(gone, r.state.b1, log + Keys(r.evicted))
            else
              && gone in st.b2 && EvictedBeforeAll(gone, r.state.b2, log + Keys(r.evicted))
              && |st.t1| + |st.b1| < st.capacity && |st.t1| + |st.t2| + |st.b1| + |st.b2| >= 2 * st.capacity
  {
    PutDrops(st, key, value, size, gone);
    TrimDrops(st, gone);
    NewKeyGhosts(st, key, value, size);
    var r := Put(st, key, value, size);
    ForgottenIsOldest(st, TrimGhosts(st), r.state, gone, log, Keys(r.evicted));
  }

  lemma ForgottenIsOldest<K, V>(st: State<K, V>, q: State<K, V>, r: State<K, V>, gone: K, log: seq<K>, more: seq<K>)
    requires GhostsInOrder(st, log) && gone !in more && (gone in st.b1 || gone in st.b2)
    requires gone in st.b1 ==> q.b1 == st.b1[..|st.b1| - 1] && st.b1[|st.b1| - 1] == gone
    requires gone !in st.b1 ==> q.b2 == st.b2[..|st.b2| - 1] && st.b2[|st.b2| - 1] == gone
    requires forall k :: k in r.b1 ==> k in q.b1 || k in more
    requires forall k :: k in r.b2 ==> k in q.b2 || k in more
    ensures EvictedBeforeAll(gone, if gone in st.b1 then r.b1 else r.b2, log + more)
  {
    if gone in st.b1 {
      DroppedIsOldest(st.b1, q.b1, gone, r.b1, log, more);
    } else {
      DroppedIsOldest(st.b2, q.b2, gone, r.b2, log, more);
    }
  }

  /** After a put of a new key the ghosts are those left by trimming and the keys just evicted. */
  lemma NewKeyGhosts<K, V>(st: State<K, V>, key: K, value: V, size: nat)
    requires !Known(st, key)
    ensures var r := Put(st, key, value, size);
      && (forall k :: k in r.state.b1 ==> k in TrimGhosts(st).b1 || k in Keys(r.evicted))
      && (forall k :: k in r.state.b2 ==> k in TrimGhosts(st).b2 || k in Keys(r.evicted))
  {
    var q, r := TrimGhosts(st), Put(st, key, value, size);
    assert !Contains(st, key) && key !in st.b1 && key !in st.b2;
    forall k | k in r.state.b1 ensures k in q.b1 || k in Keys(r.evicted) { EvictForGhostKeys(q, size, k); }
    forall k | k in r.state.b2 ensures k in q.b2 || k in Keys(r.evicted) { EvictForGhostKeys(q, size, k); }
  }

  /** A ghost is forgotten exactly when a list must be trimmed and has one. */
  lemma PutForgetsIff<K, V>(st: State<K, V>, key: K, value: V, size: nat)
    requires Inv(st) && !Known(st, key)
    ensures (exists gone :: Known(st, gone) && !Known(Put(st, key, value, size).state, gone))
       <==> if |st.t1| + |st.b1| >= st.capacity then st.b1 != []
            else |st.t1| + |st.t2| + |st.b1| + |st.b2| >= 2 * st.capacity && st.b2 != []
  {
    var q, r := TrimGhosts(st), Put(st, key, value, size).state;
    forall k ensures Known(r, k) <==> Known(q, k) || k == key { NewKeyKnows(st, key, value, size, k); }
    if q == st {
      assert forall k :: Known(st, k) ==> Known(r, k);
    } else {
      var gone := TrimmedIsGone(st);
      assert gone != key && !Known(r, gone);
    }
  }

  lemma NewKeyKnows<K, V>(st: State<K, V>, key: K, value: V, size: nat, k: K)
    requires !Known(st, key)
    ensures Known(Put(st, key, value, size).state, k) <==> Known(TrimGhosts(st), k) || k == key
  {
    assert !Contains(st, key) && key !in st.b1 && key !in st.b2;
    InsertEffect(st, key, value, size);
    EvictForEffect(TrimGhosts(st), size);
  }

  lemma TrimmedIsGone<K, V>(st: State<K, V>) returns (gone: K)
    requires OncePerKey(st) && TrimGhosts(st) != st
    ensures Known(st, gone) && !Known(TrimGhosts(st), gone)
  {
    InvMeans(st);
    var q := TrimGhosts(st);
    gone := if q.b1 != st.b1 then st.b1[|st.b1| - 1] else st.b2[|st.b2| - 1];
    assert gone in st.b1 || gone in st.b2;
    assert gone !in q.b1 && gone !in q.b2 && gone !in Keys(q.t1) && gone !in Keys(q.t2);
  }
}
