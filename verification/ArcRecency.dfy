/**
 The order of the resident lists. A get or a put of a key touches it; in every reachable state both resident lists
 are in order of last touch, most recent first, so that evicting from the back evicts the least recently touched
 (`RunMostRecentFirst`, `VictimIsLeastRecent`).
 */
module ArcRecency {
  import opened ArcSpec
  import opened ArcTheorems
  import opened ArcRuns

  predicate Touches<K(==), V>(op: Op<K, V>, key: K) {
    (op.GetOp? || op.PutOp?) && op.key == key
  }

  /** When a key was last touched; -1 if never. */
  function LastTouch<K(==), V>(ops: seq<Op<K, V>>, key: K): (t: int)
    ensures -1 <= t < |ops|
  {
    if ops == [] then -1
    else if Touches(ops[|ops| - 1], key) then |ops| - 1
    else LastTouch(ops[..|ops| - 1], key)
  }

  ghost predicate MostRecentFirst<K, V>(ks: seq<K>, ops: seq<Op<K, V>>) {
    forall i, j :: 0 <= i < j < |ks| ==> LastTouch(ops, ks[i]) > LastTouch(ops, ks[j])
  }

  // ----- what keeps the order --------------------------------------------------------------------------------

  lemma LaterTouch<K, V>(ops: seq<Op<K, V>>, op: Op<K, V>, key: K)
    ensures LastTouch(ops + [op], key) == if Touches(op, key) then |ops| else LastTouch(ops, key)
  {
    assert (ops + [op])[..|ops|] == ops;
  }

  /** An operation that touches none of the keys leaves their order. */
  lemma Untouched<K, V>(ks: seq<K>, ops: seq<Op<K, V>>, op: Op<K, V>)
    requires MostRecentFirst(ks, ops) && forall i :: 0 <= i < |ks| ==> !Touches(op, ks[i])
    ensures MostRecentFirst(ks, ops + [op])
  {
    forall i | 0 <= i < |ks| ensures LastTouch(ops + [op], ks[i]) == LastTouch(ops, ks[i]) {
      LaterTouch(ops, op, ks[i]);
    }
  }

  /** The key that is touched goes in front of the others. */
  lemma TouchedInFront<K, V>(ks: seq<K>, ops: seq<Op<K, V>>, op: Op<K, V>, key: K)
    requires MostRecentFirst(ks, ops) && Touches(op, key) && key !in ks
    ensures MostRecentFirst([key] + ks, ops + [op])
  {
    Untouched(ks, ops, op);
    LaterTouch(ops, op, key);
    forall i | 0 <= i < |ks| ensures LastTouch(ops + [op], ks[i]) < |ops| {
      LaterTouch(ops, op, ks[i]);
    }
  }

  lemma Shortened<K, V>(ks: seq<K>, shorter: seq<K>, ops: seq<Op<K, V>>)
    requires MostRecentFirst(ks, ops) && shorter <= ks
    ensures MostRecentFirst(shorter, ops)
  {
  }

  lemma Erased<K, V>(ks: seq<K>, key: K, ops: seq<Op<K, V>>)
    requires MostRecentFirst(ks, ops)
    ensures MostRecentFirst(EraseKey(ks, key), ops) && key !in EraseKey(ks, key)
  {
    if key in ks {
      var i := Position(ks, key);
      var r := EraseAt(ks, i);
      forall j | 0 <= j < |r| ensures r[j] != key {
        assert r[j] == if j < i then ks[j] else ks[j + 1];
      }
    }
  }

  lemma KeysErase<K, V>(s: seq<Entry<K, V>>, key: K)
    ensures Keys(Erase(s, key)) == EraseKey(Keys(s), key)
  {
    if key in Keys(s) { KeysEraseAt(s, Position(Keys(s), key)); }
  }

  lemma KeysPush<K, V>(e: Entry<K, V>, s: seq<Entry<K, V>>)
    ensures Keys([e] + s) == [e.key] + Keys(s)
  {
  }

  lemma KeysPrefix<K, V>(shorter: seq<Entry<K, V>>, s: seq<Entry<K, V>>)
    requires shorter <= s
    ensures Keys(shorter) <= Keys(s)
  {
  }

  // ----- steps -----------------------------------------------------------------------------------------------

  ghost predicate Ordered<K, V>(st: State<K, V>, ops: seq<Op<K, V>>) {
    MostRecentFirst(Keys(st.t1), ops) && MostRecentFirst(Keys(st.t2), ops)
  }

  /** Taking a key out of wherever it is and putting it in front of T2. */
  lemma Promoted<K, V>(st: State<K, V>, st': State<K, V>, ops: seq<Op<K, V>>, op: Op<K, V>, e: Entry<K, V>)
    requires Ordered(st, ops) && Touches(op, e.key)
    requires st'.t1 == Erase(st.t1, e.key) && st'.t2 == [e] + Erase(st.t2, e.key)
    ensures Ordered(st', ops + [op])
  {
    KeysErase(st.t1, e.key);
    KeysErase(st.t2, e.key);
    Erased(Keys(st.t1), e.key, ops);
    Erased(Keys(st.t2), e.key, ops);
    Untouched(Keys(st'.t1), ops, op);
    KeysPush(e, Erase(st.t2, e.key));
    TouchedInFront(Keys(Erase(st.t2, e.key)), ops, op, e.key);
  }

  lemma GetOrdered<K, V>(st: State<K, V>, ops: seq<Op<K, V>>, key: K)
    requires Inv(st) && Ordered(st, ops)
    ensures Ordered(Get(st, key).0, ops + [GetOp(key)])
  {
    InvMeans(st);
    if Contains(st, key) {
      var e := if key in Keys(st.t1) then Find(st.t1, key) else Find(st.t2, key);
      Promoted(st, Get(st, key).0, ops, GetOp(key), e);
    } else {
      Untouched(Keys(st.t1), ops, GetOp(key));
      Untouched(Keys(st.t2), ops, GetOp(key));
    }
  }

  /** A key that is not resident goes in front of what eviction leaves of the one list or the other. */
  lemma Inserted<K, V>(st: State<K, V>, st': State<K, V>, t1: seq<Entry<K, V>>, t2: seq<Entry<K, V>>,
                       ops: seq<Op<K, V>>, op: Op<K, V>, e: Entry<K, V>)
    requires Ordered(st, ops) && Touches(op, e.key) && !Contains(st, e.key) && t1 <= st.t1 && t2 <= st.t2
    requires (st'.t1 == [e] + t1 && st'.t2 == t2) || (st'.t1 == t1 && st'.t2 == [e] + t2)
    ensures Ordered(st', ops + [op])
  {
    KeysPrefix(t1, st.t1);
    KeysPrefix(t2, st.t2);
    Shortened(Keys(st.t1), Keys(t1), ops);
    Shortened(Keys(st.t2), Keys(t2), ops);
    Untouched(Keys(t1), ops, op);
    Untouched(Keys(t2), ops, op);
    TouchedInFront(Keys(t1), ops, op, e.key);
    TouchedInFront(Keys(t2), ops, op, e.key);
    KeysPush(e, t1);
    KeysPush(e, t2);
  }

  lemma PutOrdered<K, V>(st: State<K, V>, ops: seq<Op<K, V>>, key: K, value: V, size: nat)
    requires Inv(st) && Ordered(st, ops)
    ensures Ordered(Put(st, key, value, size).state, ops + [PutOp(key, value)])
  {
    InvMeans(st);
    var r, e := Put(st, key, value, size).state, Entry(key, value, size);
    if Contains(st, key) {
      Promoted(st, r, ops, PutOp(key, value), e);
    } else {
      var q := Prepared(st, key);
      PreparedFrame(st, key);
      EvictionOrder(q, size);
      var left := EvictFor(q, size).state;
      Inserted(st, r, left.t1, left.t2, ops, PutOp(key, value), e);
    }
  }

  lemma RemoveOrdered<K, V>(st: State<K, V>, ops: seq<Op<K, V>>, key: K)
    requires Inv(st) && Ordered(st, ops)
    ensures Ordered(Remove(st, key).0, ops + [RemoveOp(key)])
  {
    KeysErase(st.t1, key);
    KeysErase(st.t2, key);
    Erased(Keys(st.t1), key, ops);
    Erased(Keys(st.t2), key, ops);
    var r := Remove(st, key).0;
    Untouched(Keys(r.t1), ops, RemoveOp(key));
    Untouched(Keys(r.t2), ops, RemoveOp(key));
  }

  /** In every reachable state both resident lists are in order of last touch. */
  lemma {:induction false} RunMostRecentFirst<K, V>(capacity: nat, ops: seq<Op<K, V>>, sizeOf: V -> nat)
    ensures MostRecentFirst(Keys(Run(capacity, ops, sizeOf).t1), ops)
    ensures MostRecentFirst(Keys(Run(capacity, ops, sizeOf).t2), ops)
  {
    if ops != [] {
      var before, op := ops[..|ops| - 1], ops[|ops| - 1];
      var st := Run(capacity, before, sizeOf);
      RunMostRecentFirst(capacity, before, sizeOf);
      RunKeepsInv(capacity, before, sizeOf);
      assert before + [op] == ops;
      match op
      case GetOp(key) => GetOrdered(st, before, key);
      case PutOp(key, value) => PutOrdered(st, before, key, value, sizeOf(value));
      case RemoveOp(key) => RemoveOrdered(st, before, key);
      case ClearOp =>
    }
  }

  /** So whatever is evicted was touched less recently than everything left in its list. */
  lemma VictimIsLeastRecent<K, V>(capacity: nat, ops: seq<Op<K, V>>, sizeOf: V -> nat, needed: nat)
    ensures var st := Run(capacity, ops, sizeOf); var r := EvictFor(st, needed).state;
      && (forall i, j :: 0 <= i < |r.t1| <= j < |st.t1| ==>
            LastTouch(ops, r.t1[i].key) > LastTouch(ops, st.t1[j].key))
      && (forall i, j :: 0 <= i < |r.t2| <= j < |st.t2| ==>
            LastTouch(ops, r.t2[i].key) > LastTouch(ops, st.t2[j].key))
  {
    var st := Run(capacity, ops, sizeOf);
    RunMostRecentFirst(capacity, ops, sizeOf);
    EvictionOrder(st, needed);
    assert forall k :: 0 <= k < |st.t1| ==> Keys(st.t1)[k] == st.t1[k].key;
    assert forall k :: 0 <= k < |st.t2| ==> Keys(st.t2)[k] == st.t2[k].key;
  }

  // ----- seen once, seen again -------------------------------------------------------------------------------

  lemma PutMovesNoOther<K, V>(st: State<K, V>, other: K, value: V, size: nat, key: K)
    requires key != other
    ensures key in Keys(Put(st, other, value, size).state.t1) ==> key in Keys(st.t1)
    ensures key in Keys(Put(st, other, value, size).state.t2) ==> key in Keys(st.t2)
  {
    var r, e := Put(st, other, value, size).state, Entry(other, value, size);
    PreparedFrame(st, other);
    var left := EvictFor(Prepared(st, other), size).state;
    EvictionOrder(Prepared(st, other), size);
    KeysPush(e, st.t2);
    KeysPush(e, Erase(st.t2, other));
    KeysPush(e, left.t1);
    KeysPush(e, left.t2);
    KeysErase(st.t1, other);
    KeysErase(st.t2, other);
    KeysPrefix(left.t1, st.t1);
    KeysPrefix(left.t2, st.t2);
  }

  /** No operation moves a key it is not about from one resident list to the other. */
  lemma StepMovesNoOther<K, V>(st: State<K, V>, op: Op<K, V>, sizeOf: V -> nat, key: K)
    requires !Touches(op, key)
    ensures key in Keys(Step(st, op, sizeOf).t1) ==> key in Keys(st.t1)
    ensures key in Keys(Step(st, op, sizeOf).t2) ==> key in Keys(st.t2)
  {
    match op
    case GetOp(other) =>
      KeysErase(st.t1, other);
      KeysErase(st.t2, other);
      if other in Keys(st.t1) {
        KeysPush(Find(st.t1, other), st.t2);
      } else if other in Keys(st.t2) {
        KeysPush(Find(st.t2, other), Erase(st.t2, other));
      }
    case PutOp(other, value) => PutMovesNoOther(st, other, value, sizeOf(value), key);
    case RemoveOp(other) =>
      KeysErase(st.t1, other);
      KeysErase(st.t2, other);
    case ClearOp =>
  }

  /**
   T1 holds what was seen once, T2 what was seen again: the last touch of a key in T1 was a put when no list knew the
   key, the last touch of a key in T2 found it in one of the four.
   */
  lemma {:induction false} RunSeenOnceOrAgain<K, V>(capacity: nat, ops: seq<Op<K, V>>, sizeOf: V -> nat, key: K)
    ensures var st := Run(capacity, ops, sizeOf); var t := LastTouch(ops, key);
      && (Contains(st, key) ==> 0 <= t)
      && (key in Keys(st.t1) ==> ops[t].PutOp? && !Known(Run(capacity, ops[..t], sizeOf), key))
      && (key in Keys(st.t2) ==> Known(Run(capacity, ops[..t], sizeOf), key))
  {
    if ops != [] {
      var before, op := ops[..|ops| - 1], ops[|ops| - 1];
      var st := Run(capacity, before, sizeOf);
      RunKeepsInv(capacity, before, sizeOf);
      RunKeepsInv(capacity, ops, sizeOf);
      InvMeans(Run(capacity, ops, sizeOf));
      if Touches(op, key) {
        TouchedPlace(st, op, sizeOf, key);
      } else {
        StepMovesNoOther(st, op, sizeOf, key);
        RunSeenOnceOrAgain(capacity, before, sizeOf, key);
        var t := LastTouch(ops, key);
        assert t >= 0 ==> before[..t] == ops[..t];
      }
    }
  }

  lemma TouchedPlace<K, V>(st: State<K, V>, op: Op<K, V>, sizeOf: V -> nat, key: K)
    requires Inv(st) && Touches(op, key)
    ensures key in Keys(Step(st, op, sizeOf).t1) ==> op.PutOp? && !Known(st, key)
    ensures key in Keys(Step(st, op, sizeOf).t2) ==> Known(st, key)
  {
    StepKeepsInv(st, op, sizeOf);
    var r := Step(st, op, sizeOf);
    InvMeans(r);
    match op
    case GetOp(_) =>
      if Contains(st, key) { GetPromotes(st, key); }
    case PutOp(_, value) =>
      PutPlaces(st, key, value, sizeOf(value));
      assert r.t1 != [] ==> Keys(r.t1)[0] == r.t1[0].key;
      assert r.t2 != [] ==> Keys(r.t2)[0] == r.t2[0].key;
  }
}
