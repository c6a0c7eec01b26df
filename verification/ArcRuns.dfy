/**
 Whole runs of the adaptive replacement cache, from empty: the invariant, the value of every resident key, the
 capacity bounds, and how the ghost lists may grow.
 */
module ArcRuns {
  import opened Options
  import opened ArcSpec
  import opened ArcTheorems

  datatype Op<K, V> = GetOp(key: K) | PutOp(key: K, value: V) | RemoveOp(key: K) | ClearOp

  function Step<K(==), V>(st: State<K, V>, op: Op<K, V>, sizeOf: V -> nat): State<K, V> {
    match op
    case GetOp(key) => Get(st, key).0
    case PutOp(key, value) => Put(st, key, value, sizeOf(value)).state
    case RemoveOp(key) => Remove(st, key).0
    case ClearOp => Empty(st.capacity)
  }

  function Run<K(==), V>(capacity: nat, ops: seq<Op<K, V>>, sizeOf: V -> nat): State<K, V> {
    if ops == [] then Empty(capacity)
    else Step(Run(capacity, ops[..|ops| - 1], sizeOf), ops[|ops| - 1], sizeOf)
  }

  /** The value a plain map would hold for the key after the run. */
  function LastPut<K(==), V>(ops: seq<Op<K, V>>, key: K): Option<V> {
    if ops == [] then None
    else
      var rest := LastPut(ops[..|ops| - 1], key);
      match ops[|ops| - 1]
      case GetOp(_) => rest
      case PutOp(k, value) => if k == key then Some(value) else rest
      case RemoveOp(k) => if k == key then None else rest
      case ClearOp => None
  }

  lemma StepKeepsInv<K, V>(st: State<K, V>, op: Op<K, V>, sizeOf: V -> nat)
    requires Inv(st)
    ensures Inv(Step(st, op, sizeOf)) && Step(st, op, sizeOf).capacity == st.capacity
  {
    match op
    case GetOp(key) => GetKeeps(st, key);
    case PutOp(key, value) =>
      PutKeepsInv(st, key, value, sizeOf(value));
      PutCapacity(st, key, value, sizeOf(value));
    case RemoveOp(key) => RemoveKeepsInv(st, key);
    case ClearOp => EmptyInv<K, V>(st.capacity);
  }

  lemma PutCapacity<K, V>(st: State<K, V>, key: K, value: V, size: nat)
    ensures Put(st, key, value, size).state.capacity == st.capacity
  {
    if !Contains(st, key) {
      EvictForLeavesRoom(Prepared(st, key), size);
    }
  }

  /** The invariant holds after every run. */
  lemma {:induction false} RunKeepsInv<K, V>(capacity: nat, ops: seq<Op<K, V>>, sizeOf: V -> nat)
    ensures Inv(Run(capacity, ops, sizeOf)) && Run(capacity, ops, sizeOf).capacity == capacity
  {
    if ops == [] {
      EmptyInv<K, V>(capacity);
    } else {
      RunKeepsInv(capacity, ops[..|ops| - 1], sizeOf);
      StepKeepsInv(Run(capacity, ops[..|ops| - 1], sizeOf), ops[|ops| - 1], sizeOf);
    }
  }

  lemma RemovedIsGone<K, V>(st: State<K, V>, key: K, e: Entry<K, V>)
    requires Inv(st) && e in Residents(Remove(st, key).0)
    ensures e in Residents(st) && e.key != key
  {
    assert !Known(Remove(st, key).0, key) by { RemoveKeepsInv(st, key); }
    ResidentIsKnown(Remove(st, key).0, e);
    RemoveLeaves(st, key, e);
  }

  lemma RemoveLeaves<K, V>(st: State<K, V>, key: K, e: Entry<K, V>)
    requires e in Residents(Remove(st, key).0)
    ensures e in Residents(st)
  {
    EraseMembers(st.t1, key);
    EraseMembers(st.t2, key);
    var r := Remove(st, key).0;
    assert e in r.t1 || e in r.t2;
    assert r.t1 == st.t1 || r.t1 == Erase(st.t1, key);
  }

  lemma ResidentIsKnown<K, V>(st: State<K, V>, e: Entry<K, V>)
    requires e in Residents(st)
    ensures Known(st, e.key)
  {
    if e in st.t1 {
      var i :| 0 <= i < |st.t1| && st.t1[i] == e;
      assert Keys(st.t1)[i] in multiset(Keys(st.t1));
    } else {
      var i :| 0 <= i < |st.t2| && st.t2[i] == e;
      assert Keys(st.t2)[i] in multiset(Keys(st.t2));
    }
  }

  lemma EraseMembers<K, V>(s: seq<Entry<K, V>>, key: K)
    ensures forall e :: e in Erase(s, key) ==> e in s
  {
  }

  lemma PutLeaves<K, V>(st: State<K, V>, key: K, value: V, size: nat, e: Entry<K, V>)
    requires Inv(st) && e in Residents(Put(st, key, value, size).state)
    ensures e == Entry(key, value, size) || (e in Residents(st) && e.key != key)
  {
    PutLeavesOld(st, key, value, size, e);
    if e.key == key {
      OneEntryPerKey(st, key, value, size, e);
    }
  }

  lemma PutLeavesOld<K, V>(st: State<K, V>, key: K, value: V, size: nat, e: Entry<K, V>)
    requires e in Residents(Put(st, key, value, size).state)
    ensures e == Entry(key, value, size) || e in Residents(st)
  {
    var r := Put(st, key, value, size);
    PutConserves(st, key, value, size);
    assert e in Residents(r.state) + multiset(r.evicted);
  }

  lemma OneEntryPerKey<K, V>(st: State<K, V>, key: K, value: V, size: nat, e: Entry<K, V>)
    requires Inv(st) && e in Residents(Put(st, key, value, size).state) && e.key == key
    ensures e == Entry(key, value, size)
  {
    var r := Put(st, key, value, size).state;
    PutKeepsInv(st, key, value, size);
    FreshIsResident(st, key, value, size);
    ResidentIsFound(r, e);
    ResidentIsFound(r, Entry(key, value, size));
  }

  /** Over any run, what is resident under a key is the value last put there, at that value's size. */
  lemma {:induction false} RunHoldsLastPuts<K, V>(capacity: nat, ops: seq<Op<K, V>>, sizeOf: V -> nat, e: Entry<K, V>)
    requires e in Residents(Run(capacity, ops, sizeOf))
    ensures LastPut(ops, e.key) == Some(e.value) && e.size == sizeOf(e.value)
  {
    if ops != [] {
      var before, op := ops[..|ops| - 1], ops[|ops| - 1];
      var st := Run(capacity, before, sizeOf);
      RunKeepsInv(capacity, before, sizeOf);
      match op
      case GetOp(key) =>
        GetKeeps(st, key);
        RunHoldsLastPuts(capacity, before, sizeOf, e);
      case PutOp(key, value) =>
        PutLeaves(st, key, value, sizeOf(value), e);
        if e.key != key { RunHoldsLastPuts(capacity, before, sizeOf, e); }
      case RemoveOp(key) =>
        RemovedIsGone(st, key, e);
        RunHoldsLastPuts(capacity, before, sizeOf, e);
      case ClearOp =>
    }
  }

  // ----- bounds ----------------------------------------------------------------------------------------------

  ghost predicate KeySized<K, V>(capacity: nat, ops: seq<Op<K, V>>, sizeOf: V -> nat, keySize: K -> nat) {
    forall i :: 0 <= i < |ops| && ops[i].PutOp? ==>
      sizeOf(ops[i].value) == keySize(ops[i].key) && 1 <= sizeOf(ops[i].value) <= capacity
  }

  ghost predicate Bounded<K, V>(st: State<K, V>) {
    st.current <= st.capacity && |st.t1| + |st.b1| <= st.capacity + 1
  }

  lemma {:induction false} LastPutWasPut<K, V>(capacity: nat, ops: seq<Op<K, V>>, sizeOf: V -> nat,
                                               keySize: K -> nat, key: K)
    requires KeySized(capacity, ops, sizeOf, keySize) && LastPut(ops, key).Some?
    ensures var v := LastPut(ops, key).value; sizeOf(v) == keySize(key) && 1 <= sizeOf(v) <= capacity
  {
    if !(ops[|ops| - 1].PutOp? && ops[|ops| - 1].key == key) {
      LastPutWasPut(capacity, ops[..|ops| - 1], sizeOf, keySize, key);
    }
  }

  lemma {:induction false} CountWithinTotal<K, V>(s: seq<Entry<K, V>>)
    requires forall i :: 0 <= i < |s| ==> s[i].size >= 1
    ensures |s| <= Total(s)
  {
    if s != [] { CountWithinTotal(s[1..]); }
  }

  lemma PutStaysBounded<K, V>(st: State<K, V>, key: K, value: V, size: nat)
    requires Inv(st) && Bounded(st) && 1 <= size <= st.capacity
    requires forall e :: e in Residents(st) ==> e.size >= 1 && (e.key == key ==> e.size == size)
    ensures Bounded(Put(st, key, value, size).state)
  {
    assert |st.t1| <= Total(st.t1) by {
      assert forall i :: 0 <= i < |st.t1| ==> st.t1[i] in Residents(st);
      CountWithinTotal(st.t1);
    }
    assert key in Keys(st.t1) ==> Find(st.t1, key) in Residents(st);
    assert key in Keys(st.t2) ==> Find(st.t2, key) in Residents(st);
    PutCapacity(st, key, value, size);
    PutFitsIff(st, key, value, size);
    if !Contains(st, key) {
      InsertDirectory(st, key, value, size);
    }
  }

  /** A new key adds one to the first list's directory, after trimming; a ghost hit adds nothing. */
  lemma InsertDirectory<K, V>(st: State<K, V>, key: K, value: V, size: nat)
    requires !Contains(st, key) && |st.t1| <= st.capacity && |st.t1| + |st.b1| <= st.capacity + 1
    ensures var r := Put(st, key, value, size).state; |r.t1| + |r.b1| <= st.capacity + 1
  {
    EvictionOrderT1(Prepared(st, key), size);
  }

  lemma StepStaysBounded<K, V>(st: State<K, V>, op: Op<K, V>, sizeOf: V -> nat)
    requires Inv(st) && Bounded(st) && !op.PutOp?
    ensures Bounded(Step(st, op, sizeOf))
  {
    match op
    case GetOp(key) => GetKeeps(st, key);
    case RemoveOp(key) => RemoveKeepsInv(st, key);
    case ClearOp =>
  }

  /**
   When a key determines its value's size and no value exceeds the capacity, every run stays within capacity,
   and the directory of the first list within one entry of it.
   */
  lemma {:induction false} RunStaysWithinCapacity<K, V>(capacity: nat, ops: seq<Op<K, V>>, sizeOf: V -> nat,
                                                        keySize: K -> nat)
    requires KeySized(capacity, ops, sizeOf, keySize)
    ensures Bounded(Run(capacity, ops, sizeOf))
  {
    if ops != [] {
      var before, op := ops[..|ops| - 1], ops[|ops| - 1];
      var st := Run(capacity, before, sizeOf);
      RunStaysWithinCapacity(capacity, before, sizeOf, keySize);
      RunKeepsInv(capacity, before, sizeOf);
      if op.PutOp? {
        forall e | e in Residents(st) ensures e.size >= 1 && (e.key == op.key ==> e.size == sizeOf(op.value)) {
          RunHoldsLastPuts(capacity, before, sizeOf, e);
          LastPutWasPut(capacity, before, sizeOf, keySize, e.key);
        }
        PutStaysBounded(st, op.key, op.value, sizeOf(op.value));
      } else {
        StepStaysBounded(st, op, sizeOf);
      }
    }
  }

  // ----- the second ghost list has no bound ------------------------------------------------------------------

  function Unit(v: int): nat { 1 }

  /** Hit the oldest ghost, then insert two new keys: one more key ends up in the second ghost list. */
  function GrowOps(n: nat): seq<Op<int, int>> {
    if n == 0 then [PutOp(0, 0)] + [PutOp(1, 0)]
    else GrowOps(n - 1) + [PutOp(2 * n - 2, 0)] + [PutOp(2 * n, 0)] + [PutOp(2 * n + 1, 0)]
  }

  ghost predicate Grown(st: State<int, int>, n: nat) {
    && st.capacity == 1 && st.current == 1
    && Keys(st.t1) == [2 * n + 1] && Total(st.t1) == 1
    && st.t2 == [] && st.b1 == [2 * n] && |st.b2| == n
    && forall k :: k in st.b2 ==> k < 2 * n
  }

  ghost predicate GhostHit(st: State<int, int>, n: nat) {
    && st.capacity == 1 && st.current == 1
    && st.t1 == [] && st.t2 == [Entry(2 * n, 0, 1)] && st.b1 == [2 * n + 1] && |st.b2| == n
    && forall k :: k in st.b2 ==> k < 2 * n
  }

  ghost predicate Spilled(st: State<int, int>, n: nat) {
    && st.capacity == 1 && st.current == 1
    && st.t1 == [Entry(2 * n, 0, 1)] && st.t2 == [] && st.b1 == [] && |st.b2| == n
    && forall k :: k in st.b2 ==> k < 2 * n
  }

  lemma HitGhost(st: State<int, int>, n: nat)
    requires Grown(st, n)
    ensures GhostHit(Put(st, 2 * n, 0, 1).state, n)
  {
    var q := AdaptUp(st, 2 * n);
    assert q.b1 == [];
    assert |q.t1| == |Keys(q.t1)| == 1 && q.t1[0].key == 2 * n + 1 && q.t1[1..] == [];
    assert Total(q.t1) == q.t1[0].size;
    assert EvictFor(q, 1).state == EvictOne(q).state;
  }

  lemma SpillGhost(st: State<int, int>, n: nat)
    requires GhostHit(st, n)
    ensures Spilled(Put(st, 2 * n + 2, 0, 1).state, n + 1)
  {
    assert Keys(st.t2) == [2 * n];
    var q := TrimGhosts(st);
    assert EvictFor(q, 1).state == EvictOne(q).state;
  }

  lemma Refill(st: State<int, int>, n: nat)
    requires Spilled(st, n)
    ensures Grown(Put(st, 2 * n + 1, 0, 1).state, n)
  {
    assert Keys(st.t1) == [2 * n];
    var q := TrimGhosts(st);
    assert EvictFor(q, 1).state == EvictOne(q).state;
    var e := Entry(2 * n + 1, 0, 1);
    assert Put(st, 2 * n + 1, 0, 1).state.t1 == [e];
    assert [e][1..] == [] && Total([e]) == 1 && Keys([e]) == [2 * n + 1];
  }

  lemma RunPut(ops: seq<Op<int, int>>, key: int)
    ensures Run(1, ops + [PutOp(key, 0)], Unit) == Put(Run(1, ops, Unit), key, 0, 1).state
  {
    assert (ops + [PutOp(key, 0)])[..|ops|] == ops;
  }

  lemma HitRun(ops: seq<Op<int, int>>, n: nat)
    requires Grown(Run(1, ops, Unit), n)
    ensures GhostHit(Run(1, ops + [PutOp(2 * n, 0)], Unit), n)
  {
    RunPut(ops, 2 * n);
    HitGhost(Run(1, ops, Unit), n);
  }

  lemma SpillRun(ops: seq<Op<int, int>>, n: nat)
    requires GhostHit(Run(1, ops, Unit), n)
    ensures Spilled(Run(1, ops + [PutOp(2 * n + 2, 0)], Unit), n + 1)
  {
    RunPut(ops, 2 * n + 2);
    SpillGhost(Run(1, ops, Unit), n);
  }

  lemma RefillRun(ops: seq<Op<int, int>>, n: nat)
    requires Spilled(Run(1, ops, Unit), n)
    ensures Grown(Run(1, ops + [PutOp(2 * n + 1, 0)], Unit), n)
  {
    RunPut(ops, 2 * n + 1);
    Refill(Run(1, ops, Unit), n);
  }

  lemma {:induction false} RunsGrow(n: nat)
    ensures Grown(Run(1, GrowOps(n), Unit), n)
  {
    if n == 0 {
      FirstPut();
      RefillRun([PutOp(0, 0)], 0);
    } else {
      RunsGrow(n - 1);
      var ops := GrowOps(n - 1);
      HitRun(ops, n - 1);
      SpillRun(ops + [PutOp(2 * n - 2, 0)], n - 1);
      RefillRun(ops + [PutOp(2 * n - 2, 0)] + [PutOp(2 * n, 0)], n);
    }
  }

  lemma FirstPut()
    ensures Spilled(Run(1, [PutOp(0, 0)], Unit), 0)
  {
    RunPut([], 0);
    assert [] + [PutOp(0, 0)] == [PutOp(0, 0)];
    assert Keys<int, int>([]) == [];
  }

  /**
   The paper's bound of twice the capacity on all four lists is not kept: at capacity one, with unit sizes, the
   second ghost list grows past any length, because an insertion that finds `b1` full never trims `b2`. The
   bound on the first list's directory is tight in every one of these runs.
   */
  lemma GhostsGrowWithoutBound(n: nat)
    ensures var st := Run(1, GrowOps(n), Unit);
            && |st.b2| == n
            && |st.t1| + |st.b1| == st.capacity + 1
  {
    RunsGrow(n);
    assert |Keys(Run(1, GrowOps(n), Unit).t1)| == 1;
  }
}
