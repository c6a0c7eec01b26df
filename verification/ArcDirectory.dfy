/**
 The directory of the adaptive replacement cache: all the keys its four lists hold together. The policy it is named
 after keeps at most twice the capacity of them. This cache does not in every run (`ArcRuns.GhostsGrowWithoutBound`);
 here is exactly when it does.
 */
module ArcDirectory {
  import opened ArcSpec
  import opened ArcTheorems
  import opened ArcRuns

  function Directory<K, V>(st: State<K, V>): nat {
    |st.t1| + |st.t2| + |st.b1| + |st.b2|
  }

  /** A new key finds a ghost to forget: in `b1` when the first list's directory is full, in `b2` otherwise. */
  predicate ForgetsGhost<K, V>(st: State<K, V>) {
    if |st.t1| + |st.b1| >= st.capacity then st.b1 != [] else st.b2 != []
  }

  predicate HasDirectoryRoom<K(==), V>(st: State<K, V>, key: K) {
    || Contains(st, key) || key in st.b1 || key in st.b2
    || Directory(st) < 2 * st.capacity
    || ForgetsGhost(st)
  }

  lemma CensusSize<K, V>(st: State<K, V>)
    ensures |Census(st)| == Directory(st)
  {
  }

  lemma TrimDirectory<K, V>(st: State<K, V>)
    requires Directory(st) <= 2 * st.capacity
    ensures Directory(TrimGhosts(st)) < 2 * st.capacity <==> Directory(st) < 2 * st.capacity || ForgetsGhost(st)
  {
  }

  /** A put of a known key keeps the number of keys; a new key adds one to what is left after trimming. */
  lemma PutDirectory<K, V>(st: State<K, V>, key: K, value: V, size: nat)
    requires Inv(st)
    ensures Directory(Put(st, key, value, size).state)
         == if Known(st, key) then Directory(st) else Directory(TrimGhosts(st)) + 1
  {
    if key in Keys(st.t1) {
      RebindT1Census(st, key, value, size);
    } else if key in Keys(st.t2) {
      RebindT2Census(st, key, value, size);
    } else {
      InsertGrowsByOne(st, key, value, size);
      PreparedDirectory(st, key);
    }
    CensusSize(st);
    CensusSize(Put(st, key, value, size).state);
  }

  lemma InsertGrowsByOne<K, V>(st: State<K, V>, key: K, value: V, size: nat)
    requires !Contains(st, key)
    ensures |Census(Put(st, key, value, size).state)| == Directory(Prepared(st, key)) + 1
  {
    InsertEffect(st, key, value, size);
    EvictForEffect(Prepared(st, key), size);
    CensusSize(Prepared(st, key));
  }

  lemma PreparedDirectory<K, V>(st: State<K, V>, key: K)
    requires !Contains(st, key)
    ensures Directory(Prepared(st, key)) + 1
         == if Known(st, key) then Directory(st) else Directory(TrimGhosts(st)) + 1
  {
  }

  /**
   A put keeps the directory within twice the capacity exactly when the key is known to one of the lists, the
   directory is not full, or the list it trims has a ghost to forget.
   */
  lemma PutKeepsDirectoryIff<K, V>(st: State<K, V>, key: K, value: V, size: nat)
    requires Inv(st) && Directory(st) <= 2 * st.capacity
    ensures Directory(Put(st, key, value, size).state) <= 2 * st.capacity <==> HasDirectoryRoom(st, key)
  {
    PutDirectory(st, key, value, size);
    TrimDirectory(st);
    assert Known(st, key) <==> Contains(st, key) || key in st.b1 || key in st.b2;
  }

  /** The other operations never add a key. */
  lemma StepAddsNoKey<K, V>(st: State<K, V>, op: Op<K, V>, sizeOf: V -> nat)
    requires Inv(st) && !op.PutOp?
    ensures Directory(Step(st, op, sizeOf)) <= Directory(st)
  {
    CensusSize(st);
    CensusSize(Step(st, op, sizeOf));
    match op
    case GetOp(key) => GetCensus(st, key);
    case RemoveOp(key) => RemoveCensus(st, key);
    case ClearOp =>
  }

  /** After every operation of the run, the directory is within twice the capacity. */
  ghost predicate DirectoryBounded<K, V>(capacity: nat, ops: seq<Op<K, V>>, sizeOf: V -> nat) {
    forall n :: 0 <= n <= |ops| ==> Directory(Run(capacity, ops[..n], sizeOf)) <= 2 * capacity
  }

  /** Every put of the run finds room in the directory. */
  ghost predicate PutsHaveRoom<K, V>(capacity: nat, ops: seq<Op<K, V>>, sizeOf: V -> nat) {
    forall n :: 0 <= n < |ops| && ops[n].PutOp? ==> HasDirectoryRoom(Run(capacity, ops[..n], sizeOf), ops[n].key)
  }

  lemma BoundedBefore<K, V>(capacity: nat, ops: seq<Op<K, V>>, op: Op<K, V>, sizeOf: V -> nat)
    requires DirectoryBounded(capacity, ops + [op], sizeOf)
    ensures DirectoryBounded(capacity, ops, sizeOf)
  {
    forall n | 0 <= n <= |ops| ensures Directory(Run(capacity, ops[..n], sizeOf)) <= 2 * capacity {
      assert (ops + [op])[..n] == ops[..n];
    }
  }

  lemma BoundedAfter<K, V>(capacity: nat, ops: seq<Op<K, V>>, op: Op<K, V>, sizeOf: V -> nat)
    requires DirectoryBounded(capacity, ops, sizeOf) && Directory(Run(capacity, ops + [op], sizeOf)) <= 2 * capacity
    ensures DirectoryBounded(capacity, ops + [op], sizeOf)
  {
    var all := ops + [op];
    forall n | 0 <= n <= |all| ensures Directory(Run(capacity, all[..n], sizeOf)) <= 2 * capacity {
      if n == |all| {
        assert all[..n] == all;
      } else {
        assert all[..n] == ops[..n];
      }
    }
  }

  lemma RoomExtends<K, V>(capacity: nat, ops: seq<Op<K, V>>, op: Op<K, V>, sizeOf: V -> nat)
    ensures PutsHaveRoom(capacity, ops + [op], sizeOf)
       <==> PutsHaveRoom(capacity, ops, sizeOf)
            && (op.PutOp? ==> HasDirectoryRoom(Run(capacity, ops, sizeOf), op.key))
  {
    var all := ops + [op];
    assert forall n :: 0 <= n < |ops| ==> all[..n] == ops[..n] && all[n] == ops[n];
    assert all[..|ops|] == ops && all[|ops|] == op;
  }

  lemma StepKeepsDirectoryIff<K, V>(st: State<K, V>, op: Op<K, V>, sizeOf: V -> nat)
    requires Inv(st) && Directory(st) <= 2 * st.capacity
    ensures Directory(Step(st, op, sizeOf)) <= 2 * st.capacity <==> (op.PutOp? ==> HasDirectoryRoom(st, op.key))
  {
    if op.PutOp? {
      PutKeepsDirectoryIff(st, op.key, op.value, sizeOf(op.value));
    } else {
      StepAddsNoKey(st, op, sizeOf);
    }
  }

  lemma BoundedAtEnd<K, V>(capacity: nat, ops: seq<Op<K, V>>, sizeOf: V -> nat)
    requires DirectoryBounded(capacity, ops, sizeOf)
    ensures Directory(Run(capacity, ops, sizeOf)) <= 2 * capacity
  {
    assert ops[..|ops|] == ops;
  }

  lemma RunExtends<K, V>(capacity: nat, ops: seq<Op<K, V>>, op: Op<K, V>, sizeOf: V -> nat)
    ensures Run(capacity, ops + [op], sizeOf) == Step(Run(capacity, ops, sizeOf), op, sizeOf)
  {
    assert (ops + [op])[..|ops|] == ops;
  }

  /** The directory stays within twice the capacity all through a run exactly when every put in it finds room. */
  lemma {:induction false} RunKeepsDirectoryIff<K, V>(capacity: nat, ops: seq<Op<K, V>>, sizeOf: V -> nat)
    ensures DirectoryBounded(capacity, ops, sizeOf) <==> PutsHaveRoom(capacity, ops, sizeOf)
  {
    if ops == [] {
      assert ops[..0] == [];
    } else {
      var before, op := ops[..|ops| - 1], ops[|ops| - 1];
      RunKeepsDirectoryIff(capacity, before, sizeOf);
      assert before + [op] == ops;
      ExtendKeepsDirectoryIff(capacity, before, op, sizeOf);
    }
  }

  lemma ExtendKeepsDirectoryIff<K, V>(capacity: nat, ops: seq<Op<K, V>>, op: Op<K, V>, sizeOf: V -> nat)
    requires DirectoryBounded(capacity, ops, sizeOf) <==> PutsHaveRoom(capacity, ops, sizeOf)
    ensures DirectoryBounded(capacity, ops + [op], sizeOf) <==> PutsHaveRoom(capacity, ops + [op], sizeOf)
  {
    RoomExtends(capacity, ops, op, sizeOf);
    if DirectoryBounded(capacity, ops, sizeOf) {
      BoundedAtEnd(capacity, ops, sizeOf);
      RunKeepsInv(capacity, ops, sizeOf);
      RunExtends(capacity, ops, op, sizeOf);
      StepKeepsDirectoryIff(Run(capacity, ops, sizeOf), op, sizeOf);
      if DirectoryBounded(capacity, ops + [op], sizeOf) {
        BoundedAtEnd(capacity, ops + [op], sizeOf);
      } else if PutsHaveRoom(capacity, ops + [op], sizeOf) {
        BoundedAfter(capacity, ops, op, sizeOf);
      }
    } else if DirectoryBounded(capacity, ops + [op], sizeOf) {
      BoundedBefore(capacity, ops, op, sizeOf);
    }
  }
}
