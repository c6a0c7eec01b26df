/**
 Time to live and removal. Over any run a key's descriptors carry the expiry of the put that last wrote it, so a value
 past its time is never served (`ExpiredIsNotServed`); and removing a key takes every chunk it names out of both
 layers, shared or not (`RemoveTakesChunks`).
 */
module CoordinatorExpiry {
  import opened Options
  import opened Bytes
  import opened Chunking
  import opened Reads
  import opened CoordinatorSpec
  import opened CoordinatorTheorems
  import M = MemorySpec
  import D = DiskSpec
  import DT = DiskTheorems
  import A = ArcSpec
  import AT = ArcTheorems

  // ----- expiry ----------------------------------------------------------------------------------------------

  datatype Written = Written(ttl: Option<nat>, clock: PutClock)

  /** The put that last wrote a key, if it was not removed since. */
  function LastWrite(setup: Setup, ops: seq<Op>, key: Key): Option<Written> {
    if ops == [] then None
    else
      var before := LastWrite(setup, ops[..|ops| - 1], key);
      match ops[|ops| - 1]
      case PutOp(k, value, ttl, clock) =>
        if k == key && Accepts(setup, k, value) then Some(Written(ttl, clock)) else before
      case RemoveOp(k) => if k == key then None else before
      case GetOp(_, _, _, _) => before
  }

  ghost predicate Expires<Id>(descriptors: map<Key, Descriptor<Id>>, key: Key, expiresAt: Option<int>) {
    key in descriptors && descriptors[key].expiresAt == expiresAt
  }

  /** Both layers know the key's expiry, each by its own clock; or neither knows the key. */
  ghost predicate Dated<Id>(s: State<Id>, key: Key, w: Option<Written>) {
    && (s.memory.Some? ==>
          if w.Some? then Expires(s.memory.value.descriptors, key, Expiry(w.value.clock.memory, w.value.ttl))
          else key !in s.memory.value.descriptors)
    && (s.disk.Some? ==>
          if w.Some? then Expires(s.disk.value.descriptors, key, Expiry(w.value.clock.disk, w.value.ttl))
          else key !in s.disk.value.descriptors)
  }

  lemma {:induction false} PutChunksDescribe<Id>(d: D.State<Id>, hash: Bytes -> Id, chunks: seq<Bytes>, clock: seq<int>)
    requires |clock| == |chunks|
    ensures D.PutChunks(d, hash, chunks, clock).descriptors == d.descriptors
    decreases |chunks|
  {
    if chunks != [] {
      PutChunksDescribe(D.PutChunk(d, hash(chunks[0]), chunks[0], clock[0]), hash, chunks[1..], clock[1..]);
    }
  }

  lemma {:induction false} RemoveChunksDescribe<Id>(d: D.State<Id>, ids: seq<Id>)
    ensures D.RemoveChunks(d, ids).descriptors == d.descriptors
    decreases |ids|
  {
    if ids != [] { RemoveChunksDescribe(D.RemoveChunk(d, ids[0]), ids[1..]); }
  }

  lemma DiskPutDescribes<Id>(d: D.State<Id>, c: pos, hash: Bytes -> Id, key: Key, value: Bytes, expiresAt: Option<int>,
                             clock: seq<int>)
    requires |clock| == |Split(c, value)| && |key| <= MAX_KEY_SIZE
    ensures D.Put(d, c, hash, key, value, expiresAt, clock).0.descriptors
         == d.descriptors[key := Describe(c, hash, value, expiresAt)]
  {
    DT.EvictOnlyTakes(d, |value|, 0);
    PutChunksDescribe(D.MakeRoom(d, |value|), hash, Split(c, value), clock);
  }

  lemma PutDated<Id>(setup: Setup, hash: Bytes -> Id, s: State<Id>, op: Op, key: Key, w: Option<Written>)
    requires op.PutOp? && Timed(setup, op) && Dated(s, key, w)
    requires s.memory.Some? == setup.memory.Some? && s.disk.Some? == setup.disk.Some?
    ensures Dated(Step(setup, hash, s, op), key,
                  if op.key == key && Accepts(setup, key, op.value) then Some(Written(op.ttl, op.clock)) else w)
  {
    PutAccepted(setup, hash, s, op.key, op.value, op.ttl, op.clock);
    if s.disk.Some? && |op.key| <= MAX_KEY_SIZE {
      DiskPutDescribes(s.disk.value, setup.c, hash, op.key, op.value, Expiry(op.clock.disk, op.ttl), op.clock.chunks);
    }
  }

  lemma RemoveDated<Id>(s: State<Id>, removed: Key, key: Key, w: Option<Written>)
    requires Dated(s, key, w)
    ensures Dated(Remove(s, removed), key, if removed == key then None else w)
  {
    if s.disk.Some? && removed in s.disk.value.descriptors {
      RemoveChunksDescribe(s.disk.value, s.disk.value.descriptors[removed].chunks);
    }
  }

  /** In every run a key's descriptors carry the expiry of the put that last wrote it. */
  lemma {:induction false} RunDated<Id>(setup: Setup, hash: Bytes -> Id, ops: seq<Op>, key: Key)
    requires forall i :: 0 <= i < |ops| ==> Timed(setup, ops[i])
    ensures var s := Run(setup, hash, ops);
      && s.memory.Some? == setup.memory.Some? && s.disk.Some? == setup.disk.Some?
      && Dated(s, key, LastWrite(setup, ops, key))
  {
    if ops != [] {
      var before, op := ops[..|ops| - 1], ops[|ops| - 1];
      RunDated(setup, hash, before, key);
      var s := Run(setup, hash, before);
      match op
      case PutOp(_, _, _, _) => PutDated(setup, hash, s, op, key, LastWrite(setup, before, key));
      case RemoveOp(removed) => RemoveDated(s, removed, key, LastWrite(setup, before, key));
      case GetOp(_, _, _, _) =>
    }
  }

  /** A value past the time to live of the put that last wrote it is not served, whatever happened since. */
  lemma ExpiredIsNotServed<Id>(setup: Setup, hash: Bytes -> Id, ops: seq<Op>, key: Key, opts: ReadOptions, now: int,
                               later: int)
    requires forall i :: 0 <= i < |ops| ==> Timed(setup, ops[i])
    requires LastWrite(setup, ops, key).Some? && LastWrite(setup, ops, key).value.ttl.Some?
    requires var w := LastWrite(setup, ops, key).value;
      now >= w.clock.memory + w.ttl.value && later >= w.clock.disk + w.ttl.value
    ensures Get(Run(setup, hash, ops), setup.c, setup.preferLocal, key, opts, now, later).1 == MISSED
  {
    RunDated(setup, hash, ops, key);
  }

  // ----- removal ---------------------------------------------------------------------------------------------

  lemma {:induction false} DiskChunksGone<Id>(d: D.State<Id>, ids: seq<Id>, id: Id)
    ensures id in ids ==> id !in D.RemoveChunks(d, ids).files && id !in D.RemoveChunks(d, ids).index
    ensures id !in d.files ==> id !in D.RemoveChunks(d, ids).files
    ensures id !in d.index ==> id !in D.RemoveChunks(d, ids).index
    decreases |ids|
  {
    if ids != [] { DiskChunksGone(D.RemoveChunk(d, ids[0]), ids[1..], id); }
  }

  lemma {:induction false} MemoryChunksGone<Id>(chunks: A.State<Id, Bytes>, ids: seq<Id>, id: Id)
    requires A.Inv(chunks)
    ensures A.Inv(M.RemoveChunks(chunks, ids))
    ensures id in ids || !AT.Known(chunks, id) ==> !AT.Known(M.RemoveChunks(chunks, ids), id)
    decreases |ids|
  {
    if ids != [] {
      AT.RemoveKeepsInv(chunks, ids[0]);
      if !AT.Known(chunks, id) { RemoveAddsNone(chunks, ids[0], id); }
      MemoryChunksGone(A.Remove(chunks, ids[0]).0, ids[1..], id);
    }
  }

  lemma RemoveAddsNone<Id>(chunks: A.State<Id, Bytes>, gone: Id, id: Id)
    requires A.OncePerKey(chunks) && !AT.Known(chunks, id)
    ensures !AT.Known(A.Remove(chunks, gone).0, id)
  {
    AT.RemoveCensus(chunks, gone);
  }

  /** Removing a key forgets it and takes every chunk it names out of both layers, even one another key shares. */
  lemma RemoveTakesChunks<Id>(setup: Setup, hash: Bytes -> Id, s: State<Id>, model: map<Key, Bytes>, pool: set<Bytes>,
                              key: Key, id: Id)
    requires Coherent(setup, hash, s, model, pool) && key in model && id in IdsOf(hash, Split(setup.c, model[key]))
    ensures var r := Remove(s, key);
      && (r.memory.Some? ==> key !in r.memory.value.descriptors && !AT.Known(r.memory.value.chunks, id))
      && (r.disk.Some? ==>
            key !in r.disk.value.descriptors && id !in r.disk.value.files && id !in r.disk.value.index)
  {
    if s.memory.Some? {
      MemoryChunksGone(s.memory.value.chunks, s.memory.value.descriptors[key].chunks, id);
    }
    if s.disk.Some? {
      DiskChunksGone(s.disk.value, s.disk.value.descriptors[key].chunks, id);
    }
  }
}
