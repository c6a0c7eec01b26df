/**
 The coordinator refines a plain map from keys to bytes. After any run, a hit is exactly the requested part of the
 value last put (`RunRefinesMap`): eviction from either layer, and removing a key that shares chunks with another,
 can turn a hit into a partial hit or a miss, never into wrong bytes. Chunks are named by content hash; the only
 assumption is that the chunks of the run do not collide.
 */
module CoordinatorTheorems {
  import opened Options
  import opened Bytes
  import opened Chunking
  import opened Assembly
  import opened Reads
  import opened CoordinatorSpec
  import M = MemorySpec
  import D = DiskSpec
  import DT = DiskTheorems
  import A = ArcSpec
  import AT = ArcTheorems
  import AR = ArcRuns

  // ----- content addressing ----------------------------------------------------------------------------------

  ghost predicate CollisionFree<Id>(hash: Bytes -> Id, pool: set<Bytes>) {
    forall a, b :: a in pool && b in pool && hash(a) == hash(b) ==> a == b
  }

  ghost function ChunksOf(c: pos, v: Bytes): set<Bytes> {
    set chunk | chunk in Split(c, v)
  }

  /** A descriptor that names the value's own chunks. */
  ghost predicate Describes<Id>(desc: Descriptor<Id>, c: pos, hash: Bytes -> Id, v: Bytes) {
    desc == Describe(c, hash, v, desc.expiresAt)
  }

  /** The descriptors of a layer are those of the map. */
  ghost predicate Catalogued<Id>(descriptors: map<Key, Descriptor<Id>>, c: pos, hash: Bytes -> Id,
                                 model: map<Key, Bytes>, pool: set<Bytes>) {
    && descriptors.Keys == model.Keys
    && (forall k :: k in model ==> Describes(descriptors[k], c, hash, model[k]))
    && (forall k :: k in model ==> ChunksOf(c, model[k]) <= pool && |model[k]| < TWO_64)
  }

  lemma CataloguePut<Id>(descriptors: map<Key, Descriptor<Id>>, c: pos, hash: Bytes -> Id, model: map<Key, Bytes>,
                         pool: set<Bytes>, key: Key, value: Bytes, expiresAt: Option<int>)
    requires Catalogued(descriptors, c, hash, model, pool) && |value| < TWO_64
    ensures Catalogued(descriptors[key := Describe(c, hash, value, expiresAt)], c, hash, model[key := value],
                       pool + ChunksOf(c, value))
  {
  }

  lemma CatalogueRemove<Id>(descriptors: map<Key, Descriptor<Id>>, c: pos, hash: Bytes -> Id, model: map<Key, Bytes>,
                            pool: set<Bytes>, key: Key)
    requires Catalogued(descriptors, c, hash, model, pool)
    ensures Catalogued(descriptors - {key}, c, hash, model - {key}, pool)
  {
  }

  /** The chunks that a read of the clamped range wants. */
  ghost function WantedChunks(c: pos, v: Bytes, range: Range): seq<Bytes> {
    var indices := ChunksForRange(c, |v|, |Split(c, v)|, range);
    seq(|indices|, i requires 0 <= i < |indices| => Split(c, v)[indices[i]])
  }

  lemma WantedIdsAreHashes<Id>(c: pos, hash: Bytes -> Id, v: Bytes, desc: Descriptor<Id>, range: Range)
    requires Describes(desc, c, hash, v)
    ensures WantedIds(c, desc, range) == IdsOf(hash, WantedChunks(c, v, range))
    ensures forall x :: x in WantedChunks(c, v, range) ==> x in ChunksOf(c, v)
  {
  }

  /** What a layer fetched is, chunk by chunk, either nothing or the wanted chunk. */
  ghost predicate Faithful(wanted: seq<Bytes>, found: seq<Option<Bytes>>, all: bool) {
    && |found| <= |wanted|
    && (forall i :: 0 <= i < |found| && found[i].Some? ==> found[i].value == wanted[i])
    && (all ==> |found| == |wanted| && AllPresent(found, 0))
  }

  lemma FaithfulCons(wanted: seq<Bytes>, chunk: Option<Bytes>, found: seq<Option<Bytes>>, all: bool)
    requires wanted != [] && Faithful(wanted[1..], found, all) && (chunk.Some? ==> chunk.value == wanted[0])
    ensures Faithful(wanted, [chunk] + found, chunk.Some? && all) && Faithful(wanted, [], false)
  {
  }

  lemma FaithfulIsGenuine(c: pos, v: Bytes, range: Range, found: seq<Option<Bytes>>, all: bool)
    requires Faithful(WantedChunks(c, v, range), found, all)
    ensures Genuine(c, v, ChunksForRange(c, |v|, ChunkCount(c, |v|), range), found, all)
  {
    SplitCount(c, v);
  }

  // ----- the memory layer ------------------------------------------------------------------------------------

  ghost predicate ResidentsOk<Id>(chunks: A.State<Id, Bytes>, hash: Bytes -> Id, pool: set<Bytes>) {
    A.Inv(chunks) && forall e :: e in A.Residents(chunks) ==> e.value in pool && e.key == hash(e.value)
  }

  ghost predicate MemoryOk<Id>(m: M.State<Id>, c: pos, hash: Bytes -> Id, model: map<Key, Bytes>, pool: set<Bytes>) {
    ResidentsOk(m.chunks, hash, pool) && Catalogued(m.descriptors, c, hash, model, pool)
  }

  lemma {:induction false} PutChunksOk<Id>(chunks: A.State<Id, Bytes>, hash: Bytes -> Id, data: seq<Bytes>,
                                           pool: set<Bytes>)
    requires ResidentsOk(chunks, hash, pool) && forall x :: x in data ==> x in pool
    ensures ResidentsOk(M.PutChunks(chunks, hash, data), hash, pool)
    decreases |data|
  {
    if data != [] {
      PutChunkOk(chunks, hash, data[0], pool);
      PutChunksOk(A.Put(chunks, hash(data[0]), data[0], |data[0]|).state, hash, data[1..], pool);
    }
  }

  lemma PutChunkOk<Id>(chunks: A.State<Id, Bytes>, hash: Bytes -> Id, data: Bytes, pool: set<Bytes>)
    requires ResidentsOk(chunks, hash, pool) && data in pool
    ensures ResidentsOk(A.Put(chunks, hash(data), data, |data|).state, hash, pool)
  {
    var r := A.Put(chunks, hash(data), data, |data|).state;
    AT.PutKeepsInv(chunks, hash(data), data, |data|);
    forall e | e in A.Residents(r) ensures e.value in pool && e.key == hash(e.value) {
      AR.PutLeaves(chunks, hash(data), data, |data|, e);
    }
  }

  lemma {:induction false} RemoveChunksOk<Id>(chunks: A.State<Id, Bytes>, hash: Bytes -> Id, ids: seq<Id>,
                                              pool: set<Bytes>)
    requires ResidentsOk(chunks, hash, pool)
    ensures ResidentsOk(M.RemoveChunks(chunks, ids), hash, pool)
    decreases |ids|
  {
    if ids != [] {
      RemoveChunkOk(chunks, hash, ids[0], pool);
      RemoveChunksOk(A.Remove(chunks, ids[0]).0, hash, ids[1..], pool);
    }
  }

  lemma RemoveChunkOk<Id>(chunks: A.State<Id, Bytes>, hash: Bytes -> Id, id: Id, pool: set<Bytes>)
    requires ResidentsOk(chunks, hash, pool)
    ensures ResidentsOk(A.Remove(chunks, id).0, hash, pool)
  {
    AT.RemoveKeepsInv(chunks, id);
    forall e | e in A.Residents(A.Remove(chunks, id).0) ensures e.value in pool && e.key == hash(e.value) {
      AR.RemoveLeaves(chunks, id, e);
    }
  }

  /** A lookup of a wanted chunk's id finds that chunk or nothing: another chunk would have to collide with it. */
  lemma GetChunkOk<Id>(chunks: A.State<Id, Bytes>, hash: Bytes -> Id, wanted: Bytes, pool: set<Bytes>)
    requires ResidentsOk(chunks, hash, pool) && wanted in pool && CollisionFree(hash, pool)
    ensures var r := A.Get(chunks, hash(wanted));
            ResidentsOk(r.0, hash, pool) && (r.1.Some? ==> r.1.value == wanted)
  {
    var key := hash(wanted);
    AT.GetKeeps(chunks, key);
    if key in A.Keys(chunks.t1) {
      assert A.Find(chunks.t1, key) in A.Residents(chunks);
    } else if key in A.Keys(chunks.t2) {
      assert A.Find(chunks.t2, key) in A.Residents(chunks);
    }
  }

  lemma {:induction false} FetchFaithful<Id>(chunks: A.State<Id, Bytes>, hash: Bytes -> Id, wanted: seq<Bytes>,
                                             allowPartial: bool, pool: set<Bytes>)
    requires ResidentsOk(chunks, hash, pool) && CollisionFree(hash, pool) && forall x :: x in wanted ==> x in pool
    ensures var r := M.FetchAll(chunks, IdsOf(hash, wanted), allowPartial);
            ResidentsOk(r.chunks, hash, pool) && Faithful(wanted, r.found, r.all)
    decreases |wanted|
  {
    if wanted != [] {
      GetChunkOk(chunks, hash, wanted[0], pool);
      assert IdsOf(hash, wanted)[1..] == IdsOf(hash, wanted[1..]);
      var got := A.Get(chunks, hash(wanted[0]));
      FetchFaithful(got.0, hash, wanted[1..], allowPartial, pool);
      var rest := M.FetchAll(got.0, IdsOf(hash, wanted[1..]), allowPartial);
      FaithfulCons(wanted, got.1, rest.found, rest.all);
    }
  }

  lemma MemoryPutOk<Id>(m: M.State<Id>, c: pos, hash: Bytes -> Id, model: map<Key, Bytes>, pool: set<Bytes>,
                        key: Key, value: Bytes, expiresAt: Option<int>)
    requires MemoryOk(m, c, hash, model, pool) && |value| < TWO_64
    requires M.Put(m, c, hash, key, value, expiresAt).1 == Ok
    ensures MemoryOk(M.Put(m, c, hash, key, value, expiresAt).0, c, hash, model[key := value],
                     pool + ChunksOf(c, value))
  {
    PutChunksOk(m.chunks, hash, Split(c, value), pool + ChunksOf(c, value));
    CataloguePut(m.descriptors, c, hash, model, pool, key, value, expiresAt);
  }

  lemma MemoryRemoveOk<Id>(m: M.State<Id>, c: pos, hash: Bytes -> Id, model: map<Key, Bytes>, pool: set<Bytes>,
                           key: Key)
    requires MemoryOk(m, c, hash, model, pool)
    ensures MemoryOk(M.Remove(m, key).0, c, hash, model - {key}, pool)
  {
    if key in m.descriptors {
      RemoveChunksOk(m.chunks, hash, m.descriptors[key].chunks, pool);
      CatalogueRemove(m.descriptors, c, hash, model, pool, key);
    } else {
      assert model - {key} == model;
    }
  }

  /** What the memory layer answers is honest, and answering changes no content. */
  lemma MemoryGetOk<Id>(m: M.State<Id>, c: pos, hash: Bytes -> Id, model: map<Key, Bytes>, pool: set<Bytes>,
                        key: Key, opts: ReadOptions, now: int)
    requires MemoryOk(m, c, hash, model, pool) && CollisionFree(hash, pool)
    ensures var r := M.Get(m, c, key, opts, now);
            && MemoryOk(r.0, c, hash, model, pool)
            && (key !in model ==> r.1 == MISSED)
            && (key in model ==> Honest(model[key], opts, r.1))
  {
    if key in model {
      var v, desc := model[key], m.descriptors[key];
      match PlanRead(desc, opts, now)
      case Answered(_) =>
        AnsweredHonest(c, hash, v, opts, desc.expiresAt, now);
      case Wanted(range) =>
        WantedIdsAreHashes(c, hash, v, desc, range);
        FetchFaithful(m.chunks, hash, WantedChunks(c, v, range), opts.allowPartial, pool);
        var r := M.FetchAll(m.chunks, WantedIds(c, desc, range), opts.allowPartial);
        FaithfulIsGenuine(c, v, range, r.found, r.all);
        ConcludeHonest(c, true, hash, v, opts, desc.expiresAt, now, r.found, r.all);
    }
  }

  // ----- the disk layer --------------------------------------------------------------------------------------

  ghost predicate FilesOk<Id>(files: map<Id, Bytes>, hash: Bytes -> Id, pool: set<Bytes>) {
    forall id :: id in files ==> files[id] in pool && id == hash(files[id])
  }

  ghost predicate DiskOk<Id>(d: D.State<Id>, c: pos, hash: Bytes -> Id, model: map<Key, Bytes>, pool: set<Bytes>) {
    FilesOk(d.files, hash, pool) && Catalogued(d.descriptors, c, hash, model, pool)
  }

  lemma {:induction false} StoreOk<Id>(d: D.State<Id>, hash: Bytes -> Id, chunks: seq<Bytes>, clock: seq<int>,
                                       pool: set<Bytes>)
    requires |clock| == |chunks| && FilesOk(d.files, hash, pool) && forall x :: x in chunks ==> x in pool
    ensures FilesOk(D.PutChunks(d, hash, chunks, clock).files, hash, pool)
    decreases |chunks|
  {
    if chunks != [] {
      StoreOk(D.PutChunk(d, hash(chunks[0]), chunks[0], clock[0]), hash, chunks[1..], clock[1..], pool);
    }
  }

  lemma {:induction false} DeleteOk<Id>(d: D.State<Id>, hash: Bytes -> Id, ids: seq<Id>, pool: set<Bytes>)
    requires FilesOk(d.files, hash, pool)
    ensures FilesOk(D.RemoveChunks(d, ids).files, hash, pool) && D.RemoveChunks(d, ids).descriptors == d.descriptors
    decreases |ids|
  {
    if ids != [] {
      DeleteOk(D.RemoveChunk(d, ids[0]), hash, ids[1..], pool);
    }
  }

  lemma DiskPutOk<Id>(d: D.State<Id>, c: pos, hash: Bytes -> Id, model: map<Key, Bytes>, pool: set<Bytes>,
                      key: Key, value: Bytes, expiresAt: Option<int>, clock: seq<int>)
    requires DiskOk(d, c, hash, model, pool) && |value| < TWO_64 && |clock| == |Split(c, value)|
    requires D.Put(d, c, hash, key, value, expiresAt, clock).1 == Ok
    ensures DiskOk(D.Put(d, c, hash, key, value, expiresAt, clock).0, c, hash, model[key := value],
                   pool + ChunksOf(c, value))
  {
    var room := D.MakeRoom(d, |value|);
    DT.EvictOnlyTakes(d, |value|, 0);
    StoreOk(room, hash, Split(c, value), clock, pool + ChunksOf(c, value));
    DT.PutChunksCounts(room, hash, Split(c, value), clock);
    CataloguePut(d.descriptors, c, hash, model, pool, key, value, expiresAt);
  }

  lemma DiskRemoveOk<Id>(d: D.State<Id>, c: pos, hash: Bytes -> Id, model: map<Key, Bytes>, pool: set<Bytes>, key: Key)
    requires DiskOk(d, c, hash, model, pool)
    ensures DiskOk(D.Remove(d, key).0, c, hash, model - {key}, pool)
  {
    if key in d.descriptors {
      DeleteOk(d, hash, d.descriptors[key].chunks, pool);
      CatalogueRemove(d.descriptors, c, hash, model, pool, key);
    } else {
      assert model - {key} == model;
    }
  }

  lemma {:induction false} ReadFaithful<Id>(d: D.State<Id>, hash: Bytes -> Id, wanted: seq<Bytes>, allowPartial: bool,
                                            pool: set<Bytes>)
    requires FilesOk(d.files, hash, pool) && CollisionFree(hash, pool) && forall x :: x in wanted ==> x in pool
    ensures var r := D.Fetch(d, IdsOf(hash, wanted), allowPartial); Faithful(wanted, r.0, r.1)
    decreases |wanted|
  {
    if wanted != [] {
      assert IdsOf(hash, wanted)[1..] == IdsOf(hash, wanted[1..]);
      ReadFaithful(d, hash, wanted[1..], allowPartial, pool);
      var rest := D.Fetch(d, IdsOf(hash, wanted[1..]), allowPartial);
      FaithfulCons(wanted, D.GetChunk(d, hash(wanted[0])), rest.0, rest.1);
    }
  }

  lemma DiskGetOk<Id>(d: D.State<Id>, c: pos, hash: Bytes -> Id, model: map<Key, Bytes>, pool: set<Bytes>,
                      key: Key, opts: ReadOptions, now: int)
    requires DiskOk(d, c, hash, model, pool) && CollisionFree(hash, pool)
    ensures var r := D.Get(d, c, key, opts, now);
            && (key !in model ==> r == MISSED)
            && (key in model ==> Honest(model[key], opts, r))
  {
    if key in model {
      var v, desc := model[key], d.descriptors[key];
      match PlanRead(desc, opts, now)
      case Answered(_) =>
        AnsweredHonest(c, hash, v, opts, desc.expiresAt, now);
      case Wanted(range) =>
        WantedIdsAreHashes(c, hash, v, desc, range);
        ReadFaithful(d, hash, WantedChunks(c, v, range), opts.allowPartial, pool);
        var r := D.Fetch(d, WantedIds(c, desc, range), opts.allowPartial);
        FaithfulIsGenuine(c, v, range, r.0, r.1);
        ConcludeHonest(c, false, hash, v, opts, desc.expiresAt, now, r.0, r.1);
    }
  }

  // ----- runs ------------------------------------------------------------------------------------------------

  datatype Op =
    | PutOp(key: Key, value: Bytes, ttl: Option<nat>, clock: PutClock)
    | RemoveOp(key: Key)
    | GetOp(key: Key, opts: ReadOptions, now: int, later: int)

  datatype Setup = Setup(c: pos, preferLocal: bool, memory: Option<nat>, disk: Option<D.Config>)

  predicate Timed(setup: Setup, op: Op) {
    op.PutOp? ==> |op.clock.chunks| == |Split(setup.c, op.value)| && |op.value| < TWO_64
  }

  function Start<Id>(setup: Setup): State<Id> {
    State(if setup.memory.Some? then Some(M.Empty(setup.memory.value)) else None,
          if setup.disk.Some? then Some(D.Empty(setup.disk.value)) else None)
  }

  function Step<Id(==)>(setup: Setup, hash: Bytes -> Id, s: State<Id>, op: Op): State<Id>
    requires Timed(setup, op)
  {
    match op
    case PutOp(key, value, ttl, clock) => Put(s, setup.c, hash, key, value, ttl, clock).0
    case RemoveOp(key) => Remove(s, key)
    case GetOp(key, opts, now, later) => Get(s, setup.c, setup.preferLocal, key, opts, now, later).0
  }

  function Run<Id(==)>(setup: Setup, hash: Bytes -> Id, ops: seq<Op>): State<Id>
    requires forall i :: 0 <= i < |ops| ==> Timed(setup, ops[i])
  {
    if ops == [] then Start(setup)
    else Step(setup, hash, Run(setup, hash, ops[..|ops| - 1]), ops[|ops| - 1])
  }

  /** Which puts are accepted: it depends on the sizes and the layers configured, not on the state. */
  predicate Accepts(setup: Setup, key: Key, value: Bytes) {
    && |key| <= MAX_KEY_SIZE
    && (setup.memory.Some? ==> |value| <= MAX_VALUE_SIZE)
    && (setup.memory.Some? || setup.disk.Some?)
  }

  /** The plain map: the last accepted put of each key, unless removed since. */
  function MapAfter(setup: Setup, ops: seq<Op>): map<Key, Bytes> {
    if ops == [] then map[]
    else
      var before := MapAfter(setup, ops[..|ops| - 1]);
      match ops[|ops| - 1]
      case PutOp(key, value, _, _) => if Accepts(setup, key, value) then before[key := value] else before
      case RemoveOp(key) => before - {key}
      case GetOp(_, _, _, _) => before
  }

  /** Every chunk of every value the run puts. */
  ghost function Pool(setup: Setup, ops: seq<Op>): set<Bytes> {
    if ops == [] then {}
    else
      Pool(setup, ops[..|ops| - 1])
      + match ops[|ops| - 1] case PutOp(_, value, _, _) => ChunksOf(setup.c, value) case _ => {}
  }

  ghost predicate Coherent<Id>(setup: Setup, hash: Bytes -> Id, s: State<Id>, model: map<Key, Bytes>,
                               pool: set<Bytes>) {
    && s.memory.Some? == setup.memory.Some? && s.disk.Some? == setup.disk.Some?
    && (s.memory.Some? ==> MemoryOk(s.memory.value, setup.c, hash, model, pool))
    && (s.disk.Some? ==> DiskOk(s.disk.value, setup.c, hash, model, pool))
  }

  lemma PoolGrows<Id>(setup: Setup, hash: Bytes -> Id, s: State<Id>, model: map<Key, Bytes>, pool: set<Bytes>,
                      more: set<Bytes>)
    requires Coherent(setup, hash, s, model, pool)
    ensures Coherent(setup, hash, s, model, pool + more)
  {
  }

  /** A put succeeds exactly when it is accepted; a rejected put changes nothing. */
  lemma PutAccepted<Id>(setup: Setup, hash: Bytes -> Id, s: State<Id>, key: Key, value: Bytes, ttl: Option<nat>,
                        clock: PutClock)
    requires |clock.chunks| == |Split(setup.c, value)|
    requires s.memory.Some? == setup.memory.Some? && s.disk.Some? == setup.disk.Some?
    ensures var r := Put(s, setup.c, hash, key, value, ttl, clock);
            && (r.1 == Ok <==> Accepts(setup, key, value))
            && (r.1 != Ok ==> r.0 == s)
            && (r.1 == Error(KeyTooLarge) <==> |key| > 8192 && (setup.memory.Some? || setup.disk.Some?))
            && (r.1 == Error(ValueTooLarge) <==>
                  |key| <= 8192 && |value| > 20 * 1024 * 1024 * 1024 * 1024 && setup.memory.Some?)
            && (r.1 == Error(InternalError) <==> setup.memory.None? && setup.disk.None?)
  {
  }

  lemma PutCoherent<Id>(setup: Setup, hash: Bytes -> Id, s: State<Id>, model: map<Key, Bytes>, pool: set<Bytes>,
                        key: Key, value: Bytes, ttl: Option<nat>, clock: PutClock)
    requires Coherent(setup, hash, s, model, pool) && Accepts(setup, key, value)
    requires |clock.chunks| == |Split(setup.c, value)| && |value| < TWO_64
    ensures Coherent(setup, hash, Put(s, setup.c, hash, key, value, ttl, clock).0, model[key := value],
                     pool + ChunksOf(setup.c, value))
  {
    if s.memory.Some? {
      MemoryPutOk(s.memory.value, setup.c, hash, model, pool, key, value, Expiry(clock.memory, ttl));
    }
    if s.disk.Some? {
      DiskPutOk(s.disk.value, setup.c, hash, model, pool, key, value, Expiry(clock.disk, ttl), clock.chunks);
    }
  }

  lemma RemoveCoherent<Id>(setup: Setup, hash: Bytes -> Id, s: State<Id>, model: map<Key, Bytes>, pool: set<Bytes>,
                           key: Key)
    requires Coherent(setup, hash, s, model, pool)
    ensures Coherent(setup, hash, Remove(s, key), model - {key}, pool)
  {
    if s.memory.Some? { MemoryRemoveOk(s.memory.value, setup.c, hash, model, pool, key); }
    if s.disk.Some? { DiskRemoveOk(s.disk.value, setup.c, hash, model, pool, key); }
  }

  /** From a coherent state, a read is answered honestly: a hit only for a key in the map, and then exactly. */
  lemma GetCoherent<Id>(setup: Setup, hash: Bytes -> Id, s: State<Id>, model: map<Key, Bytes>, pool: set<Bytes>,
                        key: Key, opts: ReadOptions, now: int, later: int)
    requires Coherent(setup, hash, s, model, pool) && CollisionFree(hash, pool)
    ensures var r := Get(s, setup.c, setup.preferLocal, key, opts, now, later);
            && Coherent(setup, hash, r.0, model, pool)
            && (key !in model ==> r.1 == MISSED)
            && (key in model ==> Honest(model[key], opts, r.1))
  {
    if s.memory.Some? { MemoryGetOk(s.memory.value, setup.c, hash, model, pool, key, opts, now); }
    if s.disk.Some? { DiskGetOk(s.disk.value, setup.c, hash, model, pool, key, opts, later); }
  }

  lemma StepCoherent<Id>(setup: Setup, hash: Bytes -> Id, s: State<Id>, model: map<Key, Bytes>, pool: set<Bytes>,
                         op: Op)
    requires Coherent(setup, hash, s, model, pool) && Timed(setup, op) && CollisionFree(hash, pool)
    ensures var model' := match op
                          case PutOp(key, value, _, _) =>
                            if Accepts(setup, key, value) then model[key := value] else model
                          case RemoveOp(key) => model - {key}
                          case GetOp(_, _, _, _) => model;
            var pool' := if op.PutOp? then pool + ChunksOf(setup.c, op.value) else pool;
            Coherent(setup, hash, Step(setup, hash, s, op), model', pool')
  {
    match op
    case PutOp(key, value, ttl, clock) =>
      PutAccepted(setup, hash, s, key, value, ttl, clock);
      if Accepts(setup, key, value) {
        PutCoherent(setup, hash, s, model, pool, key, value, ttl, clock);
      } else {
        PoolGrows(setup, hash, s, model, pool, ChunksOf(setup.c, value));
      }
    case RemoveOp(key) =>
      RemoveCoherent(setup, hash, s, model, pool, key);
    case GetOp(key, opts, now, later) =>
      GetCoherent(setup, hash, s, model, pool, key, opts, now, later);
  }

  lemma {:induction false} RunCoherent<Id>(setup: Setup, hash: Bytes -> Id, ops: seq<Op>)
    requires (forall i :: 0 <= i < |ops| ==> Timed(setup, ops[i])) && CollisionFree(hash, Pool(setup, ops))
    ensures Coherent(setup, hash, Run(setup, hash, ops), MapAfter(setup, ops), Pool(setup, ops))
  {
    if ops == [] {
      if setup.memory.Some? { AT.EmptyInv<Id, Bytes>(setup.memory.value); }
    } else {
      var before := ops[..|ops| - 1];
      RunCoherent(setup, hash, before);
      StepCoherent(setup, hash, Run(setup, hash, before), MapAfter(setup, before), Pool(setup, before), ops[|ops| - 1]);
    }
  }

  /**
   The main theorem. After any run over any configuration of the two layers, a read answers as the plain map
   would, or less: a key that is not in the map is a miss, and a hit carries exactly the requested bytes of the
   value last put.
   */
  lemma RunRefinesMap<Id>(setup: Setup, hash: Bytes -> Id, ops: seq<Op>, key: Key, opts: ReadOptions, now: int,
                          later: int)
    requires (forall i :: 0 <= i < |ops| ==> Timed(setup, ops[i])) && CollisionFree(hash, Pool(setup, ops))
    ensures var r := Get(Run(setup, hash, ops), setup.c, setup.preferLocal, key, opts, now, later).1;
            var m := MapAfter(setup, ops);
            && (key !in m ==> r == MISSED)
            && (key in m && r.result == Hit ==>
                  r.data == Asked(m[key], opts) && r.actual == Range(AskedFrom(opts), |r.data|))
  {
    RunCoherent(setup, hash, ops);
    GetCoherent(setup, hash, Run(setup, hash, ops), MapAfter(setup, ops), Pool(setup, ops), key, opts, now, later);
  }

  /** Byte by byte: byte i of a hit is the value's byte i from the start of the range on. */
  lemma RunHitBytes<Id>(setup: Setup, hash: Bytes -> Id, ops: seq<Op>, key: Key, opts: ReadOptions, now: int,
                        later: int)
    requires (forall i :: 0 <= i < |ops| ==> Timed(setup, ops[i])) && CollisionFree(hash, Pool(setup, ops))
    requires Get(Run(setup, hash, ops), setup.c, setup.preferLocal, key, opts, now, later).1.result == Hit
    ensures var data := Get(Run(setup, hash, ops), setup.c, setup.preferLocal, key, opts, now, later).1.data;
            var m := MapAfter(setup, ops);
            key in m && IsPart(data, m[key], opts)
  {
    RunRefinesMap(setup, hash, ops, key, opts, now, later);
    if key in MapAfter(setup, ops) { AskedIsPart(MapAfter(setup, ops)[key], opts); }
  }

  // ----- partial hits ----------------------------------------------------------------------------------------

  /** A partial hit from memory is an in-order subsequence of the requested bytes. */
  lemma MemoryPartialIsSubsequence<Id>(m: M.State<Id>, c: pos, hash: Bytes -> Id, model: map<Key, Bytes>,
                                       pool: set<Bytes>, key: Key, opts: ReadOptions, now: int)
    requires MemoryOk(m, c, hash, model, pool) && CollisionFree(hash, pool) && key in model
    requires M.Get(m, c, key, opts, now).1.result == PartialHit
    ensures Subsequence(M.Get(m, c, key, opts, now).1.data, Asked(model[key], opts))
  {
    var v, desc := model[key], m.descriptors[key];
    var range := PlanRead(desc, opts, now).range;
    ClampIsAsked(v, opts, range);
    WantedIdsAreHashes(c, hash, v, desc, range);
    FetchFaithful(m.chunks, hash, WantedChunks(c, v, range), opts.allowPartial, pool);
    var r := M.FetchAll(m.chunks, WantedIds(c, desc, range), opts.allowPartial);
    FaithfulIsGenuine(c, v, range, r.found, r.all);
    if range.length > 0 {
      ReadIsSubsequence(c, v, range, r.found);
    }
  }
}
