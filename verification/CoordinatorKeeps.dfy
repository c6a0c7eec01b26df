/**
 What stays readable. A value stays on disk, and a read that insists on complete data stays a hit, as long as no other
 key that shares a chunk with it is removed and every put since fits below the high watermark (`RunStillReads`).
 */
module CoordinatorKeeps {
  import opened Options
  import opened Bytes
  import opened Chunking
  import opened Reads
  import opened CoordinatorSpec
  import opened CoordinatorTheorems
  import opened CoordinatorReads
  import opened Histories
  import K = DiskKeeps
  import DT = DiskTheorems
  import D = DiskSpec

  // ----- what the disk answers -------------------------------------------------------------------------------

  ghost predicate AllThere<Id>(d: D.State<Id>, ids: seq<Id>) {
    forall id :: id in ids ==> id in d.files && d.files[id] != []
  }

  lemma {:induction false} DiskFetchesAllIff<Id>(d: D.State<Id>, ids: seq<Id>, allowPartial: bool)
    ensures D.Fetch(d, ids, allowPartial).1 <==> AllThere(d, ids)
    decreases |ids|
  {
    if ids != [] {
      DiskFetchesAllIff(d, ids[1..], allowPartial);
      assert forall id :: id in ids <==> id == ids[0] || id in ids[1..];
    }
  }

  /**
   The disk layer answers a read of a known key with a hit exactly when its copy has not expired, the range is readable,
   and the file of every chunk the range needs is there.
   */
  lemma DiskHitsIff<Id>(d: D.State<Id>, c: pos, hash: Bytes -> Id, model: map<Key, Bytes>, pool: set<Bytes>, key: Key,
                        opts: ReadOptions, now: int)
    requires DiskOk(d, c, hash, model, pool) && CollisionFree(hash, pool) && key in model
    ensures var desc := d.descriptors[key];
            D.Get(d, c, key, opts, now).result == Hit
            <==> && !IsExpired(desc, now) && Readable(opts.range, |model[key]|)
                 && AllThere(d, NeededIds(c, desc, opts.range))
  {
    var v, desc := model[key], d.descriptors[key];
    if !IsExpired(desc, now) {
      PlanIs(c, desc, opts, now);
      match PlanRead(desc, opts, now)
      case Answered(_) =>
      case Wanted(range) =>
        DiskFetchesAllIff(d, WantedIds(c, desc, range), opts.allowPartial);
        if range.length > 0 { DiskReadHitsIff(d, c, hash, pool, v, desc, range, opts.allowPartial); }
    }
  }

  lemma DiskReadHitsIff<Id>(d: D.State<Id>, c: pos, hash: Bytes -> Id, pool: set<Bytes>, value: Bytes,
                            desc: Descriptor<Id>, range: Range, allowPartial: bool)
    requires FilesOk(d.files, hash, pool) && CollisionFree(hash, pool) && ChunksOf(c, value) <= pool
    requires Describes(desc, c, hash, value) && 0 < range.length && range.offset + range.length <= |value| < TWO_64
    ensures var r := D.Fetch(d, WantedIds(c, desc, range), allowPartial);
            r.1 <==> Conclude(c, false, range, r.0, r.1, allowPartial).result == Hit
  {
    var wanted := WantedChunks(c, value, range);
    WantedIdsAreHashes(c, hash, value, desc, range);
    ReadFaithful(d, hash, wanted, allowPartial, pool);
    var r := D.Fetch(d, IdsOf(hash, wanted), allowPartial);
    FaithfulIsGenuine(c, value, range, r.0, r.1);
    if r.1 { ConcludeHits(c, false, value, range, r.0, allowPartial); }
  }

  /** Every chunk of a value has its file. */
  ghost predicate OnDisk<Id>(d: D.State<Id>, c: pos, hash: Bytes -> Id, v: Bytes) {
    forall id :: id in IdsOf(hash, Split(c, v)) ==> id in d.files
  }

  lemma OnDiskIsThere<Id>(d: D.State<Id>, c: pos, hash: Bytes -> Id, pool: set<Bytes>, v: Bytes, range: Option<Range>,
                          desc: Descriptor<Id>)
    requires FilesOk(d.files, hash, pool) && CollisionFree(hash, pool) && ChunksOf(c, v) <= pool
    requires OnDisk(d, c, hash, v) && Describes(desc, c, hash, v)
    ensures AllThere(d, NeededIds(c, desc, range))
  {
    SplitConcat(c, v);
    forall id | id in NeededIds(c, desc, range) ensures id in d.files && d.files[id] != [] {
      assert id in desc.chunks;
      var i :| 0 <= i < |desc.chunks| && desc.chunks[i] == id;
      assert Split(c, v)[i] in ChunksOf(c, v) && hash(Split(c, v)[i]) == id;
    }
  }

  // ----- what every step leaves on disk ----------------------------------------------------------------------

  /** A step that does not touch a value on disk. */
  ghost predicate SparesDisk<Id>(setup: Setup, hash: Bytes -> Id, s: State<Id>, op: Op, key: Key, v: Bytes) {
    s.disk.Some? &&
    match op
    case GetOp(_, _, _, _) => true
    case PutOp(k, value, _, _) => k != key && K.Roomy(s.disk.value, |value|)
    case RemoveOp(k) =>
      && k != key
      && (k in s.disk.value.descriptors ==>
            forall id :: id in IdsOf(hash, Split(setup.c, v)) ==> id !in s.disk.value.descriptors[k].chunks)
  }

  ghost predicate Stored<Id>(setup: Setup, hash: Bytes -> Id, s: State<Id>, key: Key, desc: Descriptor<Id>, v: Bytes) {
    && s.disk.Some? && key in s.disk.value.descriptors && s.disk.value.descriptors[key] == desc
    && OnDisk(s.disk.value, setup.c, hash, v) && DT.Kept(s.disk.value)
  }

  lemma StepSparesDisk<Id>(setup: Setup, hash: Bytes -> Id, s: State<Id>, op: Op, key: Key, desc: Descriptor<Id>,
                           v: Bytes)
    requires Timed(setup, op) && s.memory.Some? == setup.memory.Some? && s.disk.Some? == setup.disk.Some?
    requires Stored(setup, hash, s, key, desc, v) && SparesDisk(setup, hash, s, op, key, v)
    ensures Stored(setup, hash, Step(setup, hash, s, op), key, desc, v)
  {
    var d := s.disk.value;
    match op
    case PutOp(k, value, ttl, clock) =>
      PutAccepted(setup, hash, s, k, value, ttl, clock);
      if Accepts(setup, k, value) {
        var n := K.PutTakes(d, setup.c, hash, k, value, Expiry(clock.disk, ttl), clock.chunks);
        assert d.access[..0] == [];
        DiskPutKept(d, setup.c, hash, k, value, Expiry(clock.disk, ttl), clock.chunks);
      }
    case RemoveOp(k) =>
      K.RemoveTakes(d, k);
      DiskRemoveKept(d, k);
    case GetOp(_, _, _, _) =>
  }

  lemma DiskPutKept<Id>(d: D.State<Id>, c: pos, hash: Bytes -> Id, key: Key, value: Bytes, expiresAt: Option<int>,
                        clock: seq<int>)
    requires DT.Kept(d) && |clock| == |Split(c, value)|
    ensures DT.Kept(D.Put(d, c, hash, key, value, expiresAt, clock).0)
  {
    DT.EvictKeeps(d, |value|, 0);
    PutChunksKept(D.MakeRoom(d, |value|), hash, Split(c, value), clock);
  }

  lemma {:induction false} PutChunksKept<Id>(d: D.State<Id>, hash: Bytes -> Id, chunks: seq<Bytes>, clock: seq<int>)
    requires DT.Kept(d) && |clock| == |chunks|
    ensures DT.Kept(D.PutChunks(d, hash, chunks, clock))
    decreases |chunks|
  {
    if chunks != [] {
      DT.PutChunkKeeps(d, hash(chunks[0]), chunks[0], clock[0]);
      PutChunksKept(D.PutChunk(d, hash(chunks[0]), chunks[0], clock[0]), hash, chunks[1..], clock[1..]);
    }
  }

  lemma DiskRemoveKept<Id>(d: D.State<Id>, key: Key)
    requires DT.Kept(d)
    ensures DT.Kept(D.Remove(d, key).0)
  {
    if key in d.descriptors { RemoveChunksKept(d, d.descriptors[key].chunks); }
  }

  lemma {:induction false} RemoveChunksKept<Id>(d: D.State<Id>, ids: seq<Id>)
    requires DT.Kept(d)
    ensures DT.Kept(D.RemoveChunks(d, ids))
    decreases |ids|
  {
    if ids != [] {
      DT.RemoveChunkKeeps(d, ids[0]);
      RemoveChunksKept(D.RemoveChunk(d, ids[0]), ids[1..]);
    }
  }

  // ----- over every run --------------------------------------------------------------------------------------

  ghost predicate AllTimed(setup: Setup, ops: seq<Op>) {
    forall i :: 0 <= i < |ops| ==> Timed(setup, ops[i])
  }

  lemma {:induction false} RunKept<Id>(setup: Setup, hash: Bytes -> Id, ops: seq<Op>)
    requires AllTimed(setup, ops)
    ensures var s := Run(setup, hash, ops);
      && s.memory.Some? == setup.memory.Some? && s.disk.Some? == setup.disk.Some?
      && (s.disk.Some? ==> DT.Kept(s.disk.value))
    decreases |ops|
  {
    if ops != [] {
      RunKept(setup, hash, ops[..|ops| - 1]);
      StepKept(setup, hash, Run(setup, hash, ops[..|ops| - 1]), ops[|ops| - 1]);
    }
  }

  lemma StepKept<Id>(setup: Setup, hash: Bytes -> Id, s: State<Id>, op: Op)
    requires Timed(setup, op) && (s.disk.Some? ==> DT.Kept(s.disk.value))
    requires s.memory.Some? == setup.memory.Some? && s.disk.Some? == setup.disk.Some?
    ensures var s' := Step(setup, hash, s, op);
      && s'.memory.Some? == setup.memory.Some? && s'.disk.Some? == setup.disk.Some?
      && (s'.disk.Some? ==> DT.Kept(s'.disk.value))
  {
    match op
    case PutOp(k, value, ttl, clock) =>
      PutAccepted(setup, hash, s, k, value, ttl, clock);
      if Accepts(setup, k, value) && s.disk.Some? {
        DiskPutKept(s.disk.value, setup.c, hash, k, value, Expiry(clock.disk, ttl), clock.chunks);
      }
    case RemoveOp(k) =>
      if s.disk.Some? { DiskRemoveKept(s.disk.value, k); }
    case GetOp(_, _, _, _) =>
  }

  /** A step that may follow the run and does not touch the value on disk. */
  ghost predicate SparesNext<Id>(setup: Setup, hash: Bytes -> Id, ops: seq<Op>, op: Op, key: Key, v: Bytes) {
    AllTimed(setup, ops) && Timed(setup, op) && SparesDisk(setup, hash, Run(setup, hash, ops), op, key, v)
  }

  /** None of the later steps touches the value on disk. */
  ghost predicate AllSpareDisk<Id>(setup: Setup, hash: Bytes -> Id, ops: seq<Op>, later: seq<Op>, key: Key, v: Bytes) {
    forall i :: 0 <= i < |later| ==> SparesNext(setup, hash, ops + later[..i], later[i], key, v)
  }

  ghost predicate StoredAfter<Id>(setup: Setup, hash: Bytes -> Id, ops: seq<Op>, key: Key, desc: Descriptor<Id>,
                                  v: Bytes) {
    AllTimed(setup, ops) && Stored(setup, hash, Run(setup, hash, ops), key, desc, v)
  }

  lemma StoredAfterOne<Id>(setup: Setup, hash: Bytes -> Id, ops: seq<Op>, op: Op, key: Key, desc: Descriptor<Id>,
                           v: Bytes)
    requires StoredAfter(setup, hash, ops, key, desc, v) && SparesNext(setup, hash, ops, op, key, v)
    ensures StoredAfter(setup, hash, ops + [op], key, desc, v)
  {
    assert (ops + [op])[..|ops|] == ops && (ops + [op])[|ops|] == op;
    RunKept(setup, hash, ops);
    StepSparesDisk(setup, hash, Run(setup, hash, ops), op, key, desc, v);
  }

  lemma StaysStored<Id>(setup: Setup, hash: Bytes -> Id, ops: seq<Op>, later: seq<Op>, key: Key,
                        desc: Descriptor<Id>, v: Bytes)
    requires StoredAfter(setup, hash, ops, key, desc, v) && AllSpareDisk(setup, hash, ops, later, key, v)
    ensures StoredAfter(setup, hash, ops + later, key, desc, v)
  {
    var good := (xs: seq<Op>) => StoredAfter(setup, hash, xs, key, desc, v);
    var spares := (xs: seq<Op>, x: Op) => SparesNext(setup, hash, xs, x, key, v);
    forall xs: seq<Op>, x: Op | good(xs) && spares(xs, x) ensures good(xs + [x]) {
      StoredAfterOne(setup, hash, xs, x, key, desc, v);
    }
    Extended(good, spares, ops, later);
  }

  lemma PutStores<Id>(setup: Setup, hash: Bytes -> Id, s: State<Id>, put: Op)
    requires Timed(setup, put) && put.PutOp? && Accepts(setup, put.key, put.value) && setup.disk.Some?
    requires s.memory.Some? == setup.memory.Some? && s.disk.Some? == setup.disk.Some? && DT.Kept(s.disk.value)
    ensures Stored(setup, hash, Step(setup, hash, s, put), put.key,
                   Describe(setup.c, hash, put.value, Expiry(put.clock.disk, put.ttl)), put.value)
  {
    var d, expiry := s.disk.value, Expiry(put.clock.disk, put.ttl);
    PutAccepted(setup, hash, s, put.key, put.value, put.ttl, put.clock);
    var n := K.PutTakes(d, setup.c, hash, put.key, put.value, expiry, put.clock.chunks);
    DiskPutKept(d, setup.c, hash, put.key, put.value, expiry, put.clock.chunks);
  }

  /**
   With a disk layer, in every run: after an accepted put and later steps that do not touch the value on disk, a read
   that insists on complete data and comes before it expires is a hit with the bytes asked for, unless the range is an
   empty part of the inside of the value.
   */
  lemma RunStillReads<Id>(setup: Setup, hash: Bytes -> Id, before: seq<Op>, put: Op, later: seq<Op>,
                          range: Option<Range>, now: int, diskNow: int)
    requires AllTimed(setup, before + [put] + later) && CollisionFree(hash, Pool(setup, before + [put] + later))
    requires put.PutOp? && Accepts(setup, put.key, put.value) && setup.disk.Some?
    requires AllSpareDisk(setup, hash, before + [put], later, put.key, put.value)
    requires put.ttl.Some? ==> diskNow < put.clock.disk + put.ttl.value
    ensures var s := Run(setup, hash, before + [put] + later);
            var opts := ReadOptions(false, range);
            var r := Get(s, setup.c, setup.preferLocal, put.key, opts, now, diskNow).1;
            && (r.result == Hit <==> Readable(range, |put.value|))
            && (r.result == Hit ==> r.data == Asked(put.value, opts))
  {
    StillStored(setup, hash, before, put, later);
    assert forall i :: 0 <= i < |later| && !later[i].GetOp? ==> later[i].key != put.key;
    MapStands(setup, before + [put], later, put.key);
    PutMapped(setup, before, put);
    StoredIsRead(setup, hash, before + [put] + later, put.key, put.value, Expiry(put.clock.disk, put.ttl), range, now,
                 diskNow);
  }

  lemma StillStored<Id>(setup: Setup, hash: Bytes -> Id, before: seq<Op>, put: Op, later: seq<Op>)
    requires AllTimed(setup, before + [put] + later) && put.PutOp? && Accepts(setup, put.key, put.value)
    requires setup.disk.Some? && AllSpareDisk(setup, hash, before + [put], later, put.key, put.value)
    ensures Stored(setup, hash, Run(setup, hash, before + [put] + later), put.key,
                   Describe(setup.c, hash, put.value, Expiry(put.clock.disk, put.ttl)), put.value)
  {
    var all := before + [put] + later;
    forall i | 0 <= i < |before + [put]| ensures Timed(setup, (before + [put])[i]) {
      assert all[i] == (before + [put])[i];
    }
    forall i | 0 <= i < |before| ensures Timed(setup, before[i]) { assert all[i] == before[i]; }
    assert (before + [put])[..|before|] == before;
    RunKept(setup, hash, before);
    assert all[|before|] == put;
    PutStores(setup, hash, Run(setup, hash, before), put);
    StaysStored(setup, hash, before + [put], later, put.key,
                Describe(setup.c, hash, put.value, Expiry(put.clock.disk, put.ttl)), put.value);
  }

  /** A value that is stored and described is read in full. */
  lemma StoredIsRead<Id>(setup: Setup, hash: Bytes -> Id, ops: seq<Op>, key: Key, v: Bytes, expiry: Option<int>,
                         range: Option<Range>, now: int, diskNow: int)
    requires AllTimed(setup, ops) && CollisionFree(hash, Pool(setup, ops)) && setup.disk.Some?
    requires Stored(setup, hash, Run(setup, hash, ops), key, Describe(setup.c, hash, v, expiry), v)
    requires (expiry.Some? ==> diskNow < expiry.value) && key in MapAfter(setup, ops) && MapAfter(setup, ops)[key] == v
    ensures var opts := ReadOptions(false, range);
            var r := Get(Run(setup, hash, ops), setup.c, setup.preferLocal, key, opts, now, diskNow).1;
            && (r.result == Hit <==> Readable(range, |v|))
            && (r.result == Hit ==> r.data == Asked(v, opts))
  {
    var s, model, pool := Run(setup, hash, ops), MapAfter(setup, ops), Pool(setup, ops);
    var opts := ReadOptions(false, range);
    RunCoherent(setup, hash, ops);
    GetCoherent(setup, hash, s, model, pool, key, opts, now, diskNow);
    DiskHitsIff(s.disk.value, setup.c, hash, model, pool, key, opts, diskNow);
    OnDiskIsThere(s.disk.value, setup.c, hash, pool, v, range, s.disk.value.descriptors[key]);
    if s.memory.Some? { MemoryHitsIff(s.memory.value, setup.c, hash, model, pool, key, opts, now); }
  }

  lemma PutMapped(setup: Setup, before: seq<Op>, put: Op)
    requires put.PutOp? && Accepts(setup, put.key, put.value)
    ensures var m := MapAfter(setup, before + [put]); put.key in m && m[put.key] == put.value
  {
    assert (before + [put])[..|before|] == before;
  }

  lemma {:induction false} MapStands(setup: Setup, ops: seq<Op>, later: seq<Op>, key: Key)
    requires key in MapAfter(setup, ops) && forall i :: 0 <= i < |later| && !later[i].GetOp? ==> later[i].key != key
    ensures key in MapAfter(setup, ops + later) && MapAfter(setup, ops + later)[key] == MapAfter(setup, ops)[key]
    decreases |later|
  {
    if later == [] {
      assert ops + later == ops;
    } else {
      var before := later[..|later| - 1];
      assert (ops + later)[..|ops + later| - 1] == ops + before;
      MapStands(setup, ops, before, key);
    }
  }
}
