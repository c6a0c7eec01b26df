/**
 When a read of a known value is a hit. Right after a put, a read that insists on complete data is one exactly when its
 range is not an empty part of the inside of the value (`ReadsItsWrites`). A read that allows partial data, which is
 the default, is one exactly when, besides, memory does not answer or has every chunk the range needs
 (`DefaultReadHitsIff`): memory shadows the disk, so the read after a put can be partial (`PartialAfterPut`).
 */
module CoordinatorReads {
  import opened Options
  import opened Bytes
  import opened Chunking
  import opened Assembly
  import opened Reads
  import opened CoordinatorSpec
  import opened CoordinatorTheorems
  import M = MemorySpec
  import D = DiskSpec
  import A = ArcSpec
  import AT = ArcTheorems

  // ----- the plan --------------------------------------------------------------------------------------------

  /** The read starts past the end of the value; it is answered without looking for chunks. */
  predicate PastEnd(range: Option<Range>, total: nat) {
    (if range.Some? then range.value.offset else 0) >= total
  }

  /** Anything but a range of length zero that starts inside the value. */
  predicate Readable(range: Option<Range>, total: nat) {
    range.None? || range.value.length > 0 || range.value.offset >= total
  }

  lemma PlanIs<Id>(c: pos, desc: Descriptor<Id>, opts: ReadOptions, now: int)
    requires !IsExpired(desc, now)
    ensures var plan := PlanRead(desc, opts, now);
      && (plan.Answered? <==> PastEnd(opts.range, desc.total))
      && (plan.Answered? ==> plan.answer.result == Hit && plan.answer.data == [])
      && (plan.Wanted? ==> (plan.range.length > 0 <==> Readable(opts.range, desc.total)))
      && (plan.Wanted? && plan.range.length == 0 ==> WantedIds(c, desc, plan.range) == [])
  {
  }

  /** The chunks that a read of a known key needs. */
  function NeededIds<Id>(c: pos, desc: Descriptor<Id>, range: Option<Range>): (ids: seq<Id>)
  {
    if PastEnd(range, desc.total) then []
    else WantedIds(c, desc, Clamp(if range.Some? then range.value else Range(0, desc.total), desc.total))
  }

  // ----- reading one's writes --------------------------------------------------------------------------------

  lemma {:induction false} StoredAll<Id>(d: D.State<Id>, hash: Bytes -> Id, chunks: seq<Bytes>, clock: seq<int>,
                                         pool: set<Bytes>, x: Bytes)
    requires |clock| == |chunks| && CollisionFree(hash, pool) && (forall y :: y in chunks ==> y in pool) && x in pool
    requires x in chunks || (hash(x) in d.files && d.files[hash(x)] == x)
    ensures var f := D.PutChunks(d, hash, chunks, clock).files; hash(x) in f && f[hash(x)] == x
    decreases |chunks|
  {
    if chunks != [] {
      StoredAll(D.PutChunk(d, hash(chunks[0]), chunks[0], clock[0]), hash, chunks[1..], clock[1..], pool, x);
    }
  }

  lemma {:induction false} FetchesAll<Id>(d: D.State<Id>, hash: Bytes -> Id, wanted: seq<Bytes>, allowPartial: bool)
    requires forall x :: x in wanted ==> x != [] && hash(x) in d.files && d.files[hash(x)] == x
    ensures D.Fetch(d, IdsOf(hash, wanted), allowPartial).1
    decreases |wanted|
  {
    if wanted != [] {
      assert wanted[0] in wanted;
      assert IdsOf(hash, wanted)[1..] == IdsOf(hash, wanted[1..]);
      FetchesAll(d, hash, wanted[1..], allowPartial);
    }
  }

  lemma DiskHoldsItsWrites<Id>(d: D.State<Id>, c: pos, hash: Bytes -> Id, pool: set<Bytes>, key: Key, value: Bytes,
                               expiresAt: Option<int>, clock: seq<int>, wanted: seq<Bytes>)
    requires CollisionFree(hash, pool) && ChunksOf(c, value) <= pool
    requires |clock| == |Split(c, value)| && |key| <= MAX_KEY_SIZE
    requires forall x :: x in wanted ==> x in ChunksOf(c, value)
    ensures var d' := D.Put(d, c, hash, key, value, expiresAt, clock).0;
            forall x :: x in wanted ==> x != [] && hash(x) in d'.files && d'.files[hash(x)] == x
  {
    var d' := D.Put(d, c, hash, key, value, expiresAt, clock).0;
    forall x | x in wanted ensures x != [] && hash(x) in d'.files && d'.files[hash(x)] == x {
      assert forall y :: y in Split(c, value) ==> y in ChunksOf(c, value);
      StoredAll(D.MakeRoom(d, |value|), hash, Split(c, value), clock, pool, x);
      SplitConcat(c, value);
    }
  }

  /**
   Right after a put, the disk layer answers a read with a hit exactly when the value has not expired and the range is
   readable; an unreadable range is a miss.
   */
  lemma DiskReadsItsWrites<Id>(d: D.State<Id>, c: pos, hash: Bytes -> Id, model: map<Key, Bytes>, pool: set<Bytes>,
                               key: Key, value: Bytes, expiresAt: Option<int>, clock: seq<int>, opts: ReadOptions,
                               now: int)
    requires DiskOk(d, c, hash, model, pool) && CollisionFree(hash, pool + ChunksOf(c, value)) && |value| < TWO_64
    requires |clock| == |Split(c, value)| && |key| <= MAX_KEY_SIZE
    ensures var r := D.Get(D.Put(d, c, hash, key, value, expiresAt, clock).0, c, key, opts, now);
      && (r.result == Hit <==> (expiresAt.Some? ==> now < expiresAt.value) && Readable(opts.range, |value|))
      && ((expiresAt.Some? ==> now < expiresAt.value) && !Readable(opts.range, |value|) ==> r == MISSED)
  {
    var d' := D.Put(d, c, hash, key, value, expiresAt, clock).0;
    var desc := Describe(c, hash, value, expiresAt);
    DiskPutOk(d, c, hash, model, pool, key, value, expiresAt, clock);
    if !IsExpired(desc, now) {
      PlanIs(c, desc, opts, now);
      var plan := PlanRead(desc, opts, now);
      if plan.Wanted? && plan.range.length > 0 {
        DiskReadHits(d', c, hash, pool + ChunksOf(c, value), value, desc, plan.range, opts.allowPartial) by {
          WantedIdsAreHashes(c, hash, value, desc, plan.range);
          DiskHoldsItsWrites(d, c, hash, pool + ChunksOf(c, value), key, value, expiresAt, clock,
                             WantedChunks(c, value, plan.range));
        }
      }
    }
  }

  lemma DiskReadHits<Id>(d: D.State<Id>, c: pos, hash: Bytes -> Id, pool: set<Bytes>, value: Bytes,
                         desc: Descriptor<Id>, range: Range, allowPartial: bool)
    requires FilesOk(d.files, hash, pool) && CollisionFree(hash, pool) && ChunksOf(c, value) <= pool
    requires Describes(desc, c, hash, value) && 0 < range.length && range.offset + range.length <= |value| < TWO_64
    requires forall x :: x in WantedChunks(c, value, range) ==> x != [] && hash(x) in d.files && d.files[hash(x)] == x
    ensures var r := D.Fetch(d, WantedIds(c, desc, range), allowPartial);
            Conclude(c, false, range, r.0, r.1, allowPartial) == ReadResult(Hit, Slice(value, range), range)
  {
    var wanted := WantedChunks(c, value, range);
    WantedIdsAreHashes(c, hash, value, desc, range);
    FetchesAll(d, hash, wanted, allowPartial);
    ReadFaithful(d, hash, wanted, allowPartial, pool);
    var r := D.Fetch(d, IdsOf(hash, wanted), allowPartial);
    FaithfulIsGenuine(c, value, range, r.0, r.1);
    ConcludeHits(c, false, value, range, r.0, allowPartial);
  }

  /**
   With a disk layer, an accepted put is read back exactly by a read that insists on complete data and comes before the
   value expires, unless the range is an empty part of the inside of the value: then the read is a miss.
   */
  lemma ReadsItsWrites<Id>(setup: Setup, hash: Bytes -> Id, s: State<Id>, model: map<Key, Bytes>, pool: set<Bytes>,
                           key: Key, value: Bytes, ttl: Option<nat>, clock: PutClock, range: Option<Range>, now: int,
                           later: int)
    requires Coherent(setup, hash, s, model, pool) && CollisionFree(hash, pool + ChunksOf(setup.c, value))
    requires setup.disk.Some? && Accepts(setup, key, value) && |value| < TWO_64
    requires |clock.chunks| == |Split(setup.c, value)| && (ttl.Some? ==> later < clock.disk + ttl.value)
    ensures var s' := Put(s, setup.c, hash, key, value, ttl, clock).0;
            var opts := ReadOptions(false, range);
            var r := Get(s', setup.c, setup.preferLocal, key, opts, now, later).1;
            && (r.result == Hit <==> range.None? || range.value.length > 0 || range.value.offset >= |value|)
            && (r.result == Hit ==> r.data == Asked(value, opts))
            && (r.result != Hit ==> r == MISSED)
  {
    var s' := Put(s, setup.c, hash, key, value, ttl, clock).0;
    var opts, all := ReadOptions(false, range), pool + ChunksOf(setup.c, value);
    PutAccepted(setup, hash, s, key, value, ttl, clock);
    PutCoherent(setup, hash, s, model, pool, key, value, ttl, clock);
    GetCoherent(setup, hash, s', model[key := value], all, key, opts, now, later);
    DiskReadsItsWrites(s.disk.value, setup.c, hash, model, pool, key, value, Expiry(clock.disk, ttl), clock.chunks,
                       opts, later);
    if s.memory.Some? {
      MemoryHitsIff(s'.memory.value, setup.c, hash, model[key := value], all, key, opts, now);
    }
  }

  // ----- what memory answers ---------------------------------------------------------------------------------

  lemma SameResidents<Id>(a: A.State<Id, Bytes>, b: A.State<Id, Bytes>, id: Id)
    requires A.Residents(a) == A.Residents(b) && A.Contains(a, id)
    ensures A.Contains(b, id)
  {
    var e := if id in A.Keys(a.t1) then A.Find(a.t1, id) else A.Find(a.t2, id);
    assert e in A.Residents(b);
    ResidentIsContained(b, e);
  }

  lemma ResidentIsContained<Id>(a: A.State<Id, Bytes>, e: A.Entry<Id, Bytes>)
    requires e in A.Residents(a)
    ensures A.Contains(a, e.key)
  {
    if e in a.t1 {
      var i :| 0 <= i < |a.t1| && a.t1[i] == e;
      assert A.Keys(a.t1)[i] == e.key;
    } else {
      var i :| 0 <= i < |a.t2| && a.t2[i] == e;
      assert A.Keys(a.t2)[i] == e.key;
    }
  }

  ghost predicate AllResident<Id>(chunks: A.State<Id, Bytes>, ids: seq<Id>) {
    forall id :: id in ids ==> A.Contains(chunks, id)
  }

  lemma StillResident<Id>(chunks: A.State<Id, Bytes>, id: Id, ids: seq<Id>)
    requires A.Inv(chunks)
    ensures AllResident(A.Get(chunks, id).0, ids) <==> AllResident(chunks, ids)
  {
    AT.GetKeeps(chunks, id);
    forall i | i in ids ensures A.Contains(A.Get(chunks, id).0, i) <==> A.Contains(chunks, i) {
      if A.Contains(chunks, i) { SameResidents(chunks, A.Get(chunks, id).0, i); }
      if A.Contains(A.Get(chunks, id).0, i) { SameResidents(A.Get(chunks, id).0, chunks, i); }
    }
  }

  /** Fetching promotes chunks and evicts none, so it finds them all exactly when all are there at the start. */
  lemma {:induction false} FetchesAllIff<Id>(chunks: A.State<Id, Bytes>, ids: seq<Id>, allowPartial: bool)
    requires A.Inv(chunks)
    ensures M.FetchAll(chunks, ids, allowPartial).all <==> AllResident(chunks, ids)
    decreases |ids|
  {
    if ids != [] {
      var next := A.Get(chunks, ids[0]).0;
      AT.GetKeeps(chunks, ids[0]);
      FetchesAllIff(next, ids[1..], allowPartial);
      StillResident(chunks, ids[0], ids[1..]);
      assert AllResident(chunks, ids) <==> A.Contains(chunks, ids[0]) && AllResident(chunks, ids[1..]);
    }
  }

  /**
   The memory layer answers a read of a known key with a hit exactly when its copy has not expired, the range is
   readable, and every chunk the range needs is resident.
   */
  lemma MemoryHitsIff<Id>(m: M.State<Id>, c: pos, hash: Bytes -> Id, model: map<Key, Bytes>, pool: set<Bytes>, key: Key,
                          opts: ReadOptions, now: int)
    requires MemoryOk(m, c, hash, model, pool) && CollisionFree(hash, pool) && key in model
    ensures var desc := m.descriptors[key];
            M.Get(m, c, key, opts, now).1.result == Hit
            <==> && !IsExpired(desc, now) && Readable(opts.range, |model[key]|)
                 && AllResident(m.chunks, NeededIds(c, desc, opts.range))
  {
    var v, desc := model[key], m.descriptors[key];
    if !IsExpired(desc, now) {
      PlanIs(c, desc, opts, now);
      match PlanRead(desc, opts, now)
      case Answered(_) =>
      case Wanted(range) =>
        FetchesAllIff(m.chunks, WantedIds(c, desc, range), opts.allowPartial);
        if range.length > 0 {
          MemoryReadHits(m, c, hash, pool, v, desc, range, opts.allowPartial);
        }
    }
  }

  lemma MemoryReadHits<Id>(m: M.State<Id>, c: pos, hash: Bytes -> Id, pool: set<Bytes>, value: Bytes,
                           desc: Descriptor<Id>, range: Range, allowPartial: bool)
    requires ResidentsOk(m.chunks, hash, pool) && CollisionFree(hash, pool) && ChunksOf(c, value) <= pool
    requires Describes(desc, c, hash, value) && 0 < range.length && range.offset + range.length <= |value| < TWO_64
    ensures var r := M.FetchAll(m.chunks, WantedIds(c, desc, range), allowPartial);
            r.all <==> Conclude(c, true, range, r.found, r.all, allowPartial).result == Hit
  {
    var wanted := WantedChunks(c, value, range);
    WantedIdsAreHashes(c, hash, value, desc, range);
    FetchFaithful(m.chunks, hash, wanted, allowPartial, pool);
    var r := M.FetchAll(m.chunks, IdsOf(hash, wanted), allowPartial);
    FaithfulIsGenuine(c, value, range, r.found, r.all);
    if r.all {
      ConcludeHits(c, true, value, range, r.found, allowPartial);
    }
  }

  // ----- reads that allow partial data -----------------------------------------------------------------------

  /**
   With partial data allowed, a key that memory knows is never looked up on disk, unless the memory copy has
   expired or the clamped range is empty: a key fully on disk whose chunks memory evicted reads as a partial hit.
   */
  lemma MemoryShadowsDisk<Id>(s: State<Id>, c: pos, key: Key, opts: ReadOptions, now: int, later: int)
    requires s.memory.Some? && key in s.memory.value.descriptors && opts.allowPartial
    requires var desc := s.memory.value.descriptors[key];
             !IsExpired(desc, now) && |desc.chunks| == ChunkCount(c, desc.total) && desc.total < TWO_64
    requires Readable(opts.range, s.memory.value.descriptors[key].total)
    ensures var r := Get(s, c, true, key, opts, now, later).1;
            r == M.Get(s.memory.value, c, key, opts, now).1 && (r.result == Hit || r.result == PartialHit)
  {
    var desc := s.memory.value.descriptors[key];
    match PlanRead(desc, opts, now)
    case Answered(_) =>
    case Wanted(range) =>
      ChunksRun(c, desc.total, range);
      FetchFetches(s.memory.value.chunks, WantedIds(c, desc, range));
  }

  lemma {:induction false} FetchFetches<Id>(chunks: A.State<Id, Bytes>, ids: seq<Id>)
    ensures |M.FetchAll(chunks, ids, true).found| == |ids|
    decreases |ids|
  {
    if ids != [] { FetchFetches(A.Get(chunks, ids[0]).0, ids[1..]); }
  }

  /** Memory has not let go of its own copy by the time it is asked. */
  predicate MemoryAnswers(setup: Setup, ttl: Option<nat>, clock: PutClock, now: int) {
    setup.memory.Some? && setup.preferLocal && (ttl.Some? ==> now < clock.memory + ttl.value)
  }

  /**
   With a disk layer, a read that allows partial data, right after an accepted put and before the value expires, is a
   hit exactly when the range is readable and memory, where it answers, holds every chunk the range needs. Otherwise a
   readable range is a partial hit, although the disk holds everything; an unreadable one is a miss.
   */
  lemma DefaultReadHitsIff<Id>(setup: Setup, hash: Bytes -> Id, s: State<Id>, model: map<Key, Bytes>, pool: set<Bytes>,
                               key: Key, value: Bytes, ttl: Option<nat>, clock: PutClock, range: Option<Range>,
                               now: int, later: int)
    requires Coherent(setup, hash, s, model, pool) && CollisionFree(hash, pool + ChunksOf(setup.c, value))
    requires setup.disk.Some? && Accepts(setup, key, value) && |value| < TWO_64
    requires |clock.chunks| == |Split(setup.c, value)| && (ttl.Some? ==> later < clock.disk + ttl.value)
    ensures var s' := Put(s, setup.c, hash, key, value, ttl, clock).0;
            var opts := ReadOptions(true, range);
            var r := Get(s', setup.c, setup.preferLocal, key, opts, now, later).1;
            var needed := NeededIds(setup.c, Describe(setup.c, hash, value, None), range);
            && (r.result == Hit <==>
                  && Readable(range, |value|)
                  && (MemoryAnswers(setup, ttl, clock, now) ==>
                        s'.memory.Some? && AllResident(s'.memory.value.chunks, needed)))
            && (r.result == Hit ==> r.data == Asked(value, opts))
            && (r.result != Hit && Readable(range, |value|) ==> r.result == PartialHit)
            && (!Readable(range, |value|) ==> r == MISSED)
  {
    var s' := Put(s, setup.c, hash, key, value, ttl, clock).0;
    var opts, all := ReadOptions(true, range), pool + ChunksOf(setup.c, value);
    PutAccepted(setup, hash, s, key, value, ttl, clock);
    PutCoherent(setup, hash, s, model, pool, key, value, ttl, clock);
    DiskReadsItsWrites(s.disk.value, setup.c, hash, model, pool, key, value, Expiry(clock.disk, ttl), clock.chunks,
                       opts, later);
    PutDescribes(setup, hash, s, key, value, ttl, clock);
    DefaultReadIs(setup, hash, s', model[key := value], all, key, opts, now, later);
  }

  /** One needed chunk that memory has lost makes the read partial. */
  lemma DefaultReadPartial<Id>(setup: Setup, hash: Bytes -> Id, s: State<Id>, model: map<Key, Bytes>, pool: set<Bytes>,
                               key: Key, value: Bytes, ttl: Option<nat>, clock: PutClock, range: Option<Range>,
                               now: int, later: int, lost: Id)
    requires Coherent(setup, hash, s, model, pool) && CollisionFree(hash, pool + ChunksOf(setup.c, value))
    requires setup.disk.Some? && Accepts(setup, key, value) && |value| < TWO_64
    requires |clock.chunks| == |Split(setup.c, value)| && (ttl.Some? ==> later < clock.disk + ttl.value)
    requires MemoryAnswers(setup, ttl, clock, now) && Readable(range, |value|)
    requires lost in NeededIds(setup.c, Describe(setup.c, hash, value, None), range)
    requires var m := Put(s, setup.c, hash, key, value, ttl, clock).0.memory;
             m.None? || !A.Contains(m.value.chunks, lost)
    ensures var s' := Put(s, setup.c, hash, key, value, ttl, clock).0;
            Get(s', setup.c, setup.preferLocal, key, ReadOptions(true, range), now, later).1.result == PartialHit
  {
    DefaultReadHitsIff(setup, hash, s, model, pool, key, value, ttl, clock, range, now, later);
  }

  lemma PutDescribes<Id>(setup: Setup, hash: Bytes -> Id, s: State<Id>, key: Key, value: Bytes, ttl: Option<nat>,
                         clock: PutClock)
    requires s.memory.Some? == setup.memory.Some? && s.disk.Some? == setup.disk.Some?
    requires Accepts(setup, key, value) && |clock.chunks| == |Split(setup.c, value)|
    ensures var s' := Put(s, setup.c, hash, key, value, ttl, clock).0;
      && s'.memory.Some? == setup.memory.Some? && s'.disk.Some? == setup.disk.Some?
      && (s'.memory.Some? ==>
            key in s'.memory.value.descriptors
            && s'.memory.value.descriptors[key] == Describe(setup.c, hash, value, Expiry(clock.memory, ttl)))
      && (s'.disk.Some? ==>
            s'.disk.value == D.Put(s.disk.value, setup.c, hash, key, value, Expiry(clock.disk, ttl), clock.chunks).0)
  {
  }

  lemma DefaultReadIs<Id>(setup: Setup, hash: Bytes -> Id, s: State<Id>, model: map<Key, Bytes>, pool: set<Bytes>,
                          key: Key, opts: ReadOptions, now: int, later: int)
    requires Coherent(setup, hash, s, model, pool) && CollisionFree(hash, pool) && key in model && opts.allowPartial
    requires s.disk.Some? && var onDisk := D.Get(s.disk.value, setup.c, key, opts, later);
      if Readable(opts.range, |model[key]|) then onDisk.result == Hit else onDisk == MISSED
    ensures var r := Get(s, setup.c, setup.preferLocal, key, opts, now, later).1;
      && (r.result == Hit <==>
            && Readable(opts.range, |model[key]|)
            && (s.memory.Some? && setup.preferLocal && !IsExpired(s.memory.value.descriptors[key], now) ==>
                  AllResident(s.memory.value.chunks, NeededIds(setup.c, s.memory.value.descriptors[key], opts.range))))
      && (r.result == Hit ==> r.data == Asked(model[key], opts))
      && (r.result != Hit && Readable(opts.range, |model[key]|) ==> r.result == PartialHit)
      && (!Readable(opts.range, |model[key]|) ==> r == MISSED)
  {
    GetCoherent(setup, hash, s, model, pool, key, opts, now, later);
    if s.memory.Some? && setup.preferLocal {
      MemoryHitsIff(s.memory.value, setup.c, hash, model, pool, key, opts, now);
      if !IsExpired(s.memory.value.descriptors[key], now) && Readable(opts.range, |model[key]|) {
        SplitCount(setup.c, model[key]);
        MemoryShadowsDisk(s, setup.c, key, opts, now, later);
      }
    }
  }

  // ----- when memory holds what was put ----------------------------------------------------------------------

  /** A put that fits beside what is there evicts nothing. */
  lemma FittingPut<Id>(chunks: A.State<Id, Bytes>, id: Id, data: Bytes, other: Id)
    requires A.Inv(chunks) && chunks.current + |data| <= chunks.capacity
    ensures var r := A.Put(chunks, id, data, |data|).state;
      && A.Inv(r) && r.capacity == chunks.capacity && r.current <= chunks.current + |data|
      && (other == id || A.Contains(chunks, other) ==> A.Contains(r, other))
  {
    AT.PutKeepsInv(chunks, id, data, |data|);
    FittingPutEvictsNothing(chunks, id, data);
    FittingPutKeeps(chunks, id, data, other);
  }

  lemma FittingPutKeeps<Id>(chunks: A.State<Id, Bytes>, id: Id, data: Bytes, other: Id)
    requires A.Put(chunks, id, data, |data|).evicted == []
    ensures other == id || A.Contains(chunks, other) ==> A.Contains(A.Put(chunks, id, data, |data|).state, other)
  {
    var r, added := A.Put(chunks, id, data, |data|).state, A.Entry(id, data, |data|);
    AT.PutConserves(chunks, id, data, |data|);
    assert A.Residents(r) == A.Residents(chunks) - AT.Bound(chunks, id) + multiset{added};
    if other == id {
      ResidentIsContained(r, added);
    } else if A.Contains(chunks, other) {
      var e := if other in A.Keys(chunks.t1) then A.Find(chunks.t1, other) else A.Find(chunks.t2, other);
      assert e in A.Residents(chunks) && e !in AT.Bound(chunks, id);
      ResidentIsContained(r, e);
    }
  }

  lemma FittingPutEvictsNothing<Id>(chunks: A.State<Id, Bytes>, id: Id, data: Bytes)
    requires chunks.current + |data| <= chunks.capacity
    ensures var r := A.Put(chunks, id, data, |data|);
      && r.evicted == [] && r.state.capacity == chunks.capacity && r.state.current <= chunks.current + |data|
  {
    AT.PreparedFrame(chunks, id);
  }

  lemma {:induction false} FittingPuts<Id>(chunks: A.State<Id, Bytes>, c: pos, hash: Bytes -> Id, value: Bytes, id: Id)
    requires A.Inv(chunks) && chunks.current + |value| <= chunks.capacity
    requires A.Contains(chunks, id) || id in IdsOf(hash, Split(c, value))
    ensures A.Contains(M.PutChunks(chunks, hash, Split(c, value)), id)
    decreases |value|
  {
    if value != [] {
      var n := Min(c, |value|);
      var first, rest := value[..n], value[n..];
      FittingPut(chunks, hash(first), first, id);
      assert Split(c, value)[0] == first && Split(c, value)[1..] == Split(c, rest);
      assert IdsOf(hash, Split(c, value)) == [hash(first)] + IdsOf(hash, Split(c, rest));
      FittingPuts(A.Put(chunks, hash(first), first, n).state, c, hash, rest, id);
    }
  }

  /** A value that fits into the free part of memory is all there after its put, so every readable range is a hit. */
  lemma FittingValueHits<Id>(setup: Setup, hash: Bytes -> Id, s: State<Id>, model: map<Key, Bytes>, pool: set<Bytes>,
                             key: Key, value: Bytes, ttl: Option<nat>, clock: PutClock, range: Option<Range>, now: int,
                             later: int)
    requires Coherent(setup, hash, s, model, pool) && CollisionFree(hash, pool + ChunksOf(setup.c, value))
    requires setup.disk.Some? && Accepts(setup, key, value) && |value| < TWO_64
    requires |clock.chunks| == |Split(setup.c, value)| && (ttl.Some? ==> later < clock.disk + ttl.value)
    requires s.memory.Some? ==> s.memory.value.chunks.current + |value| <= s.memory.value.chunks.capacity
    requires Readable(range, |value|)
    ensures var s' := Put(s, setup.c, hash, key, value, ttl, clock).0;
            Get(s', setup.c, setup.preferLocal, key, ReadOptions(true, range), now, later).1.result == Hit
  {
    DefaultReadHitsIff(setup, hash, s, model, pool, key, value, ttl, clock, range, now, later);
    if s.memory.Some? {
      var needed := NeededIds(setup.c, Describe(setup.c, hash, value, None), range);
      forall id | id in needed ensures A.Contains(M.PutChunks(s.memory.value.chunks, hash, Split(setup.c, value)), id) {
        FittingPuts(s.memory.value.chunks, setup.c, hash, value, id);
      }
    }
  }

  // ----- inputs for which a read is not a hit ----------------------------------------------------------------

  const SMALL: Setup := Setup(1, true, Some(1), Some(D.Config(100, 1.0, 1.0)))

  function Itself(chunk: Bytes): Bytes { chunk }

  lemma TwoChunks()
    ensures Split(1, [1, 2]) == [[1], [2]]
  {
    var v: Bytes := [1, 2];
    assert v[..1] == [1] && v[1..] == [2] && v[1..][..1] == [2] && v[1..][1..] == [];
    assert Split(1, v[1..]) == [[2]] + Split(1, []);
    assert Split(1, v) == [[1]] + Split(1, v[1..]);
  }

  /** A one-chunk memory and a disk, after one put of a two-chunk value. */
  function AfterPut(): State<Bytes>
  {
    TwoChunks();
    Put(Start(SMALL), 1, Itself, [0], [1, 2], None, PutClock(0, 0, [0, 1])).0
  }

  lemma Started()
    ensures Coherent(SMALL, Itself, Start(SMALL), map[], {})
    ensures CollisionFree(Itself, {} + ChunksOf(1, [1, 2]))
  {
    RunCoherent(SMALL, Itself, []);
  }

  /** A zero-length range at the front of a value just put is a miss, whether or not partial data is allowed. */
  lemma EmptyRangeMisses(allowPartial: bool)
    ensures Get(AfterPut(), 1, true, [0], ReadOptions(allowPartial, Some(Range(0, 0))), 0, 0).1 == MISSED
  {
    Started();
    TwoChunks();
    if allowPartial {
      DefaultReadHitsIff(SMALL, Itself, Start(SMALL), map[], {}, [0], [1, 2], None, PutClock(0, 0, [0, 1]),
                         Some(Range(0, 0)), 0, 0);
    } else {
      ReadsItsWrites(SMALL, Itself, Start(SMALL), map[], {}, [0], [1, 2], None, PutClock(0, 0, [0, 1]),
                     Some(Range(0, 0)), 0, 0);
    }
  }

  /** The default read of a value just put is partial when memory holds one of its two chunks. */
  lemma PartialAfterPut()
    ensures Get(AfterPut(), 1, true, [0], ReadOptions(true, None), 0, 0).1.result == PartialHit
  {
    Started();
    TwoChunks();
    FirstChunkEvicted();
    FirstChunkNeeded();
    DefaultReadPartial(SMALL, Itself, Start(SMALL), map[], {}, [0], [1, 2], None, PutClock(0, 0, [0, 1]), None, 0, 0,
                       [1]);
  }

  /** One that insists on complete data finds all of it on the disk. */
  lemma CompleteAfterPut()
    ensures var r := Get(AfterPut(), 1, true, [0], ReadOptions(false, None), 0, 0).1;
            r.result == Hit && r.data == [1, 2]
  {
    Started();
    TwoChunks();
    ReadsItsWrites(SMALL, Itself, Start(SMALL), map[], {}, [0], [1, 2], None, PutClock(0, 0, [0, 1]), None, 0, 0);
    AskedWhole([1, 2]);
  }

  lemma AskedWhole(v: Bytes)
    ensures Asked(v, ReadOptions(false, None)) == v
  {
  }

  lemma FirstChunkNeeded()
    ensures [1] in NeededIds(1, Describe(1, Itself, [1, 2], None), None)
  {
    TwoChunks();
    ChunksRun(1, 2, Range(0, 2));
    var desc := Describe(1, Itself, [1, 2], None);
    assert desc.chunks == [[1], [2]];
    assert WantedIds(1, desc, Range(0, 2))[0] == [1];
  }

  lemma FirstChunkEvicted()
    ensures AfterPut().memory.Some? && !A.Contains(AfterPut().memory.value.chunks, [1])
  {
    TwoChunks();
    var none := A.Empty<Bytes, Bytes>(1);
    var one := A.Put(none, [1], [1], 1).state;
    assert A.Keys<Bytes, Bytes>([]) == [];
    assert one.t1 == [A.Entry([1], [1], 1)] && A.Keys(one.t1) == [[1]];
    var two := A.Put(one, [2], [2], 1).state;
    assert A.EvictFor(one, 1).state == A.EvictOne(one).state;
    assert two.t1 == [A.Entry([2], [2], 1)] && A.Keys(two.t1) == [[2]];
    assert M.PutChunks(none, Itself, [[1], [2]]) == two by {
      assert [[1], [2]][1..] == [[2]] && [[2]][1..] == [];
    }
  }
}
