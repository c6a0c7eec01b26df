/**
 Exactly when a layer answers a read with a hit, a partial hit, a miss, or that the value has expired, and exactly what
 a partial hit carries.
 */
module LayerAnswers {
  import opened Options
  import opened Bytes
  import opened Chunking
  import opened Assembly
  import opened AssemblyGaps
  import opened Reads
  import opened CoordinatorTheorems
  import opened CoordinatorReads
  import opened CoordinatorKeeps
  import M = MemorySpec
  import D = DiskSpec
  import A = ArcSpec
  import AT = ArcTheorems

  /** The answer of a layer for a key it knows, by what it has. */
  ghost function AnswerOf(expired: bool, readable: bool, all: bool, allowPartial: bool): CacheResult {
    if expired then Expired
    else if !readable then Miss
    else if all then Hit
    else if allowPartial then PartialHit
    else Miss
  }

  /** Which of its four answers memory gives. */
  lemma MemoryAnswers<Id>(m: M.State<Id>, c: pos, hash: Bytes -> Id, model: map<Key, Bytes>, pool: set<Bytes>, key: Key,
                          opts: ReadOptions, now: int)
    requires MemoryOk(m, c, hash, model, pool) && CollisionFree(hash, pool)
    ensures M.Get(m, c, key, opts, now).1.result ==
      if key !in model then Miss
      else AnswerOf(IsExpired(m.descriptors[key], now), Readable(opts.range, |model[key]|),
                    AllResident(m.chunks, NeededIds(c, m.descriptors[key], opts.range)), opts.allowPartial)
  {
    if key in model {
      var desc := m.descriptors[key];
      MemoryHitsIff(m, c, hash, model, pool, key, opts, now);
      if !IsExpired(desc, now) {
        PlanIs(c, desc, opts, now);
        match PlanRead(desc, opts, now)
        case Answered(_) =>
        case Wanted(range) =>
          FetchesAllIff(m.chunks, WantedIds(c, desc, range), opts.allowPartial);
          if range.length > 0 { NeedsSome(c, model[key], desc, range, hash); }
          if opts.allowPartial { FetchFetches(m.chunks, WantedIds(c, desc, range)); }
      }
    }
  }

  lemma NeedsSome<Id>(c: pos, v: Bytes, desc: Descriptor<Id>, range: Range, hash: Bytes -> Id)
    requires Describes(desc, c, hash, v) && 0 < range.length && range.offset + range.length <= |v| < TWO_64
    ensures WantedIds(c, desc, range) != []
  {
    SplitCount(c, v);
    ChunksRun(c, |v|, range);
  }

  /** Which of its four answers the disk gives. */
  lemma DiskAnswers<Id>(d: D.State<Id>, c: pos, hash: Bytes -> Id, model: map<Key, Bytes>, pool: set<Bytes>, key: Key,
                        opts: ReadOptions, now: int)
    requires DiskOk(d, c, hash, model, pool) && CollisionFree(hash, pool)
    ensures D.Get(d, c, key, opts, now).result ==
      if key !in model then Miss
      else AnswerOf(IsExpired(d.descriptors[key], now), Readable(opts.range, |model[key]|),
                    AllThere(d, NeededIds(c, d.descriptors[key], opts.range)), opts.allowPartial)
  {
    if key in model {
      var desc := d.descriptors[key];
      DiskHitsIff(d, c, hash, model, pool, key, opts, now);
      if !IsExpired(desc, now) {
        PlanIs(c, desc, opts, now);
        match PlanRead(desc, opts, now)
        case Answered(_) =>
        case Wanted(range) =>
          DiskFetchesAllIff(d, WantedIds(c, desc, range), opts.allowPartial);
          if range.length > 0 { NeedsSome(c, model[key], desc, range, hash); }
          if opts.allowPartial { DiskFetchFetches(d, WantedIds(c, desc, range)); }
      }
    }
  }

  lemma {:induction false} DiskFetchFetches<Id>(d: D.State<Id>, ids: seq<Id>)
    ensures |D.Fetch(d, ids, true).0| == |ids|
  {
    if ids != [] { DiskFetchFetches(d, ids[1..]); }
  }

  // ----- what a partial hit carries --------------------------------------------------------------------------

  /** Of the wanted chunks, those that are resident. */
  ghost function ResidentChunks<Id>(chunks: A.State<Id, Bytes>, hash: Bytes -> Id, wanted: seq<Bytes>)
      : (r: seq<Option<Bytes>>)
    ensures |r| == |wanted|
  {
    seq(|wanted|, i requires 0 <= i < |wanted| =>
      if A.Contains(chunks, hash(wanted[i])) then Some(wanted[i]) else None)
  }

  /** Of the wanted chunks, those whose file is there. */
  ghost function FiledChunks<Id>(d: D.State<Id>, hash: Bytes -> Id, wanted: seq<Bytes>): (r: seq<Option<Bytes>>)
    ensures |r| == |wanted|
  {
    seq(|wanted|, i requires 0 <= i < |wanted| => if hash(wanted[i]) in d.files then Some(wanted[i]) else None)
  }

  lemma SameResidentChunks<Id>(a: A.State<Id, Bytes>, b: A.State<Id, Bytes>, hash: Bytes -> Id, wanted: seq<Bytes>)
    requires A.Residents(a) == A.Residents(b)
    ensures ResidentChunks(a, hash, wanted) == ResidentChunks(b, hash, wanted)
  {
    forall i | 0 <= i < |wanted| ensures A.Contains(a, hash(wanted[i])) <==> A.Contains(b, hash(wanted[i])) {
      if A.Contains(a, hash(wanted[i])) { SameResidents(a, b, hash(wanted[i])); }
      if A.Contains(b, hash(wanted[i])) { SameResidents(b, a, hash(wanted[i])); }
    }
  }

  lemma {:induction false} FetchFinds<Id>(chunks: A.State<Id, Bytes>, hash: Bytes -> Id, wanted: seq<Bytes>,
                                          pool: set<Bytes>)
    requires ResidentsOk(chunks, hash, pool) && CollisionFree(hash, pool) && forall x :: x in wanted ==> x in pool
    ensures M.FetchAll(chunks, IdsOf(hash, wanted), true).found == ResidentChunks(chunks, hash, wanted)
    decreases |wanted|
  {
    if wanted != [] {
      var got := A.Get(chunks, hash(wanted[0]));
      FirstFound(chunks, hash, wanted, pool);
      assert IdsOf(hash, wanted)[1..] == IdsOf(hash, wanted[1..]);
      FetchFinds(got.0, hash, wanted[1..], pool);
      SameResidentChunks(got.0, chunks, hash, wanted[1..]);
    }
  }

  lemma FirstFound<Id>(chunks: A.State<Id, Bytes>, hash: Bytes -> Id, wanted: seq<Bytes>, pool: set<Bytes>)
    requires ResidentsOk(chunks, hash, pool) && CollisionFree(hash, pool) && wanted != [] && wanted[0] in pool
    ensures var got := A.Get(chunks, hash(wanted[0]));
      && ResidentsOk(got.0, hash, pool) && A.Residents(got.0) == A.Residents(chunks)
      && ResidentChunks(chunks, hash, wanted) == [got.1] + ResidentChunks(chunks, hash, wanted[1..])
  {
    GetChunkOk(chunks, hash, wanted[0], pool);
    AT.GetKeeps(chunks, hash(wanted[0]));
    ResidentFirst(chunks, hash, wanted, A.Get(chunks, hash(wanted[0])).1);
  }

  lemma ResidentFirst<Id>(chunks: A.State<Id, Bytes>, hash: Bytes -> Id, wanted: seq<Bytes>, got: Option<Bytes>)
    requires wanted != [] && (got.Some? <==> A.Contains(chunks, hash(wanted[0])))
    requires got.Some? ==> got.value == wanted[0]
    ensures ResidentChunks(chunks, hash, wanted) == [got] + ResidentChunks(chunks, hash, wanted[1..])
  {
    var all, rest := ResidentChunks(chunks, hash, wanted), ResidentChunks(chunks, hash, wanted[1..]);
    assert all[0] == got;
    assert forall i :: 0 < i < |all| ==> all[i] == rest[i - 1];
  }

  lemma {:induction false} ReadFinds<Id>(d: D.State<Id>, hash: Bytes -> Id, wanted: seq<Bytes>, pool: set<Bytes>)
    requires FilesOk(d.files, hash, pool) && CollisionFree(hash, pool)
    requires forall x :: x in wanted ==> x in pool && x != []
    ensures D.Fetch(d, IdsOf(hash, wanted), true).0 == FiledChunks(d, hash, wanted)
    decreases |wanted|
  {
    if wanted != [] {
      assert IdsOf(hash, wanted)[1..] == IdsOf(hash, wanted[1..]);
      ReadFinds(d, hash, wanted[1..], pool);
      assert FiledChunks(d, hash, wanted) == [D.GetChunk(d, hash(wanted[0]))] + FiledChunks(d, hash, wanted[1..]);
    }
  }

  /**
   A partial hit from memory carries exactly the bytes of the range that lie in resident chunks; only when the range
   starts inside a missing chunk, the first resident one loses as many bytes at its start.
   */
  lemma MemoryPartialIs<Id>(m: M.State<Id>, c: pos, hash: Bytes -> Id, model: map<Key, Bytes>, pool: set<Bytes>,
                            key: Key, opts: ReadOptions, now: int)
    requires MemoryOk(m, c, hash, model, pool) && CollisionFree(hash, pool) && key in model
    requires M.Get(m, c, key, opts, now).1.result == PartialHit
    ensures var v := model[key];
      var range := Range(AskedFrom(opts), |Asked(v, opts)|);
      && 0 < range.length && range.offset + range.length <= |v|
      && M.Get(m, c, key, opts, now).1.data
         == FoundPart(c, v, range, ResidentChunks(m.chunks, hash, WantedChunks(c, v, range)))
  {
    var range := MemoryPartialPlan(m, c, hash, model, pool, key, opts, now);
    MemoryAssembled(m, c, hash, pool, model[key], m.descriptors[key], range);
  }

  lemma MemoryPartialPlan<Id>(m: M.State<Id>, c: pos, hash: Bytes -> Id, model: map<Key, Bytes>, pool: set<Bytes>,
                              key: Key, opts: ReadOptions, now: int) returns (range: Range)
    requires MemoryOk(m, c, hash, model, pool) && CollisionFree(hash, pool) && key in model
    requires M.Get(m, c, key, opts, now).1.result == PartialHit
    ensures range == Range(AskedFrom(opts), |Asked(model[key], opts)|)
    ensures 0 < range.length && range.offset + range.length <= |model[key]|
    ensures M.Get(m, c, key, opts, now).1.data
         == AssembleRange(c, true, M.FetchAll(m.chunks, WantedIds(c, m.descriptors[key], range), true).found, range)
  {
    MemoryAnswers(m, c, hash, model, pool, key, opts, now);
    PlanIs(c, m.descriptors[key], opts, now);
    range := PlanRead(m.descriptors[key], opts, now).range;
    ClampIsAsked(model[key], opts, range);
  }

  lemma MemoryAssembled<Id>(m: M.State<Id>, c: pos, hash: Bytes -> Id, pool: set<Bytes>, v: Bytes,
                            desc: Descriptor<Id>, range: Range)
    requires ResidentsOk(m.chunks, hash, pool) && CollisionFree(hash, pool) && ChunksOf(c, v) <= pool
    requires Describes(desc, c, hash, v) && 0 < range.length && range.offset + range.length <= |v| < TWO_64
    ensures AssembleRange(c, true, M.FetchAll(m.chunks, WantedIds(c, desc, range), true).found, range)
         == FoundPart(c, v, range, ResidentChunks(m.chunks, hash, WantedChunks(c, v, range)))
  {
    WantedIdsAreHashes(c, hash, v, desc, range);
    FetchFinds(m.chunks, hash, WantedChunks(c, v, range), pool);
    FetchFaithful(m.chunks, hash, WantedChunks(c, v, range), true, pool);
    var r := M.FetchAll(m.chunks, WantedIds(c, desc, range), true);
    FaithfulIsGenuine(c, v, range, r.found, r.all);
    MemoryGaps(c, v, range, r.found);
  }

  /**
   A partial hit from disk carries the chunks that are there end to end, from where the range starts in the first one if
   that is there, up to the number of bytes asked for.
   */
  lemma DiskPartialIs<Id>(d: D.State<Id>, c: pos, hash: Bytes -> Id, model: map<Key, Bytes>, pool: set<Bytes>, key: Key,
                          opts: ReadOptions, now: int)
    requires DiskOk(d, c, hash, model, pool) && CollisionFree(hash, pool) && key in model
    requires D.Get(d, c, key, opts, now).result == PartialHit
    ensures var v := model[key];
      var range := Range(AskedFrom(opts), |Asked(v, opts)|);
      && 0 < range.length && range.offset + range.length <= |v|
      && D.Get(d, c, key, opts, now).data == FoundLump(c, range, FiledChunks(d, hash, WantedChunks(c, v, range)))
  {
    var range := DiskPartialPlan(d, c, hash, model, pool, key, opts, now);
    DiskAssembled(d, c, hash, pool, model[key], d.descriptors[key], range);
  }

  lemma DiskPartialPlan<Id>(d: D.State<Id>, c: pos, hash: Bytes -> Id, model: map<Key, Bytes>, pool: set<Bytes>,
                            key: Key, opts: ReadOptions, now: int) returns (range: Range)
    requires DiskOk(d, c, hash, model, pool) && CollisionFree(hash, pool) && key in model
    requires D.Get(d, c, key, opts, now).result == PartialHit
    ensures range == Range(AskedFrom(opts), |Asked(model[key], opts)|)
    ensures 0 < range.length && range.offset + range.length <= |model[key]|
    ensures D.Get(d, c, key, opts, now).data
         == AssembleRange(c, false, D.Fetch(d, WantedIds(c, d.descriptors[key], range), true).0, range)
  {
    DiskAnswers(d, c, hash, model, pool, key, opts, now);
    PlanIs(c, d.descriptors[key], opts, now);
    range := PlanRead(d.descriptors[key], opts, now).range;
    ClampIsAsked(model[key], opts, range);
  }

  lemma DiskAssembled<Id>(d: D.State<Id>, c: pos, hash: Bytes -> Id, pool: set<Bytes>, v: Bytes, desc: Descriptor<Id>,
                          range: Range)
    requires FilesOk(d.files, hash, pool) && CollisionFree(hash, pool) && ChunksOf(c, v) <= pool
    requires Describes(desc, c, hash, v) && 0 < range.length && range.offset + range.length <= |v| < TWO_64
    ensures AssembleRange(c, false, D.Fetch(d, WantedIds(c, desc, range), true).0, range)
         == FoundLump(c, range, FiledChunks(d, hash, WantedChunks(c, v, range)))
  {
    WantedIdsAreHashes(c, hash, v, desc, range);
    SplitConcat(c, v);
    ReadFinds(d, hash, WantedChunks(c, v, range), pool);
    ReadFaithful(d, hash, WantedChunks(c, v, range), true, pool);
    var r := D.Fetch(d, WantedIds(c, desc, range), true);
    FaithfulIsGenuine(c, v, range, r.0, r.1);
    DiskGaps(c, v, range, r.0);
  }
}
