/**
 What the memory layer leaves alone. A read keeps every chunk and touches the ones it fetches; removing a key takes the
 chunks it names and no other; a put that fits into free memory takes none. So a value stays in memory, and every read
 of it a hit, while removed keys share no chunk with it and puts fit (`RunStillReadsFromMemory`).
 */
module MemoryKeeps {
  import opened Options
  import opened Bytes
  import opened Chunking
  import opened Reads
  import opened Histories
  import opened CoordinatorSpec
  import opened CoordinatorTheorems
  import opened CoordinatorReads
  import opened CoordinatorKeeps
  import M = MemorySpec
  import A = ArcSpec
  import AT = ArcTheorems
  import R = ArcRemoval

  // ----- reads -----------------------------------------------------------------------------------------------

  lemma {:induction false} FetchKeeps<Id>(chunks: A.State<Id, Bytes>, ids: seq<Id>, allowPartial: bool, id: Id)
    requires A.Inv(chunks)
    ensures var r := M.FetchAll(chunks, ids, allowPartial).chunks;
      && A.Inv(r) && A.Residents(r) == A.Residents(chunks)
      && r.capacity == chunks.capacity && r.current == chunks.current
      && (id in A.Keys(chunks.t2) ==> id in A.Keys(r.t2))
    decreases |ids|
  {
    if ids != [] {
      AT.GetKeeps(chunks, ids[0]);
      GetTouches(chunks, ids[0], id);
      FetchKeeps(A.Get(chunks, ids[0]).0, ids[1..], allowPartial, id);
    }
  }

  /** Fetching leaves in `t2` what it finds: all that is there, or when it insists on all of them, all if all are. */
  lemma {:induction false} FetchTouches<Id>(chunks: A.State<Id, Bytes>, ids: seq<Id>, allowPartial: bool, id: Id)
    requires A.Inv(chunks) && id in ids && A.Contains(chunks, id) && (allowPartial || AllResident(chunks, ids))
    ensures id in A.Keys(M.FetchAll(chunks, ids, allowPartial).chunks.t2)
    decreases |ids|
  {
    var next := A.Get(chunks, ids[0]).0;
    AT.GetKeeps(chunks, ids[0]);
    if ids[0] == id {
      GetTouches(chunks, id, id);
      FetchKeeps(next, ids[1..], allowPartial, id);
    } else {
      SameResidents(chunks, next, id);
      StillResident(chunks, ids[0], ids[1..]);
      FetchTouches(next, ids[1..], allowPartial, id);
    }
  }

  lemma GetTouches<Id>(chunks: A.State<Id, Bytes>, id: Id, other: Id)
    requires A.Inv(chunks)
    ensures var r := A.Get(chunks, id).0;
      && (A.Contains(chunks, id) ==> id in A.Keys(r.t2))
      && (other in A.Keys(chunks.t2) ==> other in A.Keys(r.t2))
      && r.capacity == chunks.capacity && r.current == chunks.current
  {
    var r := A.Get(chunks, id).0;
    if A.Contains(chunks, id) {
      AT.GetPromotes(chunks, id);
      assert A.Keys(r.t2)[0] == id;
    }
    if other in A.Keys(chunks.t2) && other != id { OtherStays(chunks, id, other); }
  }

  lemma OtherStays<Id>(chunks: A.State<Id, Bytes>, id: Id, other: Id)
    requires A.Inv(chunks) && other in A.Keys(chunks.t2) && other != id
    ensures other in A.Keys(A.Get(chunks, id).0.t2)
  {
    var r := A.Get(chunks, id).0;
    var i :| 0 <= i < |chunks.t2| && A.Keys(chunks.t2)[i] == other;
    if id in A.Keys(chunks.t1) {
      assert A.Keys(r.t2)[i + 1] == other;
    } else if id in A.Keys(chunks.t2) {
      var k := A.Position(A.Keys(chunks.t2), id);
      assert A.Keys(r.t2)[if i < k then i + 1 else i] == other;
    }
  }

  /**
   A read keeps every chunk and descriptor, and leaves the chunks it needs and finds in the list of those seen again;
   one that insists on complete data does so when all are there.
   */
  lemma MemoryGetTouches<Id>(m: M.State<Id>, c: pos, key: Key, opts: ReadOptions, now: int, id: Id)
    requires A.Inv(m.chunks)
    ensures var m' := M.Get(m, c, key, opts, now).0;
      && A.Inv(m'.chunks) && A.Residents(m'.chunks) == A.Residents(m.chunks) && m'.descriptors == m.descriptors
      && m'.chunks.capacity == m.chunks.capacity && m'.chunks.current == m.chunks.current
      && (key in m.descriptors && !IsExpired(m.descriptors[key], now) ==>
            var needed := NeededIds(c, m.descriptors[key], opts.range);
            id in needed && A.Contains(m.chunks, id) && (opts.allowPartial || AllResident(m.chunks, needed)) ==>
              id in A.Keys(m'.chunks.t2))
  {
    if key in m.descriptors {
      match PlanRead(m.descriptors[key], opts, now)
      case Answered(_) =>
      case Wanted(range) =>
        var ids := WantedIds(c, m.descriptors[key], range);
        FetchKeeps(m.chunks, ids, opts.allowPartial, id);
        if id in ids && A.Contains(m.chunks, id) && (opts.allowPartial || AllResident(m.chunks, ids)) {
          FetchTouches(m.chunks, ids, opts.allowPartial, id);
        }
    }
  }

  // ----- removing and putting --------------------------------------------------------------------------------

  lemma {:induction false} RemoveChunksTakes<Id>(chunks: A.State<Id, Bytes>, ids: seq<Id>, e: A.Entry<Id, Bytes>)
    requires A.Inv(chunks)
    ensures var r := M.RemoveChunks(chunks, ids);
      && A.Inv(r) && r.capacity == chunks.capacity && r.p == chunks.p
      && (e in A.Residents(r) <==> e in A.Residents(chunks) && e.key !in ids)
    decreases |ids|
  {
    if ids != [] {
      var next := A.Remove(chunks, ids[0]).0;
      AT.RemoveKeepsInv(chunks, ids[0]);
      R.RemoveTakesOnly(chunks, ids[0]);
      RemoveOneTakes(chunks, ids[0], e);
      RemoveChunksTakes(next, ids[1..], e);
      assert e.key in ids <==> e.key == ids[0] || e.key in ids[1..];
    }
  }

  lemma RemoveOneTakes<Id>(chunks: A.State<Id, Bytes>, id: Id, e: A.Entry<Id, Bytes>)
    requires A.Inv(chunks)
    ensures e in A.Residents(A.Remove(chunks, id).0) <==> e in A.Residents(chunks) && e.key != id
  {
    R.RemoveConserves(chunks, id);
    if e in A.Residents(chunks) && e.key == id {
      AT.ResidentIsFound(chunks, e);
      OneOfEach(chunks, e);
    }
  }

  lemma OneOfEach<Id>(chunks: A.State<Id, Bytes>, e: A.Entry<Id, Bytes>)
    requires A.Inv(chunks) && e in A.Residents(chunks)
    ensures A.Residents(chunks)[e] == 1
  {
    A.InvMeans(chunks);
    if e in chunks.t1 {
      OnceInList(chunks.t1, e);
      NotInList(chunks.t2, e);
    } else {
      OnceInList(chunks.t2, e);
    }
  }

  lemma NotInList<Id>(s: seq<A.Entry<Id, Bytes>>, e: A.Entry<Id, Bytes>)
    requires e.key !in A.Keys(s)
    ensures multiset(s)[e] == 0
  {
    assert forall i :: 0 <= i < |s| ==> A.Keys(s)[i] == s[i].key;
  }

  lemma OnceInList<Id>(s: seq<A.Entry<Id, Bytes>>, e: A.Entry<Id, Bytes>)
    requires A.Distinct(A.Keys(s)) && e in s
    ensures multiset(s)[e] == 1 && e.key in A.Keys(s)
  {
    var i :| 0 <= i < |s| && s[i] == e;
    assert A.Keys(s)[i] == e.key;
    A.EraseAtMultiset(s, i);
    var r := A.EraseAt(s, i);
    forall j | 0 <= j < |r| ensures r[j] != e {
      var k := if j < i then j else j + 1;
      assert r[j] == s[k] && A.Keys(s)[k] != A.Keys(s)[i];
    }
  }

  /** Removing a key takes its descriptor and exactly the chunks it names. */
  lemma MemoryRemoveTakes<Id>(m: M.State<Id>, key: Key, e: A.Entry<Id, Bytes>)
    requires A.Inv(m.chunks)
    ensures var m' := M.Remove(m, key).0;
      && A.Inv(m'.chunks) && m'.descriptors == m.descriptors - {key} && m'.chunks.capacity == m.chunks.capacity
      && (e in A.Residents(m'.chunks) <==>
            e in A.Residents(m.chunks) && (key in m.descriptors ==> e.key !in m.descriptors[key].chunks))
  {
    if key in m.descriptors {
      RemoveChunksTakes(m.chunks, m.descriptors[key].chunks, e);
    } else {
      assert m.descriptors - {key} == m.descriptors;
    }
  }

  lemma {:induction false} PutChunksInv<Id>(chunks: A.State<Id, Bytes>, hash: Bytes -> Id, data: seq<Bytes>)
    requires A.Inv(chunks)
    ensures A.Inv(M.PutChunks(chunks, hash, data))
    decreases |data|
  {
    if data != [] {
      AT.PutKeepsInv(chunks, hash(data[0]), data[0], |data[0]|);
      PutChunksInv(A.Put(chunks, hash(data[0]), data[0], |data[0]|).state, hash, data[1..]);
    }
  }

  // ----- what every step leaves in memory --------------------------------------------------------------------

  /** A step that does not touch a value in memory. */
  ghost predicate SparesMemory<Id>(setup: Setup, hash: Bytes -> Id, s: State<Id>, op: Op, key: Key, v: Bytes) {
    s.memory.Some? &&
    match op
    case GetOp(_, _, _, _) => true
    case PutOp(k, value, _, _) =>
      k != key && s.memory.value.chunks.current + |value| <= s.memory.value.chunks.capacity
    case RemoveOp(k) =>
      && k != key
      && (k in s.memory.value.descriptors ==>
            forall id :: id in IdsOf(hash, Split(setup.c, v)) ==> id !in s.memory.value.descriptors[k].chunks)
  }

  ghost predicate InMemory<Id>(setup: Setup, hash: Bytes -> Id, s: State<Id>, key: Key, desc: Descriptor<Id>, v: Bytes)
  {
    && s.memory.Some? && key in s.memory.value.descriptors && s.memory.value.descriptors[key] == desc
    && AllResident(s.memory.value.chunks, IdsOf(hash, Split(setup.c, v))) && A.Inv(s.memory.value.chunks)
  }

  lemma RemoveSpares<Id>(m: M.State<Id>, key: Key, id: Id)
    requires A.Inv(m.chunks) && A.Contains(m.chunks, id)
    requires key in m.descriptors ==> id !in m.descriptors[key].chunks
    ensures A.Contains(M.Remove(m, key).0.chunks, id)
  {
    var e := if id in A.Keys(m.chunks.t1) then A.Find(m.chunks.t1, id) else A.Find(m.chunks.t2, id);
    assert e in A.Residents(m.chunks);
    MemoryRemoveTakes(m, key, e);
    ResidentIsContained(M.Remove(m, key).0.chunks, e);
  }

  lemma StepSparesMemory<Id>(setup: Setup, hash: Bytes -> Id, s: State<Id>, op: Op, key: Key, desc: Descriptor<Id>,
                             v: Bytes)
    requires Timed(setup, op) && s.memory.Some? == setup.memory.Some? && s.disk.Some? == setup.disk.Some?
    requires InMemory(setup, hash, s, key, desc, v) && SparesMemory(setup, hash, s, op, key, v)
    ensures InMemory(setup, hash, Step(setup, hash, s, op), key, desc, v)
  {
    match op
    case PutOp(k, value, ttl, clock) => PutSparesMemory(setup, hash, s, op, key, desc, v);
    case RemoveOp(k) => RemoveSparesMemory(setup, hash, s, k, key, desc, v);
    case GetOp(k, opts, now, later) => GetSparesMemory(setup, hash, s, op, key, desc, v);
  }

  lemma PutSparesMemory<Id>(setup: Setup, hash: Bytes -> Id, s: State<Id>, op: Op, key: Key, desc: Descriptor<Id>,
                            v: Bytes)
    requires Timed(setup, op) && s.memory.Some? == setup.memory.Some? && s.disk.Some? == setup.disk.Some? && op.PutOp?
    requires InMemory(setup, hash, s, key, desc, v) && SparesMemory(setup, hash, s, op, key, v)
    ensures InMemory(setup, hash, Step(setup, hash, s, op), key, desc, v)
  {
    var chunks := s.memory.value.chunks;
    PutAccepted(setup, hash, s, op.key, op.value, op.ttl, op.clock);
    if Accepts(setup, op.key, op.value) {
      PutChunksInv(chunks, hash, Split(setup.c, op.value));
      forall id | id in IdsOf(hash, Split(setup.c, v))
        ensures A.Contains(M.PutChunks(chunks, hash, Split(setup.c, op.value)), id)
      {
        FittingPuts(chunks, setup.c, hash, op.value, id);
      }
    }
  }

  lemma RemoveSparesMemory<Id>(setup: Setup, hash: Bytes -> Id, s: State<Id>, k: Key, key: Key, desc: Descriptor<Id>,
                               v: Bytes)
    requires InMemory(setup, hash, s, key, desc, v) && SparesMemory(setup, hash, s, RemoveOp(k), key, v)
    ensures InMemory(setup, hash, Step(setup, hash, s, RemoveOp(k)), key, desc, v)
  {
    var m := s.memory.value;
    forall id | id in IdsOf(hash, Split(setup.c, v)) ensures A.Contains(M.Remove(m, k).0.chunks, id) {
      RemoveSpares(m, k, id);
    }
    RemoveInv(m, k);
  }

  lemma RemoveInv<Id>(m: M.State<Id>, key: Key)
    requires A.Inv(m.chunks)
    ensures A.Inv(M.Remove(m, key).0.chunks) && M.Remove(m, key).0.descriptors == m.descriptors - {key}
  {
    if key in m.descriptors {
      RemoveChunksInv(m.chunks, m.descriptors[key].chunks);
    } else {
      assert m.descriptors - {key} == m.descriptors;
    }
  }

  lemma {:induction false} RemoveChunksInv<Id>(chunks: A.State<Id, Bytes>, ids: seq<Id>)
    requires A.Inv(chunks)
    ensures A.Inv(M.RemoveChunks(chunks, ids))
    decreases |ids|
  {
    if ids != [] {
      AT.RemoveKeepsInv(chunks, ids[0]);
      RemoveChunksInv(A.Remove(chunks, ids[0]).0, ids[1..]);
    }
  }

  lemma GetSparesMemory<Id>(setup: Setup, hash: Bytes -> Id, s: State<Id>, op: Op, key: Key, desc: Descriptor<Id>,
                            v: Bytes)
    requires op.GetOp? && InMemory(setup, hash, s, key, desc, v)
    ensures InMemory(setup, hash, Step(setup, hash, s, op), key, desc, v)
  {
    var m := s.memory.value;
    var m' := M.Get(m, setup.c, op.key, op.opts, op.now).0;
    forall id | id in IdsOf(hash, Split(setup.c, v)) ensures A.Contains(m'.chunks, id) {
      MemoryGetTouches(m, setup.c, op.key, op.opts, op.now, id);
      SameResidents(m.chunks, m'.chunks, id);
    }
    GetInv(m, setup.c, op.key, op.opts, op.now);
  }

  lemma GetInv<Id>(m: M.State<Id>, c: pos, key: Key, opts: ReadOptions, now: int)
    requires A.Inv(m.chunks)
    ensures A.Inv(M.Get(m, c, key, opts, now).0.chunks) && M.Get(m, c, key, opts, now).0.descriptors == m.descriptors
  {
    if key in m.descriptors {
      match PlanRead(m.descriptors[key], opts, now)
      case Answered(_) =>
      case Wanted(range) => FetchInv(m.chunks, WantedIds(c, m.descriptors[key], range), opts.allowPartial);
    }
  }

  lemma {:induction false} FetchInv<Id>(chunks: A.State<Id, Bytes>, ids: seq<Id>, allowPartial: bool)
    requires A.Inv(chunks)
    ensures A.Inv(M.FetchAll(chunks, ids, allowPartial).chunks)
    decreases |ids|
  {
    if ids != [] {
      AT.GetKeeps(chunks, ids[0]);
      FetchInv(A.Get(chunks, ids[0]).0, ids[1..], allowPartial);
    }
  }

  // ----- over every run --------------------------------------------------------------------------------------

  ghost predicate SparesNextInMemory<Id>(setup: Setup, hash: Bytes -> Id, ops: seq<Op>, op: Op, key: Key, v: Bytes) {
    AllTimed(setup, ops) && Timed(setup, op) && SparesMemory(setup, hash, Run(setup, hash, ops), op, key, v)
  }

  /** None of the later steps touches the value in memory. */
  ghost predicate AllSpareMemory<Id>(setup: Setup, hash: Bytes -> Id, ops: seq<Op>, later: seq<Op>, key: Key, v: Bytes)
  {
    forall i :: 0 <= i < |later| ==> SparesNextInMemory(setup, hash, ops + later[..i], later[i], key, v)
  }

  ghost predicate InMemoryAfter<Id>(setup: Setup, hash: Bytes -> Id, ops: seq<Op>, key: Key, desc: Descriptor<Id>,
                                    v: Bytes) {
    AllTimed(setup, ops) && InMemory(setup, hash, Run(setup, hash, ops), key, desc, v)
  }

  lemma InMemoryAfterOne<Id>(setup: Setup, hash: Bytes -> Id, ops: seq<Op>, op: Op, key: Key, desc: Descriptor<Id>,
                             v: Bytes)
    requires InMemoryAfter(setup, hash, ops, key, desc, v) && SparesNextInMemory(setup, hash, ops, op, key, v)
    ensures InMemoryAfter(setup, hash, ops + [op], key, desc, v)
  {
    assert (ops + [op])[..|ops|] == ops && (ops + [op])[|ops|] == op;
    RunKept(setup, hash, ops);
    StepSparesMemory(setup, hash, Run(setup, hash, ops), op, key, desc, v);
  }

  lemma StaysInMemory<Id>(setup: Setup, hash: Bytes -> Id, ops: seq<Op>, later: seq<Op>, key: Key,
                          desc: Descriptor<Id>, v: Bytes)
    requires InMemoryAfter(setup, hash, ops, key, desc, v) && AllSpareMemory(setup, hash, ops, later, key, v)
    ensures InMemoryAfter(setup, hash, ops + later, key, desc, v)
  {
    var good := (xs: seq<Op>) => InMemoryAfter(setup, hash, xs, key, desc, v);
    var spares := (xs: seq<Op>, x: Op) => SparesNextInMemory(setup, hash, xs, x, key, v);
    forall xs: seq<Op>, x: Op | good(xs) && spares(xs, x) ensures good(xs + [x]) {
      InMemoryAfterOne(setup, hash, xs, x, key, desc, v);
    }
    Extended(good, spares, ops, later);
  }

  /**
   With a memory layer that is asked first, in every run: after an accepted put that leaves the whole value in memory,
   and later steps that do not touch it there, every read before it expires is a hit with the bytes asked for, unless
   the range is an empty part of the inside of the value. No disk is needed.
   */
  lemma RunStillReadsFromMemory<Id>(setup: Setup, hash: Bytes -> Id, before: seq<Op>, put: Op, later: seq<Op>,
                                    opts: ReadOptions, now: int, diskNow: int)
    requires AllTimed(setup, before + [put] + later) && CollisionFree(hash, Pool(setup, before + [put] + later))
    requires put.PutOp? && Accepts(setup, put.key, put.value) && setup.memory.Some? && setup.preferLocal
    requires InMemoryAfter(setup, hash, before + [put], put.key,
                           Describe(setup.c, hash, put.value, Expiry(put.clock.memory, put.ttl)), put.value)
    requires AllSpareMemory(setup, hash, before + [put], later, put.key, put.value)
    requires put.ttl.Some? ==> now < put.clock.memory + put.ttl.value
    ensures var r := Get(Run(setup, hash, before + [put] + later), setup.c, true, put.key, opts, now, diskNow).1;
            && (r.result == Hit <==> Readable(opts.range, |put.value|))
            && (r.result == Hit ==> r.data == Asked(put.value, opts))
  {
    StaysInMemory(setup, hash, before + [put], later, put.key,
                  Describe(setup.c, hash, put.value, Expiry(put.clock.memory, put.ttl)), put.value);
    assert forall i :: 0 <= i < |later| && !later[i].GetOp? ==> later[i].key != put.key;
    MapStands(setup, before + [put], later, put.key);
    PutMapped(setup, before, put);
    InMemoryIsRead(setup, hash, before + [put] + later, put.key, put.value, Expiry(put.clock.memory, put.ttl), opts,
                   now, diskNow);
  }

  lemma InMemoryIsRead<Id>(setup: Setup, hash: Bytes -> Id, ops: seq<Op>, key: Key, v: Bytes, expiry: Option<int>,
                           opts: ReadOptions, now: int, diskNow: int)
    requires AllTimed(setup, ops) && CollisionFree(hash, Pool(setup, ops)) && setup.memory.Some? && setup.preferLocal
    requires InMemory(setup, hash, Run(setup, hash, ops), key, Describe(setup.c, hash, v, expiry), v)
    requires (expiry.Some? ==> now < expiry.value) && key in MapAfter(setup, ops) && MapAfter(setup, ops)[key] == v
    ensures var r := Get(Run(setup, hash, ops), setup.c, true, key, opts, now, diskNow).1;
            && (r.result == Hit <==> Readable(opts.range, |v|))
            && (r.result == Hit ==> r.data == Asked(v, opts))
  {
    var s, model, pool := Run(setup, hash, ops), MapAfter(setup, ops), Pool(setup, ops);
    RunCoherent(setup, hash, ops);
    GetCoherent(setup, hash, s, model, pool, key, opts, now, diskNow);
    MemoryHitsIff(s.memory.value, setup.c, hash, model, pool, key, opts, now);
    NeededAreOwn(setup.c, s.memory.value.descriptors[key], opts.range);
    if s.disk.Some? { DiskHitsIff(s.disk.value, setup.c, hash, model, pool, key, opts, diskNow); }
  }

  lemma NeededAreOwn<Id>(c: pos, desc: Descriptor<Id>, range: Option<Range>)
    ensures forall id :: id in NeededIds(c, desc, range) ==> id in desc.chunks
  {
  }

  /**
   Without a disk, a read is what memory answers: a hit exactly when memory is asked first and answers with one. So one
   right after a put hits exactly when the put left every chunk the range needs.
   */
  lemma MemoryOnlyHitsIff<Id>(setup: Setup, hash: Bytes -> Id, s: State<Id>, model: map<Key, Bytes>, pool: set<Bytes>,
                              key: Key, opts: ReadOptions, now: int, diskNow: int)
    requires Coherent(setup, hash, s, model, pool) && CollisionFree(hash, pool) && key in model && setup.disk.None?
    ensures Get(s, setup.c, setup.preferLocal, key, opts, now, diskNow).1.result == Hit
       <==> && setup.memory.Some? && setup.preferLocal
            && !IsExpired(s.memory.value.descriptors[key], now) && Readable(opts.range, |model[key]|)
            && AllResident(s.memory.value.chunks, NeededIds(setup.c, s.memory.value.descriptors[key], opts.range))
  {
    if s.memory.Some? { MemoryHitsIff(s.memory.value, setup.c, hash, model, pool, key, opts, now); }
  }

  /** A put that fits into free memory leaves the whole value there. */
  lemma FittingPutStays<Id>(setup: Setup, hash: Bytes -> Id, s: State<Id>, put: Op)
    requires Timed(setup, put) && put.PutOp? && Accepts(setup, put.key, put.value) && setup.memory.Some?
    requires s.memory.Some? == setup.memory.Some? && s.disk.Some? == setup.disk.Some? && A.Inv(s.memory.value.chunks)
    requires s.memory.value.chunks.current + |put.value| <= s.memory.value.chunks.capacity
    ensures InMemory(setup, hash, Step(setup, hash, s, put), put.key,
                     Describe(setup.c, hash, put.value, Expiry(put.clock.memory, put.ttl)), put.value)
  {
    var chunks := s.memory.value.chunks;
    PutAccepted(setup, hash, s, put.key, put.value, put.ttl, put.clock);
    PutChunksInv(chunks, hash, Split(setup.c, put.value));
    forall id | id in IdsOf(hash, Split(setup.c, put.value))
      ensures A.Contains(M.PutChunks(chunks, hash, Split(setup.c, put.value)), id)
    {
      FittingPuts(chunks, setup.c, hash, put.value, id);
    }
  }
}
