/** The memory cache object. `Model()` is its value; every method is proved against the function of MemorySpec. */
module MemoryCaches {
  import opened Options
  import opened Bytes
  import opened Chunking
  import opened Assembly
  import opened Reads
  import opened ArcCaches
  import A = ArcSpec
  import S = MemorySpec

  function ChunkSize(chunk: Bytes): nat { |chunk| }

  class MemoryCache<Id(==)> {
    const c: pos
    const hash: Bytes -> Id
    const chunkCache: ArcCache<Id, Bytes>
    var descriptors: map<Key, Descriptor<Id>>

    ghost const Repr: set<object> := {this} + chunkCache.Repr

    ghost function Model(): S.State<Id>
      reads Repr
    {
      S.State(chunkCache.Model(), descriptors)
    }

    ghost predicate Valid()
      reads Repr
    {
      chunkCache.Valid() && chunkCache.sizeOf == ChunkSize
    }

    constructor (capacity: nat, c: pos, hash: Bytes -> Id)
      ensures Valid() && fresh(Repr) && Model() == S.Empty(capacity) && this.c == c && this.hash == hash
    {
      this.c := c;
      this.hash := hash;
      chunkCache := new ArcCache(capacity, ChunkSize);
      descriptors := map[];
    }

    method StoreChunk(chunk: Bytes) returns (id: Id)
      requires Valid()
      modifies Repr
      ensures Valid() && descriptors == old(descriptors) && id == hash(chunk)
      ensures chunkCache.Model() == A.Put(old(chunkCache.Model()), id, chunk, |chunk|).state
    {
      id := hash(chunk);
      var _ := chunkCache.Put(id, chunk);
    }

    method StoreChunks(data: seq<Bytes>) returns (ids: seq<Id>)
      requires Valid()
      modifies Repr
      ensures Valid() && descriptors == old(descriptors)
      ensures chunkCache.Model() == S.PutChunks(old(chunkCache.Model()), hash, data) && ids == IdsOf(hash, data)
    {
      ids := [];
      ghost var goal, all := S.PutChunks(chunkCache.Model(), hash, data), IdsOf(hash, data);
      var rest := data;
      assert [] + all == all;
      while rest != []
        invariant Valid() && descriptors == old(descriptors)
        invariant goal == S.PutChunks(chunkCache.Model(), hash, rest)
        invariant all == ids + IdsOf(hash, rest)
      {
        StoreUnfolds(chunkCache.Model(), hash, rest);
        AppendOne(ids, hash(rest[0]), IdsOf(hash, rest[1..]));
        var id := StoreChunk(rest[0]);
        ids := ids + [id];
        rest := rest[1..];
      }
      assert ids + [] == ids;
    }

    method Put(key: Key, value: Bytes, expiresAt: Option<int>) returns (status: Status)
      requires Valid()
      modifies Repr
      ensures Valid()
      ensures Model() == S.Put(old(Model()), c, hash, key, value, expiresAt).0
      ensures status == S.Put(old(Model()), c, hash, key, value, expiresAt).1
    {
      if |key| > MAX_KEY_SIZE {
        return Error(KeyTooLarge);
      }
      if |value| > MAX_VALUE_SIZE {
        return Error(ValueTooLarge);
      }
      var chunks := SplitValue(c, value);
      var ids := StoreChunks(chunks);
      descriptors := descriptors[key := Descriptor(|value|, ids, expiresAt)];
      status := Ok;
    }

    method Remove(key: Key) returns (status: Status)
      requires Valid()
      modifies Repr
      ensures Valid()
      ensures Model() == S.Remove(old(Model()), key).0 && status == S.Remove(old(Model()), key).1
    {
      if key !in descriptors {
        return Error(NotFound);
      }
      var ids := descriptors[key].chunks;
      assert ids[0..] == ids;
      for i := 0 to |ids|
        invariant Valid() && descriptors == old(descriptors)
        invariant S.RemoveChunks(old(chunkCache.Model()), ids) == S.RemoveChunks(chunkCache.Model(), ids[i..])
      {
        assert ids[i..][1..] == ids[i + 1..];
        var _ := chunkCache.Remove(ids[i]);
      }
      descriptors := descriptors - {key};
      status := Ok;
    }

    /** Fetch the first of some chunks; `goal` is the whole fetch, of which `found` is done. */
    method FetchNext(ids: seq<Id>, allowPartial: bool, ghost goal: S.Fetch<Id>, ghost found: seq<Option<Bytes>>,
                     ghost allFound: bool) returns (chunk: Option<Bytes>)
      requires Valid() && ids != []
      requires Remains(goal, found, allFound, S.FetchAll(chunkCache.Model(), ids, allowPartial))
      modifies Repr
      ensures Valid() && descriptors == old(descriptors)
      ensures if chunk.None? && !allowPartial then goal == S.Fetch(chunkCache.Model(), found, false)
              else Remains(goal, found + [chunk], allFound && chunk.Some?,
                           S.FetchAll(chunkCache.Model(), ids[1..], allowPartial))
    {
      FetchUnfolds(goal, found, allFound, chunkCache.Model(), ids, allowPartial);
      chunk := chunkCache.Get(ids[0]);
    }

    method FetchChunks(ids: seq<Id>, allowPartial: bool) returns (chunks: seq<Option<Bytes>>, allFound: bool)
      requires Valid()
      modifies Repr
      ensures Valid() && descriptors == old(descriptors)
      ensures S.Fetch(chunkCache.Model(), chunks, allFound) == S.FetchAll(old(chunkCache.Model()), ids, allowPartial)
    {
      chunks := [];
      allFound := true;
      ghost var goal := S.FetchAll(chunkCache.Model(), ids, allowPartial);
      assert [] + goal.found == goal.found;
      var rest := ids;
      while rest != []
        invariant Valid() && descriptors == old(descriptors)
        invariant Remains(goal, chunks, allFound, S.FetchAll(chunkCache.Model(), rest, allowPartial))
      {
        var chunk := FetchNext(rest, allowPartial, goal, chunks, allFound);
        if chunk.None? {
          allFound := false;
          if !allowPartial {
            return;
          }
        }
        chunks := chunks + [chunk];
        rest := rest[1..];
      }
      assert chunks + [] == chunks;
    }

    method Get(key: Key, opts: ReadOptions, now: int) returns (r: ReadResult)
      requires Valid()
      modifies Repr
      ensures Valid()
      ensures Model() == S.Get(old(Model()), c, key, opts, now).0 && r == S.Get(old(Model()), c, key, opts, now).1
    {
      if key !in descriptors {
        return MISSED;
      }
      var desc := descriptors[key];
      match PlanRead(desc, opts, now)
      case Answered(answer) =>
        r := answer;
      case Wanted(range) =>
        var chunks, allFound := FetchChunks(WantedIds(c, desc, range), opts.allowPartial);
        if chunks == [] || (!allFound && !opts.allowPartial) {
          return MISSED;
        }
        var data := AssembleChunks(c, true, chunks, range);
        r := ReadResult(if allFound && |data| == range.length then Hit else PartialHit, data,
                        Range(range.offset, |data|));
    }
  }

  lemma StoreUnfolds<Id>(chunks: A.State<Id, Bytes>, hash: Bytes -> Id, data: seq<Bytes>)
    requires data != []
    ensures IdsOf(hash, data) == [hash(data[0])] + IdsOf(hash, data[1..])
    ensures S.PutChunks(chunks, hash, data)
         == S.PutChunks(A.Put(chunks, hash(data[0]), data[0], |data[0]|).state, hash, data[1..])
  {
  }

  /** The whole fetch is what is done so far, followed by the rest. */
  ghost predicate Remains<Id>(goal: S.Fetch<Id>, chunks: seq<Option<Bytes>>, allFound: bool, rest: S.Fetch<Id>) {
    goal == S.Fetch(rest.chunks, chunks + rest.found, allFound && rest.all)
  }

  lemma FetchUnfolds<Id>(goal: S.Fetch<Id>, found: seq<Option<Bytes>>, allFound: bool, chunks: A.State<Id, Bytes>,
                         ids: seq<Id>, allowPartial: bool)
    requires ids != [] && Remains(goal, found, allFound, S.FetchAll(chunks, ids, allowPartial))
    ensures var got := A.Get(chunks, ids[0]);
            var rest := S.FetchAll(got.0, ids[1..], allowPartial);
            if got.1.None? && !allowPartial then goal == S.Fetch(got.0, found, false)
            else Remains(goal, found + [got.1], allFound && got.1.Some?, rest)
  {
    var got := A.Get(chunks, ids[0]);
    AppendOne(found, got.1, S.FetchAll(got.0, ids[1..], allowPartial).found);
    assert found + [] == found;
  }
}
