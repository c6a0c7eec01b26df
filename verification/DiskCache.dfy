/** The disk cache object. `Model()` is its value; every method is proved against the function of DiskSpec. */
module DiskCaches {
  import opened Options
  import opened Bytes
  import opened Chunking
  import opened Assembly
  import opened Reads
  import S = DiskSpec

  class DiskCache<Id(==)> {
    const config: S.Config
    const c: pos
    const hash: Bytes -> Id
    var descriptors: map<Key, Descriptor<Id>>
    var index: set<Id>
    var access: seq<S.Access<Id>>
    var currentSize: int
    var files: map<Id, Bytes>

    ghost function Model(): S.State<Id>
      reads this
    {
      S.State(config, descriptors, index, access, currentSize, files)
    }

    constructor (config: S.Config, c: pos, hash: Bytes -> Id)
      ensures Model() == S.Empty(config) && this.c == c && this.hash == hash
    {
      this.config := config;
      this.c := c;
      this.hash := hash;
      descriptors := map[];
      index := {};
      access := [];
      currentSize := 0;
      files := map[];
    }

    // ----- chunks --------------------------------------------------------------------------------------------

    method PutChunk(id: Id, data: Bytes, time: int)
      modifies this
      ensures Model() == S.PutChunk(old(Model()), id, data, time)
    {
      files := files[id := data];
      index := index + {id};
      currentSize := currentSize + |data|;
      access := S.Insert(access, S.Access(id, time, |data|));
    }

    /** The oldest entry of a chunk, if it has one. */
    static method FindAccess(access: seq<S.Access<Id>>, id: Id) returns (i: nat)
      ensures i <= |access|
      ensures i < |access| ==> S.Drop(access, id) == access[..i] + access[i + 1..]
      ensures i < |access| ==> S.OldestSize(access, id) == access[i].size
      ensures i == |access| ==> S.Drop(access, id) == access && S.OldestSize(access, id) == 0
    {
      i := 0;
      assert access[0..] == access;
      while i < |access| && access[i].id != id
        invariant 0 <= i <= |access|
        invariant S.Drop(access, id) == access[..i] + S.Drop(access[i..], id)
        invariant S.OldestSize(access, id) == S.OldestSize(access[i..], id)
      {
        DropUnfolds(access, i, id);
        i := i + 1;
      }
      if i < |access| {
        assert access[i..][1..] == access[i + 1..];
      } else {
        assert access[i..] == [] && access[..i] == access;
      }
    }

    method RemoveChunk(id: Id)
      modifies this
      ensures Model() == S.RemoveChunk(old(Model()), id)
    {
      if id in index {
        var i := FindAccess(access, id);
        if i < |access| {
          currentSize := currentSize - access[i].size;
          access := access[..i] + access[i + 1..];
        }
        index := index - {id};
      }
      files := files - {id};
    }

    method GetChunk(id: Id) returns (chunk: Option<Bytes>)
      ensures chunk == S.GetChunk(Model(), id)
    {
      if id in files && files[id] != [] {
        chunk := Some(files[id]);
      } else {
        chunk := None;
      }
    }

    // ----- eviction ------------------------------------------------------------------------------------------

    method EvictOldest() returns (size: nat)
      requires access != []
      modifies this
      ensures Model() == S.EvictOldest(old(Model())) && size == old(access)[0].size
    {
      var e := access[0];
      size := e.size;
      access := access[1..];
      index := index - {e.id};
      currentSize := currentSize - size;
      files := files - {e.id};
    }

    method Evict(needed: nat) returns (evicted: nat)
      modifies this
      ensures (Model(), evicted) == S.Evict(old(Model()), needed, 0)
    {
      evicted := 0;
      var target := S.Target(config);
      while currentSize > target || evicted < needed
        invariant S.Evict(old(Model()), needed, 0) == S.Evict(Model(), needed, evicted)
        decreases |access|
      {
        if access == [] {
          break;
        }
        var size := EvictOldest();
        evicted := evicted + size;
      }
    }

    // ----- values --------------------------------------------------------------------------------------------

    method MakeRoom(needed: nat)
      modifies this
      ensures Model() == S.MakeRoom(old(Model()), needed)
    {
      if (currentSize + needed) as real > config.maxSize as real * config.high {
        var _ := Evict(needed);
      }
    }

    method StoreChunks(value: Bytes, clock: seq<int>) returns (ids: seq<Id>)
      requires |clock| == |Split(c, value)|
      modifies this
      ensures Model() == S.PutChunks(old(Model()), hash, Split(c, value), clock)
      ensures ids == IdsOf(hash, Split(c, value))
    {
      ids := [];
      var offset, times := 0, clock;
      ghost var chunks := Split(c, value);
      ghost var goal, all := S.PutChunks(Model(), hash, chunks, clock), IdsOf(hash, chunks);
      assert value[0..] == value && [] + all == all;
      while offset < |value|
        invariant 0 <= offset <= |value| && chunks == Split(c, value[offset..]) && |times| == |chunks|
        invariant all == ids + IdsOf(hash, chunks)
        invariant goal == S.PutChunks(Model(), hash, chunks, times)
      {
        var data := NextChunk(c, value, offset);
        StoreUnfolds(Model(), hash, chunks, times);
        AppendOne(ids, hash(data), IdsOf(hash, chunks[1..]));
        var id := hash(data);
        ids := ids + [id];
        PutChunk(id, data, times[0]);
        times := times[1..];
        chunks := chunks[1..];
        offset := offset + |data|;
      }
      assert value[offset..] == [] && ids + [] == ids;
    }

    method Put(key: Key, value: Bytes, expiresAt: Option<int>, clock: seq<int>) returns (status: Status)
      requires |clock| == |Split(c, value)|
      modifies this
      ensures Model() == S.Put(old(Model()), c, hash, key, value, expiresAt, clock).0
      ensures status == S.Put(old(Model()), c, hash, key, value, expiresAt, clock).1
    {
      if |key| > MAX_KEY_SIZE {
        return Error(KeyTooLarge);
      }
      MakeRoom(|value|);
      var ids := StoreChunks(value, clock);
      descriptors := descriptors[key := Descriptor(|value|, ids, expiresAt)];
      status := Ok;
    }

    method Remove(key: Key) returns (status: Status)
      modifies this
      ensures (Model(), status) == S.Remove(old(Model()), key)
    {
      if key !in descriptors {
        return Error(NotFound);
      }
      var ids := descriptors[key].chunks;
      for i := 0 to |ids|
        invariant S.RemoveChunks(old(Model()), ids) == S.RemoveChunks(Model(), ids[i..])
      {
        assert ids[i..][1..] == ids[i + 1..];
        RemoveChunk(ids[i]);
      }
      descriptors := descriptors - {key};
      status := Ok;
    }

    method Fetch(ids: seq<Id>, allowPartial: bool) returns (chunks: seq<Option<Bytes>>, allFound: bool)
      ensures (chunks, allFound) == S.Fetch(Model(), ids, allowPartial)
    {
      chunks := [];
      allFound := true;
      var i := 0;
      ghost var all := S.Fetch(Model(), ids, allowPartial).0;
      assert ids[0..] == ids && [] + all == all;
      while i < |ids|
        invariant 0 <= i <= |ids|
        invariant var rest := S.Fetch(Model(), ids[i..], allowPartial);
                  S.Fetch(Model(), ids, allowPartial) == (chunks + rest.0, allFound && rest.1)
      {
        assert ids[i..][1..] == ids[i + 1..];
        var chunk := GetChunk(ids[i]);
        if chunk.None? {
          allFound := false;
          if !allowPartial {
            assert chunks + [] == chunks;
            return;
          }
        }
        AppendOne(chunks, chunk, S.Fetch(Model(), ids[i + 1..], allowPartial).0);
        chunks := chunks + [chunk];
        i := i + 1;
      }
      assert chunks + [] == chunks;
    }

    method Get(key: Key, opts: ReadOptions, now: int) returns (r: ReadResult)
      ensures r == S.Get(Model(), c, key, opts, now)
    {
      if key !in descriptors {
        return MISSED;
      }
      var desc := descriptors[key];
      match PlanRead(desc, opts, now)
      case Answered(answer) =>
        r := answer;
      case Wanted(range) =>
        var chunks, allFound := Fetch(WantedIds(c, desc, range), opts.allowPartial);
        if chunks == [] || (!allFound && !opts.allowPartial) {
          return MISSED;
        }
        var data := AssembleChunks(c, false, chunks, range);
        r := ReadResult(if allFound && |data| == range.length then Hit else PartialHit, data,
                        Range(range.offset, |data|));
    }
  }

  lemma DropUnfolds<Id>(s: seq<S.Access<Id>>, i: nat, id: Id)
    requires i < |s| && s[i].id != id
    ensures s[..i] + S.Drop(s[i..], id) == s[..i + 1] + S.Drop(s[i + 1..], id)
    ensures S.OldestSize(s[i..], id) == S.OldestSize(s[i + 1..], id)
  {
    assert s[i..][1..] == s[i + 1..] && s[..i + 1] == s[..i] + [s[i]];
  }

  lemma StoreUnfolds<Id>(d: S.State<Id>, hash: Bytes -> Id, chunks: seq<Bytes>, times: seq<int>)
    requires chunks != [] && |times| == |chunks|
    ensures IdsOf(hash, chunks) == [hash(chunks[0])] + IdsOf(hash, chunks[1..])
    ensures S.PutChunks(d, hash, chunks, times)
         == S.PutChunks(S.PutChunk(d, hash(chunks[0]), chunks[0], times[0]), hash, chunks[1..], times[1..])
  {
  }
}
