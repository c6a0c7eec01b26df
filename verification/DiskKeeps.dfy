/**
 What the disk operations leave alone. A put below the high watermark takes nothing; above it, it takes exactly the
 oldest entries that bring the counter to the low watermark and free the value's size (`PutTakes`). Removing a chunk
 takes its file and its oldest entry and nothing else (`RemoveChunkTakes`).
 */
module DiskKeeps {
  import opened Options
  import opened Bytes
  import opened Chunking
  import opened Reads
  import opened DiskSpec
  import opened DiskTheorems

  // ----- making room -----------------------------------------------------------------------------------------

  /** Below the high watermark with the value on top. */
  ghost predicate Roomy<Id>(d: State<Id>, needed: nat) {
    (d.current + needed) as real <= d.config.maxSize as real * d.config.high
  }

  /** Taking the oldest entries is enough: the counter is at the low watermark, and the value's size is free. */
  ghost predicate Enough<Id>(d: State<Id>, needed: nat, n: nat)
    requires n <= |d.access|
  {
    && d.current - Sum(d.access[..n]) <= (d.config.maxSize as real * d.config.low).Floor
    && Sum(d.access[..n]) >= needed
  }

  /** The oldest entries are gone, with the files of their chunks. */
  ghost predicate Taken<Id>(d: State<Id>, r: State<Id>, n: nat) {
    && n <= |d.access| && r.access == d.access[n..] && r.current == d.current - Sum(d.access[..n])
    && r.files.Keys == (set id | id in d.files && !Listed(d.access[..n], id))
    && (forall id :: id in r.files ==> r.files[id] == d.files[id])
    && r.index == (set id | id in d.index && !Listed(d.access[..n], id))
    && r.descriptors == d.descriptors && r.config == d.config
  }

  lemma TakenOneMore<Id>(d: State<Id>, r: State<Id>, n: nat)
    requires d.access != [] && Taken(EvictOldest(d), r, n)
    ensures Taken(d, r, n + 1)
  {
    var d', e := EvictOldest(d), d.access[0];
    assert d.access[n + 1..] == d'.access[n..];
    assert d.access[..n + 1][1..] == d'.access[..n];
    forall id ensures Listed(d.access[..n + 1], id) <==> id == e.id || Listed(d'.access[..n], id) {
      ListedFirst(d.access[..n + 1], id);
    }
  }

  lemma ListedFirst<Id>(s: seq<Access<Id>>, id: Id)
    requires s != []
    ensures Listed(s, id) <==> s[0].id == id || Listed(s[1..], id)
  {
    if Listed(s, id) {
      var i :| 0 <= i < |s| && s[i].id == id;
      assert i > 0 ==> s[1..][i - 1].id == id;
    }
    if Listed(s[1..], id) {
      var i :| 0 <= i < |s[1..]| && s[1..][i].id == id;
      assert s[i + 1].id == id;
    }
  }

  lemma {:induction false} EvictTakes<Id>(d: State<Id>, needed: nat, evicted: nat) returns (n: nat)
    ensures Taken(d, Evict(d, needed, evicted).0, n)
    decreases |d.access|
  {
    if MustEvict(d, needed, evicted) {
      n := EvictTakes(EvictOldest(d), needed, evicted + d.access[0].size);
      TakenOneMore(d, Evict(d, needed, evicted).0, n);
      n := n + 1;
    } else {
      n := 0;
    }
  }

  /** Nothing is taken below the high watermark; above it, the fewest oldest entries that are enough, or all. */
  lemma MakeRoomTakes<Id>(d: State<Id>, needed: nat) returns (n: nat)
    ensures Taken(d, MakeRoom(d, needed), n)
    ensures Roomy(d, needed) ==> n == 0
    ensures !Roomy(d, needed) ==>
      (Enough(d, needed, n) || n == |d.access|) && forall m :: 0 <= m < n ==> !Enough(d, needed, m)
  {
    if Roomy(d, needed) {
      n := 0;
    } else {
      n := EvictTakes(d, needed, 0);
      var k := EvictTakesOldest(d, needed, 0);
      assert |d.access[n..]| == |d.access[k..]|;
      assert n == k;
    }
  }

  ghost function AsSet<Id>(ids: seq<Id>): set<Id> { set id | id in ids }

  /** The same files as before, as far as they are there. */
  ghost predicate Unaltered<Id>(after: map<Id, Bytes>, before: map<Id, Bytes>, ids: set<Id>) {
    forall id :: id in ids ==> id in after && id in before && after[id] == before[id]
  }

  // ----- storing ---------------------------------------------------------------------------------------------

  lemma {:induction false} StoreAdds<Id>(d: State<Id>, hash: Bytes -> Id, chunks: seq<Bytes>, clock: seq<int>)
    requires |clock| == |chunks| && Ordered(d.access)
    ensures var r := PutChunks(d, hash, chunks, clock);
      && r.files.Keys == d.files.Keys + AsSet(IdsOf(hash, chunks))
      && Unaltered(r.files, d.files, d.files.Keys - AsSet(IdsOf(hash, chunks)))
      && (forall e :: e in d.access ==> e in r.access)
      && r.descriptors == d.descriptors && r.config == d.config
    decreases |chunks|
  {
    if chunks != [] {
      var next := PutChunk(d, hash(chunks[0]), chunks[0], clock[0]);
      InsertEffect(d.access, Access(hash(chunks[0]), clock[0], |chunks[0]|));
      StoreAdds(next, hash, chunks[1..], clock[1..]);
      assert IdsOf(hash, chunks) == [hash(chunks[0])] + IdsOf(hash, chunks[1..]);
    }
  }

  /**
   A put takes nothing below the high watermark, and above it the fewest oldest entries that are enough; every other
   file and entry stays, and the value's chunks are added.
   */
  lemma PutTakes<Id>(d: State<Id>, c: pos, hash: Bytes -> Id, key: Key, value: Bytes, expiresAt: Option<int>,
                     clock: seq<int>) returns (n: nat)
    requires |key| <= MAX_KEY_SIZE && |clock| == |Split(c, value)| && Ordered(d.access)
    ensures n <= |d.access| && (Roomy(d, |value|) ==> n == 0)
    ensures !Roomy(d, |value|) ==>
      (Enough(d, |value|, n) || n == |d.access|) && forall m :: 0 <= m < n ==> !Enough(d, |value|, m)
    ensures var r, ids := Put(d, c, hash, key, value, expiresAt, clock).0, IdsOf(hash, Split(c, value));
      && r.files.Keys == AsSet(ids) + (set id | id in d.files && !Listed(d.access[..n], id))
      && Unaltered(r.files, d.files, r.files.Keys - AsSet(ids))
      && (forall i :: n <= i < |d.access| ==> d.access[i] in r.access)
      && r.descriptors == d.descriptors[key := Describe(c, hash, value, expiresAt)]
  {
    n := MakeRoomTakes(d, |value|);
    var room := MakeRoom(d, |value|);
    StoreAdds(room, hash, Split(c, value), clock);
    assert forall i :: n <= i < |d.access| ==> d.access[i] == room.access[i - n];
    assert d.access[..0] == [];
  }

  // ----- removing --------------------------------------------------------------------------------------------

  /** The oldest entry of a chunk is gone, and no other. */
  ghost predicate OldestDropped<Id>(s: seq<Access<Id>>, r: seq<Access<Id>>, id: Id) {
    exists k :: 0 <= k < |s| && s[k].id == id && (forall j :: 0 <= j < k ==> s[j].id != id) && r == s[..k] + s[k + 1..]
  }

  lemma {:induction false} DropTakesOldest<Id>(s: seq<Access<Id>>, id: Id)
    ensures if Listed(s, id) then OldestDropped(s, Drop(s, id), id) else Drop(s, id) == s
  {
    if s != [] {
      ListedFirst(s, id);
      if s[0].id == id {
        assert s[..0] + s[1..] == s[1..];
      } else {
        DropTakesOldest(s[1..], id);
        if Listed(s[1..], id) { DroppedLater(s, Drop(s[1..], id), id); }
      }
    }
  }

  lemma DroppedLater<Id>(s: seq<Access<Id>>, r: seq<Access<Id>>, id: Id)
    requires s != [] && s[0].id != id && OldestDropped(s[1..], r, id)
    ensures OldestDropped(s, [s[0]] + r, id)
  {
    var t := s[1..];
    var k :| 0 <= k < |t| && t[k].id == id && (forall j :: 0 <= j < k ==> t[j].id != id) && r == t[..k] + t[k + 1..];
    SplitLater(s, k);
    assert s[k + 1].id == id;
    forall j | 0 <= j < k + 1 ensures s[j].id != id {
      assert j > 0 ==> s[j] == t[j - 1];
    }
  }

  lemma SplitLater<T>(s: seq<T>, k: nat)
    requires k + 1 < |s|
    ensures var t := s[1..]; [s[0]] + (t[..k] + t[k + 1..]) == s[..k + 1] + s[k + 2..]
  {
    var t := s[1..];
    assert [s[0]] + t[..k] == s[..k + 1];
    assert t[k + 1..] == s[k + 2..];
  }

  /** Removing a chunk takes its file, and of an indexed one the oldest entry; everything else stays as it is. */
  lemma RemoveChunkTakes<Id>(d: State<Id>, id: Id)
    ensures var r := RemoveChunk(d, id);
      && r.files.Keys == d.files.Keys - {id} && Unaltered(r.files, d.files, r.files.Keys)
      && r.index == d.index - {id}
      && (if id in d.index && Listed(d.access, id) then OldestDropped(d.access, r.access, id) else r.access == d.access)
      && r.descriptors == d.descriptors && r.config == d.config
  {
    DropTakesOldest(d.access, id);
  }

  /** Removing chunks leaves the files of all others. */
  lemma {:induction false} RemoveChunksTakes<Id>(d: State<Id>, ids: seq<Id>)
    ensures var r := RemoveChunks(d, ids);
      && r.files.Keys == d.files.Keys - AsSet(ids) && Unaltered(r.files, d.files, r.files.Keys)
      && (forall e :: e in d.access && e.id !in ids ==> e in r.access)
      && r.descriptors == d.descriptors && r.config == d.config
    decreases |ids|
  {
    if ids != [] {
      var next := RemoveChunk(d, ids[0]);
      DropEffect(d.access, ids[0]);
      RemoveChunksTakes(next, ids[1..]);
      assert AsSet(ids) == {ids[0]} + AsSet(ids[1..]);
      assert forall id :: id in ids <==> id == ids[0] || id in ids[1..];
    }
  }

  /** Removing a key takes its descriptor and the files it names, and leaves all others. */
  lemma RemoveTakes<Id>(d: State<Id>, key: Key)
    ensures var r := Remove(d, key).0;
      && r.descriptors == d.descriptors - {key}
      && (key !in d.descriptors ==> r == d)
      && (key in d.descriptors ==>
            && r.files.Keys == d.files.Keys - AsSet(d.descriptors[key].chunks)
            && Unaltered(r.files, d.files, r.files.Keys)
            && (forall e :: e in d.access && e.id !in d.descriptors[key].chunks ==> e in r.access))
  {
    if key in d.descriptors {
      RemoveChunksTakes(d, d.descriptors[key].chunks);
    } else {
      assert d.descriptors - {key} == d.descriptors;
    }
  }
}
