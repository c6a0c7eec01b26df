/**
 The disk cache's accounting. The counter never falls below the recorded sizes; it equals them exactly as long as
 every stored chunk gets a clock reading of its own (`PutChunkAccountsIff`, `RunAccounts`). Eviction takes the
 oldest entries, no more than needed, and ends with both goals met or nothing left (`EvictTakesOldest`), which
 bounds the cache after every put (`PutStaysBelowWatermarks`).
 */
module DiskTheorems {
  import opened Options
  import opened Bytes
  import opened Chunking
  import opened Reads
  import opened DiskSpec

  ghost predicate Ordered<Id>(s: seq<Access<Id>>) {
    forall i, j :: 0 <= i < j < |s| ==> s[i].time < s[j].time
  }

  ghost predicate Unused<Id>(s: seq<Access<Id>>, time: int) {
    forall i :: 0 <= i < |s| ==> s[i].time != time
  }

  ghost predicate Listed<Id>(s: seq<Access<Id>>, id: Id) {
    exists i :: 0 <= i < |s| && s[i].id == id
  }

  ghost predicate Accounted<Id>(d: State<Id>) {
    d.current == Sum(d.access)
  }

  ghost predicate Indexed<Id>(d: State<Id>) {
    forall id :: id in d.index ==> Listed(d.access, id)
  }

  /** What every operation keeps, whatever the clock reads. */
  ghost predicate Kept<Id>(d: State<Id>) {
    && Ordered(d.access)
    && d.current >= Sum(d.access)
    && d.files.Keys == d.index
  }

  // ----- the access set --------------------------------------------------------------------------------------

  lemma {:induction false} SumConcat<Id>(a: seq<Access<Id>>, b: seq<Access<Id>>)
    ensures Sum(a + b) == Sum(a) + Sum(b)
  {
    if a == [] {
      assert a + b == b;
    } else {
      assert (a + b)[1..] == a[1..] + b;
      SumConcat(a[1..], b);
    }
  }

  lemma {:induction false} InsertAt<Id>(s: seq<Access<Id>>, e: Access<Id>, k: nat)
    requires k <= |s| && (forall i :: 0 <= i < k ==> s[i].time < e.time) && (k == |s| || e.time <= s[k].time)
    ensures Insert(s, e) == if k < |s| && s[k].time == e.time then s else s[..k] + [e] + s[k..]
    decreases k
  {
    if k > 0 {
      InsertAt(s[1..], e, k - 1);
      assert s[..k] == [s[0]] + s[1..][..k - 1] && s[k..] == s[1..][k - 1..];
      assert s == [s[0]] + s[1..];
    } else {
      assert s[..0] == [] && s[0..] == s;
    }
  }

  /** Where an entry goes: before the first later one, unless its time is taken. */
  lemma InsertPlace<Id>(s: seq<Access<Id>>, e: Access<Id>) returns (k: nat)
    requires Ordered(s)
    ensures k <= |s| && forall i :: 0 <= i < k ==> s[i].time < e.time
    ensures !Unused(s, e.time) ==> Insert(s, e) == s
    ensures Unused(s, e.time) ==> Insert(s, e) == s[..k] + [e] + s[k..]
    ensures Unused(s, e.time) ==> forall i :: k <= i < |s| ==> e.time < s[i].time
  {
    k := 0;
    while k < |s| && s[k].time < e.time
      invariant 0 <= k <= |s| && forall i :: 0 <= i < k ==> s[i].time < e.time
    {
      k := k + 1;
    }
    InsertAt(s, e, k);
    assert forall i :: k < i < |s| ==> s[k].time < s[i].time;
  }

  lemma InsertEffect<Id>(s: seq<Access<Id>>, e: Access<Id>)
    requires Ordered(s)
    ensures Ordered(Insert(s, e))
    ensures Sum(Insert(s, e)) == Sum(s) + if Unused(s, e.time) then e.size else 0
    ensures forall x :: x in Insert(s, e) <==> x in s || (Unused(s, e.time) && x == e)
  {
    var k := InsertPlace(s, e);
    if Unused(s, e.time) {
      InsertSum(s, e, k);
      InsertMembers(s, e, k);
      InsertOrdered(s, e, k);
    }
  }

  lemma InsertOrdered<Id>(s: seq<Access<Id>>, e: Access<Id>, k: nat)
    requires Ordered(s) && k <= |s|
    requires (forall i :: 0 <= i < k ==> s[i].time < e.time) && (forall i :: k <= i < |s| ==> e.time < s[i].time)
    ensures Ordered(s[..k] + [e] + s[k..])
  {
  }

  lemma InsertSum<Id>(s: seq<Access<Id>>, e: Access<Id>, k: nat)
    requires k <= |s|
    ensures Sum(s[..k] + [e] + s[k..]) == Sum(s) + e.size
  {
    SumConcat(s[..k] + [e], s[k..]);
    SumConcat(s[..k], [e]);
    SumConcat(s[..k], s[k..]);
    assert s == s[..k] + s[k..];
    assert [e][1..] == [];
  }

  lemma InsertMembers<Id>(s: seq<Access<Id>>, e: Access<Id>, k: nat)
    requires k <= |s|
    ensures forall x :: x in s[..k] + [e] + s[k..] <==> x in s || x == e
  {
    assert s == s[..k] + s[k..];
  }

  // ----- one chunk -------------------------------------------------------------------------------------------

  lemma PutChunkKeeps<Id>(d: State<Id>, id: Id, data: Bytes, time: int)
    requires Kept(d)
    ensures Kept(PutChunk(d, id, data, time))
  {
    InsertEffect(d.access, Access(id, time, |data|));
  }

  /**
   The counter stays exact over a stored chunk exactly when the clock reading is new (or the chunk empty): the
   ordered set drops an entry with a reading it already has, and the counter grows all the same.
   */
  lemma PutChunkAccountsIff<Id>(d: State<Id>, id: Id, data: Bytes, time: int)
    requires Ordered(d.access) && Accounted(d)
    ensures Accounted(PutChunk(d, id, data, time)) <==> Unused(d.access, time) || data == []
  {
    InsertEffect(d.access, Access(id, time, |data|));
  }

  /** Two chunks stored at one reading: both are counted and on disk, one can be evicted. */
  lemma SameReadingLosesTrack(config: Config, time: int)
    ensures var one := PutChunk(Empty<int>(config), 1, [1], time);
      var two := PutChunk(one, 2, [2], time);
      && Accounted(one) && Indexed(one)
      && two.current == 2 && two.access == [Access(1, time, 1)] && !Accounted(two) && !Indexed(two)
  {
    var one := PutChunk(Empty<int>(config), 1, [1], time);
    var two := PutChunk(one, 2, [2], time);
    assert one.access == [Access(1, time, 1)] && one.access[1..] == [];
    assert one.access[0].id == 1;
    assert 2 in two.index && two.access[0].id == 1;
  }

  /** The chunk keeps an access entry exactly when the reading is new or an older entry of it is there. */
  lemma PutChunkIndexesIff<Id>(d: State<Id>, id: Id, data: Bytes, time: int)
    requires Ordered(d.access) && Indexed(d)
    ensures Indexed(PutChunk(d, id, data, time)) <==> Unused(d.access, time) || Listed(d.access, id)
  {
    var e := Access(id, time, |data|);
    var r := PutChunk(d, id, data, time);
    InsertEffect(d.access, e);
    forall x | Listed(d.access, x) ensures Listed(r.access, x) {
      var i :| 0 <= i < |d.access| && d.access[i].id == x;
      assert d.access[i] in r.access;
    }
    if Unused(d.access, time) {
      assert e in r.access;
    } else {
      var k := InsertPlace(d.access, e);
      assert id in r.index;
    }
  }

  lemma {:induction false} DropEffect<Id>(s: seq<Access<Id>>, id: Id)
    ensures Sum(s) == Sum(Drop(s, id)) + OldestSize(s, id)
    ensures forall x :: x in Drop(s, id) ==> x in s
    ensures forall x :: x in s && x.id != id ==> x in Drop(s, id)
    ensures Ordered(s) ==> Ordered(Drop(s, id))
  {
    if s != [] && s[0].id != id {
      DropEffect(s[1..], id);
      var rest := Drop(s[1..], id);
      assert s == [s[0]] + s[1..] && ([s[0]] + rest)[1..] == rest;
      if Ordered(s) {
        forall j | 0 < j < |[s[0]] + rest| ensures s[0].time < ([s[0]] + rest)[j].time {
          assert rest[j - 1] in s[1..];
        }
      }
    }
  }

  lemma RemoveChunkKeeps<Id>(d: State<Id>, id: Id)
    requires Kept(d)
    ensures Kept(RemoveChunk(d, id))
    ensures Accounted(d) ==> Accounted(RemoveChunk(d, id))
    ensures Indexed(d) ==> Indexed(RemoveChunk(d, id))
    ensures id !in RemoveChunk(d, id).files
  {
    DropEffect(d.access, id);
    ListedAfter(d, RemoveChunk(d, id), id);
  }

  lemma ListedAfter<Id>(d: State<Id>, r: State<Id>, id: Id)
    requires forall x :: x in d.access && x.id != id ==> x in r.access
    requires r.index <= d.index - {id} || (r.index == d.index && r.access == d.access)
    ensures Indexed(d) ==> Indexed(r)
  {
    if Indexed(d) {
      forall x | x in r.index ensures Listed(r.access, x) {
        assert Listed(d.access, x);
        var i :| 0 <= i < |d.access| && d.access[i].id == x;
        assert d.access[i] in r.access || r.access == d.access;
      }
    }
  }

  // ----- eviction --------------------------------------------------------------------------------------------

  lemma EvictOldestKeeps<Id>(d: State<Id>)
    requires Kept(d) && d.access != []
    ensures Kept(EvictOldest(d))
    ensures Accounted(d) ==> Accounted(EvictOldest(d))
    ensures Indexed(d) ==> Indexed(EvictOldest(d))
  {
    assert d.access == [d.access[0]] + d.access[1..];
    ListedAfter(d, EvictOldest(d), d.access[0].id);
  }

  lemma {:induction false} EvictKeeps<Id>(d: State<Id>, needed: nat, evicted: nat)
    requires Kept(d)
    ensures var r := Evict(d, needed, evicted).0;
            Kept(r) && (Accounted(d) ==> Accounted(r)) && (Indexed(d) ==> Indexed(r))
    decreases |d.access|
  {
    if MustEvict(d, needed, evicted) {
      EvictOldestKeeps(d);
      EvictKeeps(EvictOldest(d), needed, evicted + d.access[0].size);
    }
  }

  /** Eviction only takes away: chunk files, index entries and access entries, never descriptors. */
  lemma {:induction false} EvictOnlyTakes<Id>(d: State<Id>, needed: nat, evicted: nat)
    ensures var r := Evict(d, needed, evicted).0;
            && r.config == d.config && r.descriptors == d.descriptors && r.index <= d.index
            && (forall id :: id in r.files ==> id in d.files && r.files[id] == d.files[id])
            && (forall x :: x in r.access ==> x in d.access)
    decreases |d.access|
  {
    if MustEvict(d, needed, evicted) {
      EvictOnlyTakes(EvictOldest(d), needed, evicted + d.access[0].size);
    }
  }

  /**
   Eviction removes the oldest entries first, never one after both goals are met, and stops with the counter at
   the low watermark and enough bytes freed, or with nothing left to evict.
   */
  lemma {:induction false} EvictTakesOldest<Id>(d: State<Id>, needed: nat, evicted: nat) returns (n: nat)
    ensures var r := Evict(d, needed, evicted);
            && n <= |d.access| && r.0.access == d.access[n..]
            && r.1 == evicted + Sum(d.access[..n]) && r.0.current == d.current - Sum(d.access[..n])
            && ((r.0.current <= Target(d.config) && r.1 >= needed) || r.0.access == [])
    ensures forall m :: 0 <= m < n ==>
              d.current - Sum(d.access[..m]) > Target(d.config) || evicted + Sum(d.access[..m]) < needed
    decreases |d.access|
  {
    if MustEvict(d, needed, evicted) {
      var d' := EvictOldest(d);
      var n' := EvictTakesOldest(d', needed, evicted + d.access[0].size);
      n := n' + 1;
      assert d.access[n..] == d'.access[n'..];
      forall m | 0 < m <= n ensures Sum(d.access[..m]) == d.access[0].size + Sum(d'.access[..m - 1]) {
        assert d.access[..m][1..] == d'.access[..m - 1];
      }
      forall m | 0 <= m < n
        ensures d.current - Sum(d.access[..m]) > Target(d.config) || evicted + Sum(d.access[..m]) < needed
      {
        if m > 0 {
          assert d'.current - Sum(d'.access[..m - 1]) > Target(d.config)
                 || evicted + d.access[0].size + Sum(d'.access[..m - 1]) < needed;
        }
      }
    } else {
      n := 0;
    }
  }

  // ----- values ----------------------------------------------------------------------------------------------

  function Length(chunks: seq<Bytes>): nat {
    if chunks == [] then 0 else |chunks[0]| + Length(chunks[1..])
  }

  lemma {:induction false} LengthOfConcat(chunks: seq<Bytes>)
    ensures Length(chunks) == |Concat(chunks)|
  {
    if chunks != [] { LengthOfConcat(chunks[1..]); }
  }

  /** Storing chunks counts their bytes, each time they are stored, and touches no descriptor. */
  lemma {:induction false} PutChunksCounts<Id>(d: State<Id>, hash: Bytes -> Id, chunks: seq<Bytes>, clock: seq<int>)
    requires |clock| == |chunks|
    ensures var r := PutChunks(d, hash, chunks, clock);
            && r.current == d.current + Length(chunks)
            && r.config == d.config && r.descriptors == d.descriptors
    decreases |chunks|
  {
    if chunks != [] {
      PutChunksCounts(PutChunk(d, hash(chunks[0]), chunks[0], clock[0]), hash, chunks[1..], clock[1..]);
    }
  }

  /** Eviction aims at the low watermark: the most whole bytes that do not pass it. */
  lemma TargetIsLow(config: Config)
    requires config.maxSize as real * config.low >= 0.0
    ensures 0 <= Target(config)
    ensures Target(config) as real <= config.maxSize as real * config.low < (Target(config) + 1) as real
  {
  }

  /** Making room leaves the high watermark unpassed, or the counter at the low one. */
  lemma MakeRoomMakesRoom<Id>(d: State<Id>, needed: nat)
    requires d.config.maxSize as real * d.config.low >= 0.0 && Accounted(d)
    ensures var r := MakeRoom(d, needed);
            || (r.current + needed) as real <= d.config.maxSize as real * d.config.high
            || r.current as real <= d.config.maxSize as real * d.config.low
  {
    TargetIsLow(d.config);
    if (d.current + needed) as real > d.config.maxSize as real * d.config.high {
      var n := EvictTakesOldest(d, needed, 0);
      assert n == |d.access| ==> d.access[..n] == d.access;
    }
  }

  lemma PutCounts<Id>(d: State<Id>, c: pos, hash: Bytes -> Id, value: Bytes, clock: seq<int>)
    requires |clock| == |Split(c, value)|
    ensures PutChunks(d, hash, Split(c, value), clock).current == d.current + |value|
  {
    PutChunksCounts(d, hash, Split(c, value), clock);
    SplitConcat(c, value);
    LengthOfConcat(Split(c, value));
  }

  /** After a put of n bytes the counter is below the high watermark, or at most n above the low one. */
  lemma PutStaysBelowWatermarks<Id>(d: State<Id>, c: pos, hash: Bytes -> Id, key: Key, value: Bytes,
                                    expiresAt: Option<int>, clock: seq<int>)
    requires d.config.maxSize as real * d.config.low >= 0.0
    requires Accounted(d) && |key| <= MAX_KEY_SIZE && |clock| == |Split(c, value)|
    ensures var r := Put(d, c, hash, key, value, expiresAt, clock).0;
            || r.current as real <= d.config.maxSize as real * d.config.high
            || (r.current - |value|) as real <= d.config.maxSize as real * d.config.low
  {
    MakeRoomMakesRoom(d, |value|);
    EvictOnlyTakes(d, |value|, 0);
    PutCounts(MakeRoom(d, |value|), c, hash, value, clock);
  }

  // ----- runs ------------------------------------------------------------------------------------------------

  datatype Op = PutOp(key: Key, value: Bytes, expiresAt: Option<int>, clock: seq<int>) | RemoveOp(key: Key)

  /** A put reads the clock once per chunk it stores. */
  predicate Timed(c: pos, op: Op) {
    op.PutOp? ==> |op.clock| == |Split(c, op.value)|
  }

  function Step<Id(==)>(d: State<Id>, c: pos, hash: Bytes -> Id, op: Op): State<Id>
    requires Timed(c, op)
  {
    match op
    case PutOp(key, value, expiresAt, clock) => Put(d, c, hash, key, value, expiresAt, clock).0
    case RemoveOp(key) => Remove(d, key).0
  }

  function Run<Id(==)>(config: Config, c: pos, hash: Bytes -> Id, ops: seq<Op>): State<Id>
    requires forall i :: 0 <= i < |ops| ==> Timed(c, ops[i])
  {
    if ops == [] then Empty(config)
    else Step(Run(config, c, hash, ops[..|ops| - 1]), c, hash, ops[|ops| - 1])
  }

  /** All clock readings of a run, in order. */
  function Clock(ops: seq<Op>): seq<int> {
    if ops == [] then []
    else Clock(ops[..|ops| - 1]) + match ops[|ops| - 1] case PutOp(_, _, _, clock) => clock case RemoveOp(_) => []
  }

  ghost predicate Increasing(s: seq<int>) {
    forall i, j :: 0 <= i < j < |s| ==> s[i] < s[j]
  }

  /** No entry is later than the last of the readings. */
  ghost predicate Dated<Id>(s: seq<Access<Id>>, past: seq<int>) {
    s == [] || (past != [] && forall i :: 0 <= i < |s| ==> s[i].time <= past[|past| - 1])
  }

  /** Exact books, with entries from the past only. */
  ghost predicate Exact<Id>(d: State<Id>, past: seq<int>) {
    Kept(d) && Accounted(d) && Indexed(d) && Dated(d.access, past)
  }

  lemma {:induction false} PutChunksExact<Id>(d: State<Id>, hash: Bytes -> Id, chunks: seq<Bytes>, clock: seq<int>,
                                              past: seq<int>)
    requires |clock| == |chunks| && Exact(d, past) && Increasing(past + clock)
    ensures Exact(PutChunks(d, hash, chunks, clock), past + clock)
    decreases |chunks|
  {
    if chunks == [] {
      assert past + clock == past;
    } else {
      PutChunkExact(d, hash(chunks[0]), chunks[0], clock, past);
      assert past + [clock[0]] + clock[1..] == past + clock;
      PutChunksExact(PutChunk(d, hash(chunks[0]), chunks[0], clock[0]), hash, chunks[1..], clock[1..],
                     past + [clock[0]]);
    }
  }

  lemma PutChunkExact<Id>(d: State<Id>, id: Id, data: Bytes, clock: seq<int>, past: seq<int>)
    requires clock != [] && Exact(d, past) && Increasing(past + clock)
    ensures Exact(PutChunk(d, id, data, clock[0]), past + [clock[0]])
  {
    var time := clock[0];
    assert forall i :: 0 <= i < |d.access| ==> d.access[i].time < time by {
      assert past != [] ==> (past + clock)[|past| - 1] < (past + clock)[|past|];
    }
    PutChunkKeeps(d, id, data, time);
    PutChunkAccountsIff(d, id, data, time);
    PutChunkIndexesIff(d, id, data, time);
    InsertLast(d.access, Access(id, time, |data|));
  }

  lemma {:induction false} InsertLast<Id>(s: seq<Access<Id>>, e: Access<Id>)
    requires forall i :: 0 <= i < |s| ==> s[i].time < e.time
    ensures Insert(s, e) == s + [e]
  {
    if s != [] {
      InsertLast(s[1..], e);
      assert s == [s[0]] + s[1..];
    }
  }

  lemma {:induction false} RemoveChunksExact<Id>(d: State<Id>, ids: seq<Id>, past: seq<int>)
    requires Exact(d, past)
    ensures Exact(RemoveChunks(d, ids), past)
    decreases |ids|
  {
    if ids != [] {
      RemoveChunkKeeps(d, ids[0]);
      DropEffect(d.access, ids[0]);
      DatedSubset(RemoveChunk(d, ids[0]).access, d.access, past);
      RemoveChunksExact(RemoveChunk(d, ids[0]), ids[1..], past);
    }
  }

  lemma DatedSubset<Id>(r: seq<Access<Id>>, s: seq<Access<Id>>, past: seq<int>)
    requires Dated(s, past) && forall x :: x in r ==> x in s
    ensures Dated(r, past)
  {
    if r != [] {
      assert r[0] in s;
      forall i | 0 <= i < |r| ensures r[i].time <= past[|past| - 1] {
        assert r[i] in s;
      }
    }
  }

  lemma DatedLater<Id>(s: seq<Access<Id>>, past: seq<int>, clock: seq<int>)
    requires Dated(s, past) && Increasing(past + clock)
    ensures Dated(s, past + clock)
  {
    assert past != [] && clock != [] ==> (past + clock)[|past| - 1] < (past + clock)[|past + clock| - 1];
    assert clock == [] ==> past + clock == past;
  }

  lemma StepExact<Id>(d: State<Id>, c: pos, hash: Bytes -> Id, op: Op, past: seq<int>)
    requires Timed(c, op) && Exact(d, past)
    requires op.PutOp? ==> Increasing(past + op.clock)
    ensures Exact(Step(d, c, hash, op), if op.PutOp? then past + op.clock else past)
  {
    match op
    case PutOp(key, value, expiresAt, clock) =>
      if |key| <= MAX_KEY_SIZE {
        var room := MakeRoom(d, |value|);
        EvictKeeps(d, |value|, 0);
        EvictOnlyTakes(d, |value|, 0);
        DatedSubset(room.access, d.access, past);
        PutChunksExact(room, hash, Split(c, value), clock, past);
      } else {
        DatedLater(d.access, past, clock);
      }
    case RemoveOp(key) =>
      if key in d.descriptors {
        RemoveChunksExact(d, d.descriptors[key].chunks, past);
      }
  }

  /**
   From an empty cache, with strictly increasing clock readings, every run keeps exact books: the counter is the
   sum of the access entries, every indexed chunk has an entry, and the chunk files are the indexed ones.
   */
  lemma {:induction false} RunAccounts<Id>(config: Config, c: pos, hash: Bytes -> Id, ops: seq<Op>)
    requires (forall i :: 0 <= i < |ops| ==> Timed(c, ops[i])) && Increasing(Clock(ops))
    ensures Exact(Run(config, c, hash, ops), Clock(ops))
  {
    if ops != [] {
      var before, op := ops[..|ops| - 1], ops[|ops| - 1];
      var past := Clock(before);
      assert forall i :: 0 <= i < |past| ==> Clock(ops)[i] == past[i];
      RunAccounts(config, c, hash, before);
      StepExact(Run(config, c, hash, before), c, hash, op, past);
      assert op.RemoveOp? ==> Clock(ops) == past;
    }
  }
}
