/**
 The disk cache's counter against the files themselves. It never falls below their bytes, and equals them exactly when
 every recorded size belongs to a file that is there and was stored once since (`CounterIsFilesIff`,
 `RunCounterIsFilesIff`): a chunk stored twice counts twice. Over every run the counter stays below the watermarks
 (`RunStaysBelowWatermarks`).
 */
module DiskFiles {
  import opened Options
  import opened Bytes
  import opened Chunking
  import opened Reads
  import opened DiskSpec
  import opened DiskTheorems
  import C = CoordinatorTheorems

  // ----- the bytes of the files ------------------------------------------------------------------------------

  ghost function FileBytes<Id>(files: map<Id, Bytes>): nat {
    if files == map[] then 0
    else
      var id :| id in files;
      |files[id]| + FileBytes(files - {id})
  }

  /** The order of adding up does not matter. */
  lemma {:induction false} FileBytesWithout<Id>(files: map<Id, Bytes>, id: Id)
    requires id in files
    ensures FileBytes(files) == |files[id]| + FileBytes(files - {id})
    decreases |files|
  {
    var first :| first in files && FileBytes(files) == |files[first]| + FileBytes(files - {first});
    if first != id {
      FileBytesWithout(files - {first}, id);
      FileBytesWithout(files - {id}, first);
      assert files - {first} - {id} == files - {id} - {first};
    }
  }

  /** The recorded sizes are those of the files. */
  ghost predicate Sized<Id>(s: seq<Access<Id>>, files: map<Id, Bytes>) {
    forall i :: 0 <= i < |s| && s[i].id in files ==> s[i].size == |files[s[i].id]|
  }

  ghost predicate AllListed<Id>(s: seq<Access<Id>>, files: map<Id, Bytes>) {
    forall id :: id in files ==> Listed(s, id)
  }

  /** What is recorded besides the oldest entry of each file. */
  ghost function Excess<Id>(s: seq<Access<Id>>, files: map<Id, Bytes>): nat {
    if s == [] then 0
    else if s[0].id in files then Excess(s[1..], files - {s[0].id})
    else s[0].size + Excess(s[1..], files)
  }

  lemma ListedBelow<Id>(s: seq<Access<Id>>, files: map<Id, Bytes>)
    requires s != [] && AllListed(s, files) && Sized(s, files)
    ensures AllListed(s[1..], files - {s[0].id}) && Sized(s[1..], files - {s[0].id})
  {
    forall id | id in files - {s[0].id} ensures Listed(s[1..], id) {
      var i :| 0 <= i < |s| && s[i].id == id;
      assert s[1..][i - 1].id == id;
    }
  }

  lemma {:induction false} SumIsFilesAndExcess<Id>(s: seq<Access<Id>>, files: map<Id, Bytes>)
    requires AllListed(s, files) && Sized(s, files)
    ensures Sum(s) == FileBytes(files) + Excess(s, files)
    decreases |s|
  {
    if s == [] {
      assert forall id :: id in files ==> Listed(s, id);
      assert files == map[];
    } else {
      ListedBelow(s, files);
      SumIsFilesAndExcess(s[1..], files - {s[0].id});
      if s[0].id in files {
        FileBytesWithout(files, s[0].id);
      } else {
        assert files - {s[0].id} == files;
      }
    }
  }

  /** Every entry that counts is the oldest of its chunk, and the file is there. */
  ghost predicate NoneTwice<Id>(s: seq<Access<Id>>, files: map<Id, Bytes>) {
    forall i :: 0 <= i < |s| && s[i].size > 0 ==> s[i].id in files && forall j :: 0 <= j < i ==> s[j].id != s[i].id
  }

  lemma NoneTwiceBelow<Id>(s: seq<Access<Id>>, files: map<Id, Bytes>)
    requires s != []
    ensures NoneTwice(s, files) <==>
      (s[0].size > 0 ==> s[0].id in files) && NoneTwice(s[1..], files - {s[0].id})
  {
    if NoneTwice(s, files) {
      forall i | 0 <= i < |s[1..]| && s[1..][i].size > 0
        ensures s[1..][i].id in files - {s[0].id} && forall j :: 0 <= j < i ==> s[1..][j].id != s[1..][i].id
      {
        assert s[1..][i] == s[i + 1] && s[0].id != s[i + 1].id;
        assert forall j :: 0 <= j < i ==> s[1..][j] == s[j + 1];
      }
    }
    if (s[0].size > 0 ==> s[0].id in files) && NoneTwice(s[1..], files - {s[0].id}) {
      forall i | 0 <= i < |s| && s[i].size > 0
        ensures s[i].id in files && forall j :: 0 <= j < i ==> s[j].id != s[i].id
      {
        if i > 0 {
          assert s[i] == s[1..][i - 1];
          assert forall j :: 1 <= j < i ==> s[j] == s[1..][j - 1];
        }
      }
    }
  }

  lemma {:induction false} NoExcessIff<Id>(s: seq<Access<Id>>, files: map<Id, Bytes>)
    ensures Excess(s, files) == 0 <==> NoneTwice(s, files)
    decreases |s|
  {
    if s != [] {
      NoneTwiceBelow(s, files);
      NoExcessIff(s[1..], files - {s[0].id});
      if s[0].id !in files { assert files - {s[0].id} == files; }
    }
  }

  /**
   With exact books the counter is at least the bytes of the files, and equal to them exactly when every size it counts
   is that of a file that is there, counted once.
   */
  lemma CounterIsFilesIff<Id>(d: State<Id>)
    requires Kept(d) && Accounted(d) && Indexed(d) && Sized(d.access, d.files)
    ensures d.current >= FileBytes(d.files)
    ensures d.current == FileBytes(d.files) <==> NoneTwice(d.access, d.files)
  {
    SumIsFilesAndExcess(d.access, d.files);
    NoExcessIff(d.access, d.files);
  }

  /** The same chunk stored twice: one file, counted twice. */
  lemma StoredTwiceCountsTwice(config: Config)
    ensures var d := PutChunk(PutChunk(Empty<int>(config), 1, [7], 0), 1, [7], 1);
      d.current == 2 && FileBytes(d.files) == 1
  {
    var d := PutChunk(PutChunk(Empty<int>(config), 1, [7], 0), 1, [7], 1);
    assert d.files == map[1 := [7]];
    FileBytesWithout(d.files, 1);
    assert d.files - {1} == map[];
  }

  // ----- over every run --------------------------------------------------------------------------------------

  /** Every recorded size is that of the chunk it names. */
  ghost predicate Labelled<Id>(s: seq<Access<Id>>, hash: Bytes -> Id, pool: set<Bytes>) {
    forall i, x :: 0 <= i < |s| && x in pool && hash(x) == s[i].id ==> s[i].size == |x|
  }

  lemma LabelledSubset<Id>(r: seq<Access<Id>>, s: seq<Access<Id>>, hash: Bytes -> Id, pool: set<Bytes>)
    requires Labelled(s, hash, pool) && forall e :: e in r ==> e in s
    ensures Labelled(r, hash, pool)
  {
    forall i, x | 0 <= i < |r| && x in pool && hash(x) == r[i].id ensures r[i].size == |x| {
      assert r[i] in s;
    }
  }

  lemma {:induction false} StoreLabelled<Id>(d: State<Id>, hash: Bytes -> Id, chunks: seq<Bytes>, clock: seq<int>,
                                             pool: set<Bytes>)
    requires |clock| == |chunks| && C.CollisionFree(hash, pool) && (forall x :: x in chunks ==> x in pool)
    requires Labelled(d.access, hash, pool) && Ordered(d.access)
    ensures Labelled(PutChunks(d, hash, chunks, clock).access, hash, pool)
    decreases |chunks|
  {
    if chunks != [] {
      var next := PutChunk(d, hash(chunks[0]), chunks[0], clock[0]);
      LabelOne(d.access, Access(hash(chunks[0]), clock[0], |chunks[0]|), hash, chunks[0], pool);
      StoreLabelled(next, hash, chunks[1..], clock[1..], pool);
    }
  }

  lemma LabelOne<Id>(s: seq<Access<Id>>, e: Access<Id>, hash: Bytes -> Id, data: Bytes, pool: set<Bytes>)
    requires C.CollisionFree(hash, pool) && data in pool && e.id == hash(data) && e.size == |data|
    requires Labelled(s, hash, pool) && Ordered(s)
    ensures Labelled(Insert(s, e), hash, pool) && Ordered(Insert(s, e))
  {
    InsertAddsOne(s, e);
    LabelledWith(Insert(s, e), s, e, hash, data, pool);
  }

  lemma InsertAddsOne<Id>(s: seq<Access<Id>>, e: Access<Id>)
    requires Ordered(s)
    ensures Ordered(Insert(s, e)) && forall x :: x in Insert(s, e) ==> x in s || x == e
  {
    InsertEffect(s, e);
  }

  lemma LabelledWith<Id>(r: seq<Access<Id>>, s: seq<Access<Id>>, e: Access<Id>, hash: Bytes -> Id, data: Bytes,
                         pool: set<Bytes>)
    requires C.CollisionFree(hash, pool) && data in pool && e.id == hash(data) && e.size == |data|
    requires Labelled(s, hash, pool) && forall x :: x in r ==> x in s || x == e
    ensures Labelled(r, hash, pool)
  {
    forall i, x | 0 <= i < |r| && x in pool && hash(x) == r[i].id ensures r[i].size == |x| {
      assert r[i] in s || r[i] == e;
    }
  }

  lemma {:induction false} DeleteLabelled<Id>(d: State<Id>, hash: Bytes -> Id, ids: seq<Id>, pool: set<Bytes>)
    requires Labelled(d.access, hash, pool)
    ensures Labelled(RemoveChunks(d, ids).access, hash, pool)
    decreases |ids|
  {
    if ids != [] {
      DropEffect(d.access, ids[0]);
      LabelledSubset(RemoveChunk(d, ids[0]).access, d.access, hash, pool);
      DeleteLabelled(RemoveChunk(d, ids[0]), hash, ids[1..], pool);
    }
  }

  ghost predicate Named<Id>(d: State<Id>, hash: Bytes -> Id, pool: set<Bytes>) {
    Labelled(d.access, hash, pool) && C.FilesOk(d.files, hash, pool)
  }

  lemma StepNamed<Id>(d: State<Id>, c: pos, hash: Bytes -> Id, op: Op, pool: set<Bytes>)
    requires Timed(c, op) && C.CollisionFree(hash, pool) && (op.PutOp? ==> C.ChunksOf(c, op.value) <= pool)
    requires Kept(d) && Named(d, hash, pool)
    ensures Named(Step(d, c, hash, op), hash, pool)
  {
    match op
    case PutOp(key, value, expiresAt, clock) =>
      var room := MakeRoom(d, |value|);
      EvictOnlyTakes(d, |value|, 0);
      EvictKeeps(d, |value|, 0);
      LabelledSubset(room.access, d.access, hash, pool);
      StoreLabelled(room, hash, Split(c, value), clock, pool);
      C.StoreOk(room, hash, Split(c, value), clock, pool);
    case RemoveOp(key) =>
      if key in d.descriptors {
        DeleteLabelled(d, hash, d.descriptors[key].chunks, pool);
        C.DeleteOk(d, hash, d.descriptors[key].chunks, pool);
      }
  }

  ghost predicate AllTimed(c: pos, ops: seq<Op>) {
    forall i :: 0 <= i < |ops| ==> Timed(c, ops[i])
  }

  ghost predicate AllPooled(c: pos, ops: seq<Op>, pool: set<Bytes>) {
    forall i :: 0 <= i < |ops| && ops[i].PutOp? ==> C.ChunksOf(c, ops[i].value) <= pool
  }

  lemma {:induction false} RunNamed<Id>(config: Config, c: pos, hash: Bytes -> Id, ops: seq<Op>, pool: set<Bytes>)
    requires AllTimed(c, ops) && Increasing(Clock(ops)) && C.CollisionFree(hash, pool) && AllPooled(c, ops, pool)
    ensures Named(Run(config, c, hash, ops), hash, pool)
    decreases |ops|
  {
    if ops != [] {
      var before := ops[..|ops| - 1];
      IncreasingBefore(ops);
      RunNamed(config, c, hash, before, pool);
      RunAccounts(config, c, hash, before);
      StepNamed(Run(config, c, hash, before), c, hash, ops[|ops| - 1], pool);
    }
  }

  lemma IncreasingBefore(ops: seq<Op>)
    requires ops != [] && Increasing(Clock(ops))
    ensures Increasing(Clock(ops[..|ops| - 1]))
  {
    var past := Clock(ops[..|ops| - 1]);
    assert forall i :: 0 <= i < |past| ==> Clock(ops)[i] == past[i];
  }

  /**
   So after every run with increasing clock readings whose chunks do not collide, the counter is at least the bytes on
   disk, and equal to them exactly when every size it counts is that of a file that is there, counted once.
   */
  lemma RunCounterIsFilesIff<Id>(config: Config, c: pos, hash: Bytes -> Id, ops: seq<Op>, pool: set<Bytes>)
    requires AllTimed(c, ops) && Increasing(Clock(ops)) && C.CollisionFree(hash, pool) && AllPooled(c, ops, pool)
    ensures var d := Run(config, c, hash, ops);
      && d.current >= FileBytes(d.files)
      && (d.current == FileBytes(d.files) <==> NoneTwice(d.access, d.files))
  {
    RunAccounts(config, c, hash, ops);
    RunNamed(config, c, hash, ops, pool);
    CounterIsFilesIff(Run(config, c, hash, ops));
  }

  // ----- watermarks over every run ---------------------------------------------------------------------------

  /** Below the high mark, or at most a value above the low one. */
  ghost predicate Below(bytes: int, high: real, low: real, limit: nat) {
    bytes as real <= high || (bytes - limit) as real <= low
  }

  ghost predicate Positive(config: Config) { config.maxSize as real * config.low >= 0.0 }

  ghost predicate BelowWatermarks(bytes: int, config: Config, limit: nat) {
    Below(bytes, config.maxSize as real * config.high, config.maxSize as real * config.low, limit)
  }

  lemma BelowStill(fewer: int, bytes: int, high: real, low: real, less: nat, limit: nat)
    requires Below(bytes, high, low, less) && fewer <= bytes && less <= limit
    ensures Below(fewer, high, low, limit)
  {
  }

  lemma {:induction false} RemoveOnlyLowers<Id>(d: State<Id>, ids: seq<Id>)
    ensures RemoveChunks(d, ids).current <= d.current && RemoveChunks(d, ids).config == d.config
    decreases |ids|
  {
    if ids != [] { RemoveOnlyLowers(RemoveChunk(d, ids[0]), ids[1..]); }
  }

  lemma StepStaysBelow<Id>(d: State<Id>, c: pos, hash: Bytes -> Id, op: Op, limit: nat)
    requires Timed(c, op) && Accounted(d) && Positive(d.config) && (op.PutOp? ==> |op.value| <= limit)
    requires BelowWatermarks(d.current, d.config, limit)
    ensures BelowWatermarks(Step(d, c, hash, op).current, d.config, limit) && Step(d, c, hash, op).config == d.config
  {
    var high, low := d.config.maxSize as real * d.config.high, d.config.maxSize as real * d.config.low;
    match op
    case PutOp(key, value, expiresAt, clock) =>
      if |key| <= MAX_KEY_SIZE {
        var r := Put(d, c, hash, key, value, expiresAt, clock).0;
        PutBelow(d, c, hash, key, value, expiresAt, clock);
        BelowStill(r.current, r.current, high, low, |value|, limit);
      }
    case RemoveOp(key) =>
      if key in d.descriptors {
        RemoveOnlyLowers(d, d.descriptors[key].chunks);
        BelowStill(Remove(d, key).0.current, d.current, high, low, limit, limit);
      }
  }

  lemma PutBelow<Id>(d: State<Id>, c: pos, hash: Bytes -> Id, key: Key, value: Bytes, expiresAt: Option<int>,
                     clock: seq<int>)
    requires Accounted(d) && Positive(d.config) && |key| <= MAX_KEY_SIZE && |clock| == |Split(c, value)|
    ensures var r := Put(d, c, hash, key, value, expiresAt, clock).0;
      r.config == d.config && BelowWatermarks(r.current, d.config, |value|)
  {
    PutStaysBelowWatermarks(d, c, hash, key, value, expiresAt, clock);
    EvictOnlyTakes(d, |value|, 0);
    PutChunksCounts(MakeRoom(d, |value|), hash, Split(c, value), clock);
  }

  /**
   In every state of every run with increasing clock readings, the counter is below the high watermark, or at most the
   largest value of the run above the low one.
   */
  lemma {:induction false} RunStaysBelowWatermarks<Id>(config: Config, c: pos, hash: Bytes -> Id, ops: seq<Op>,
                                                       limit: nat)
    requires AllTimed(c, ops) && Increasing(Clock(ops)) && Positive(config)
    requires forall i :: 0 <= i < |ops| && ops[i].PutOp? ==> |ops[i].value| <= limit
    ensures var d := Run(config, c, hash, ops); BelowWatermarks(d.current, config, limit) && d.config == config
    decreases |ops|
  {
    if ops != [] {
      var before := ops[..|ops| - 1];
      IncreasingBefore(ops);
      RunStaysBelowWatermarks(config, c, hash, before, limit);
      RunAccounts(config, c, hash, before);
      StepStaysBelow(Run(config, c, hash, before), c, hash, ops[|ops| - 1], limit);
    }
  }

  /** And so are the bytes on disk. */
  lemma RunFilesBelowWatermarks<Id>(config: Config, c: pos, hash: Bytes -> Id, ops: seq<Op>, pool: set<Bytes>,
                                    limit: nat)
    requires AllTimed(c, ops) && Increasing(Clock(ops)) && C.CollisionFree(hash, pool) && AllPooled(c, ops, pool)
    requires Positive(config) && forall i :: 0 <= i < |ops| && ops[i].PutOp? ==> |ops[i].value| <= limit
    ensures BelowWatermarks(FileBytes(Run(config, c, hash, ops).files), config, limit)
  {
    RunStaysBelowWatermarks(config, c, hash, ops, limit);
    RunCounterIsFilesIff(config, c, hash, ops, pool);
    var d := Run(config, c, hash, ops);
    var high, low := config.maxSize as real * config.high, config.maxSize as real * config.low;
    BelowStill(FileBytes(d.files), d.current, high, low, limit, limit);
  }
}
