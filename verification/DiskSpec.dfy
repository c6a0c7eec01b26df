/**
 The disk cache as a value. `files` is the content of the chunk directory, `index` the set of chunks the cache
 believes to be on disk, `access` the eviction order (a set ordered by clock reading alone, oldest first) and
 `current` the byte counter. Writing and deleting files always succeeds here.
 */
module DiskSpec {
  import opened Options
  import opened Bytes
  import opened Chunking
  import opened Reads

  datatype Access<Id> = Access(id: Id, time: int, size: nat)

  datatype Config = Config(maxSize: nat, high: real, low: real)

  datatype State<Id> = State(
    config: Config,
    descriptors: map<Key, Descriptor<Id>>,
    index: set<Id>,
    access: seq<Access<Id>>,
    current: int,
    files: map<Id, Bytes>)

  function Empty<Id>(config: Config): State<Id> {
    State(config, map[], {}, [], 0, map[])
  }

  function Sum<Id>(s: seq<Access<Id>>): nat {
    if s == [] then 0 else s[0].size + Sum(s[1..])
  }

  // ----- chunks ----------------------------------------------------------------------------------------------

  /** Insertion into a set ordered by time: an entry with an equal time is already "there", and wins. */
  function Insert<Id>(s: seq<Access<Id>>, e: Access<Id>): (r: seq<Access<Id>>) {
    if s == [] || e.time < s[0].time then [e] + s
    else if e.time == s[0].time then s
    else [s[0]] + Insert(s[1..], e)
  }

  function PutChunk<Id(==)>(d: State<Id>, id: Id, data: Bytes, time: int): (r: State<Id>) {
    d.(files := d.files[id := data], index := d.index + {id}, current := d.current + |data|,
       access := Insert(d.access, Access(id, time, |data|)))
  }

  /** Remove the oldest entry of a chunk, if it has one. */
  function Drop<Id(==)>(s: seq<Access<Id>>, id: Id): (r: seq<Access<Id>>) {
    if s == [] then [] else if s[0].id == id then s[1..] else [s[0]] + Drop(s[1..], id)
  }

  /** The size recorded with the oldest entry of a chunk. */
  function OldestSize<Id(==)>(s: seq<Access<Id>>, id: Id): nat {
    if s == [] then 0 else if s[0].id == id then s[0].size else OldestSize(s[1..], id)
  }

  function RemoveChunk<Id(==)>(d: State<Id>, id: Id): (r: State<Id>) {
    var d' := if id in d.index then
                d.(access := Drop(d.access, id), index := d.index - {id},
                   current := d.current - OldestSize(d.access, id))
              else d;
    d'.(files := d'.files - {id})
  }

  // ----- eviction --------------------------------------------------------------------------------------------

  function Target(config: Config): int {
    (config.maxSize as real * config.low).Floor
  }

  /** Evict the oldest entry. */
  function EvictOldest<Id(==)>(d: State<Id>): (r: State<Id>)
    requires d.access != []
  {
    var e := d.access[0];
    d.(access := d.access[1..], index := d.index - {e.id}, current := d.current - e.size, files := d.files - {e.id})
  }

  predicate MustEvict<Id>(d: State<Id>, needed: nat, evicted: nat) {
    (d.current > Target(d.config) || evicted < needed) && d.access != []
  }

  function Evict<Id(==)>(d: State<Id>, needed: nat, evicted: nat): (r: (State<Id>, nat))
    decreases |d.access|
  {
    if MustEvict(d, needed, evicted) then Evict(EvictOldest(d), needed, evicted + d.access[0].size)
    else (d, evicted)
  }

  // ----- values ----------------------------------------------------------------------------------------------

  /** Make room, if the high watermark would be passed. */
  function MakeRoom<Id(==)>(d: State<Id>, needed: nat): (r: State<Id>) {
    if (d.current + needed) as real > d.config.maxSize as real * d.config.high then Evict(d, needed, 0).0 else d
  }

  /** Store chunks in order, one clock reading each. */
  function PutChunks<Id(==)>(d: State<Id>, hash: Bytes -> Id, chunks: seq<Bytes>, clock: seq<int>): (r: State<Id>)
    requires |clock| == |chunks|
    decreases |chunks|
  {
    if chunks == [] then d
    else PutChunks(PutChunk(d, hash(chunks[0]), chunks[0], clock[0]), hash, chunks[1..], clock[1..])
  }

  function Put<Id(==)>(d: State<Id>, c: pos, hash: Bytes -> Id, key: Key, value: Bytes, expiresAt: Option<int>,
                       clock: seq<int>) : (r: (State<Id>, Status))
    requires |clock| == |Split(c, value)|
  {
    if |key| > MAX_KEY_SIZE then (d, Error(KeyTooLarge))
    else
      var d' := PutChunks(MakeRoom(d, |value|), hash, Split(c, value), clock);
      (d'.(descriptors := d'.descriptors[key := Describe(c, hash, value, expiresAt)]), Ok)
  }

  function RemoveChunks<Id(==)>(d: State<Id>, ids: seq<Id>): (r: State<Id>)
    decreases |ids|
  {
    if ids == [] then d else RemoveChunks(RemoveChunk(d, ids[0]), ids[1..])
  }

  function Remove<Id(==)>(d: State<Id>, key: Key): (r: (State<Id>, Status)) {
    if key !in d.descriptors then (d, Error(NotFound))
    else
      var d' := RemoveChunks(d, d.descriptors[key].chunks);
      (d'.(descriptors := d'.descriptors - {key}), Ok)
  }

  /** A chunk file that is missing or empty is not found. */
  function GetChunk<Id(==)>(d: State<Id>, id: Id): (r: Option<Bytes>) {
    if id in d.files && d.files[id] != [] then Some(d.files[id]) else None
  }

  /** Fetch chunks in order; without `allowPartial` the first missing one ends the fetch. */
  function Fetch<Id(==)>(d: State<Id>, ids: seq<Id>, allowPartial: bool): (r: (seq<Option<Bytes>>, bool)) {
    if ids == [] then ([], true)
    else
      var chunk := GetChunk(d, ids[0]);
      if chunk.None? && !allowPartial then ([], false)
      else
        var rest := Fetch(d, ids[1..], allowPartial);
        ([chunk] + rest.0, chunk.Some? && rest.1)
  }

  function Get<Id(==)>(d: State<Id>, c: pos, key: Key, opts: ReadOptions, now: int): (r: ReadResult) {
    if key !in d.descriptors then MISSED
    else
      match PlanRead(d.descriptors[key], opts, now)
      case Answered(answer) => answer
      case Wanted(range) =>
        var fetched := Fetch(d, WantedIds(c, d.descriptors[key], range), opts.allowPartial);
        Conclude(c, false, range, fetched.0, fetched.1, opts.allowPartial)
  }
}
