/**
 The memory cache as a value: chunks in an adaptive replacement cache, keyed by content hash and sized by their
 length, and a map from keys to descriptors that is never evicted from.
 */
module MemorySpec {
  import opened Options
  import opened Bytes
  import opened Chunking
  import opened Reads
  import A = ArcSpec

  datatype State<Id> = State(chunks: A.State<Id, Bytes>, descriptors: map<Key, Descriptor<Id>>)

  function Empty<Id>(capacity: nat): State<Id> {
    State(A.Empty(capacity), map[])
  }

  function PutChunks<Id(==)>(chunks: A.State<Id, Bytes>, hash: Bytes -> Id, data: seq<Bytes>): A.State<Id, Bytes>
    decreases |data|
  {
    if data == [] then chunks
    else PutChunks(A.Put(chunks, hash(data[0]), data[0], |data[0]|).state, hash, data[1..])
  }

  function Put<Id(==)>(m: State<Id>, c: pos, hash: Bytes -> Id, key: Key, value: Bytes, expiresAt: Option<int>)
      : (r: (State<Id>, Status))
  {
    if |key| > MAX_KEY_SIZE then (m, Error(KeyTooLarge))
    else if |value| > MAX_VALUE_SIZE then (m, Error(ValueTooLarge))
    else
      (State(PutChunks(m.chunks, hash, Split(c, value)),
             m.descriptors[key := Describe(c, hash, value, expiresAt)]), Ok)
  }

  function RemoveChunks<Id(==)>(chunks: A.State<Id, Bytes>, ids: seq<Id>): A.State<Id, Bytes>
    decreases |ids|
  {
    if ids == [] then chunks else RemoveChunks(A.Remove(chunks, ids[0]).0, ids[1..])
  }

  function Remove<Id(==)>(m: State<Id>, key: Key): (r: (State<Id>, Status)) {
    if key !in m.descriptors then (m, Error(NotFound))
    else (State(RemoveChunks(m.chunks, m.descriptors[key].chunks), m.descriptors - {key}), Ok)
  }

  datatype Fetch<Id> = Fetch(chunks: A.State<Id, Bytes>, found: seq<Option<Bytes>>, all: bool)

  /** Fetch chunks in order, promoting each; without `allowPartial` the first missing one ends the fetch. */
  function FetchAll<Id(==)>(chunks: A.State<Id, Bytes>, ids: seq<Id>, allowPartial: bool): (r: Fetch<Id>)
    decreases |ids|
  {
    if ids == [] then Fetch(chunks, [], true)
    else
      var got := A.Get(chunks, ids[0]);
      if got.1.None? && !allowPartial then Fetch(got.0, [], false)
      else
        var rest := FetchAll(got.0, ids[1..], allowPartial);
        Fetch(rest.chunks, [got.1] + rest.found, got.1.Some? && rest.all)
  }

  function Get<Id(==)>(m: State<Id>, c: pos, key: Key, opts: ReadOptions, now: int): (r: (State<Id>, ReadResult)) {
    if key !in m.descriptors then (m, MISSED)
    else
      match PlanRead(m.descriptors[key], opts, now)
      case Answered(answer) => (m, answer)
      case Wanted(range) =>
        var fetched := FetchAll(m.chunks, WantedIds(c, m.descriptors[key], range), opts.allowPartial);
        (m.(chunks := fetched.chunks), Conclude(c, true, range, fetched.found, fetched.all, opts.allowPartial))
  }
}
