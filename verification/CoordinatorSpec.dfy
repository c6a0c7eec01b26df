/**
 The two local layers behind one interface, as a value. Either layer may be absent (configured with size zero).
 */
module CoordinatorSpec {
  import opened Options
  import opened Bytes
  import opened Chunking
  import opened Reads
  import M = MemorySpec
  import D = DiskSpec

  datatype State<Id> = State(memory: Option<M.State<Id>>, disk: Option<D.State<Id>>)

  /** What one put reads from the system clock in each layer, and from the steady clock for each stored chunk. */
  datatype PutClock = PutClock(memory: int, disk: int, chunks: seq<int>)

  function Put<Id(==)>(s: State<Id>, c: pos, hash: Bytes -> Id, key: Key, value: Bytes, ttl: Option<nat>,
                       clock: PutClock)
      : (r: (State<Id>, Status))
    requires |clock.chunks| == |Split(c, value)|
  {
    var afterMemory := match s.memory
                       case None => (s, Ok)
                       case Some(m) =>
                         var r := M.Put(m, c, hash, key, value, Expiry(clock.memory, ttl));
                         (s.(memory := Some(r.0)), r.1);
    if afterMemory.1 != Ok then afterMemory
    else match s.disk
         case None => (afterMemory.0, if s.memory.None? then Error(InternalError) else Ok)
         case Some(d) =>
           var r := D.Put(d, c, hash, key, value, Expiry(clock.disk, ttl), clock.chunks);
           (afterMemory.0.(disk := Some(r.0)), r.1)
  }

  function Remove<Id(==)>(s: State<Id>, key: Key): State<Id> {
    State(if s.memory.Some? then Some(M.Remove(s.memory.value, key).0) else None,
          if s.disk.Some? then Some(D.Remove(s.disk.value, key).0) else None)
  }

  /** A layer's result ends the search if it is a hit, or a partial hit and partial data is wanted. */
  predicate Final(r: ReadResult, opts: ReadOptions) {
    r.result == Hit || (r.result == PartialHit && opts.allowPartial)
  }

  /** Memory first, when local reads are preferred; then disk. Each layer reads the clock for itself. */
  function Get<Id(==)>(s: State<Id>, c: pos, preferLocal: bool, key: Key, opts: ReadOptions, now: int, later: int)
      : (r: (State<Id>, ReadResult))
  {
    if s.memory.Some? && preferLocal then
      var r := M.Get(s.memory.value, c, key, opts, now);
      (s.(memory := Some(r.0)), if Final(r.1, opts) then r.1 else FromDisk(s, c, key, opts, later))
    else
      (s, FromDisk(s, c, key, opts, later))
  }

  function FromDisk<Id(==)>(s: State<Id>, c: pos, key: Key, opts: ReadOptions, now: int): (r: ReadResult) {
    if s.disk.None? then MISSED
    else
      var r := D.Get(s.disk.value, c, key, opts, now);
      if Final(r, opts) then r else MISSED
  }
}
