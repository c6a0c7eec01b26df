/**
 The coordinator object over its two layers, and the streams built on it. `Model()` is the coordinator's value;
 its methods are proved against the functions of CoordinatorSpec.
 */
module Coordinators {
  import opened Options
  import opened Bytes
  import opened Chunking
  import opened Reads
  import opened MemoryCaches
  import opened DiskCaches
  import M = MemorySpec
  import D = DiskSpec
  import S = CoordinatorSpec

  class Coordinator<Id(==)> {
    const c: pos
    const hash: Bytes -> Id
    const preferLocal: bool
    const memory: MemoryCache?<Id>
    const disk: DiskCache?<Id>

    ghost const Repr: set<object> :=
      {this} + (if memory == null then {} else memory.Repr) + (if disk == null then {} else {disk})

    ghost predicate Valid()
      reads Repr
    {
      && (memory != null ==> memory.Valid() && memory.c == c && memory.hash == hash)
      && (disk != null ==> disk.c == c && disk.hash == hash)
      && (memory != null && disk != null ==> disk !in memory.Repr)
    }

    ghost function Model(): S.State<Id>
      reads Repr
    {
      S.State(if memory == null then None else Some(memory.Model()), if disk == null then None else Some(disk.Model()))
    }

    /** A layer exists when it is configured with a size other than zero. */
    constructor (c: pos, hash: Bytes -> Id, preferLocal: bool, memorySize: nat, diskConfig: D.Config)
      ensures Valid() && fresh(Repr) && this.c == c && this.hash == hash && this.preferLocal == preferLocal
      ensures Model() == S.State(if memorySize > 0 then Some(M.Empty(memorySize)) else None,
                                 if diskConfig.maxSize > 0 then Some(D.Empty(diskConfig)) else None)
    {
      this.c := c;
      this.hash := hash;
      this.preferLocal := preferLocal;
      if memorySize > 0 {
        memory := new MemoryCache(memorySize, c, hash);
      } else {
        memory := null;
      }
      if diskConfig.maxSize > 0 {
        disk := new DiskCache(diskConfig, c, hash);
      } else {
        disk := null;
      }
    }

    method Put(key: Key, value: Bytes, ttl: Option<nat>, clock: S.PutClock) returns (status: Status)
      requires Valid() && |clock.chunks| == |Split(c, value)|
      modifies Repr
      ensures Valid()
      ensures Model() == S.Put(old(Model()), c, hash, key, value, ttl, clock).0
      ensures status == S.Put(old(Model()), c, hash, key, value, ttl, clock).1
    {
      var wroteToStorage := false;
      if memory != null {
        status := memory.Put(key, value, Expiry(clock.memory, ttl));
        if status != Ok {
          return;
        }
        wroteToStorage := true;
      }
      if disk != null {
        status := disk.Put(key, value, Expiry(clock.disk, ttl), clock.chunks);
        if status != Ok {
          return;
        }
        wroteToStorage := true;
      }
      status := if wroteToStorage then Ok else Error(InternalError);
    }

    method Remove(key: Key) returns (status: Status)
      requires Valid()
      modifies Repr
      ensures Valid() && Model() == S.Remove(old(Model()), key) && status == Ok
    {
      if memory != null {
        var _ := memory.Remove(key);
      }
      if disk != null {
        var _ := disk.Remove(key);
      }
      status := Ok;
    }

    method GetFromDisk(key: Key, opts: ReadOptions, now: int) returns (r: ReadResult)
      requires Valid()
      ensures r == S.FromDisk(Model(), c, key, opts, now)
    {
      r := MISSED;
      if disk != null {
        var fromDisk := disk.Get(key, opts, now);
        if S.Final(fromDisk, opts) {
          r := fromDisk;
        }
      }
    }

    method Get(key: Key, opts: ReadOptions, now: int, later: int) returns (r: ReadResult)
      requires Valid()
      modifies Repr
      ensures Valid()
      ensures Model() == S.Get(old(Model()), c, preferLocal, key, opts, now, later).0
      ensures r == S.Get(old(Model()), c, preferLocal, key, opts, now, later).1
    {
      if memory != null && preferLocal {
        r := memory.Get(key, opts, now);
        if S.Final(r, opts) {
          return;
        }
      }
      r := GetFromDisk(key, opts, later);
    }
  }

  // ----- streams ---------------------------------------------------------------------------------------------

  /** Writes are cut into chunks as they arrive; finishing puts the whole. */
  class WriteStream<Id(==)> {
    const coordinator: Coordinator<Id>
    const key: Key
    const ttl: Option<nat>
    var buffer: Bytes
    var chunks: seq<Bytes>
    ghost var written: Bytes

    /** What was written is in the chunks, all of them full, and the buffer, which is not. */
    ghost predicate Valid()
      reads this
    {
      && Concat(chunks) + buffer == written
      && (forall i :: 0 <= i < |chunks| ==> |chunks[i]| == coordinator.c)
      && |buffer| < coordinator.c
    }

    constructor (coordinator: Coordinator<Id>, key: Key, ttl: Option<nat>)
      ensures Valid() && written == [] && this.coordinator == coordinator && this.key == key && this.ttl == ttl
    {
      this.coordinator := coordinator;
      this.key := key;
      this.ttl := ttl;
      buffer := [];
      chunks := [];
      written := [];
    }

    method Write(piece: Bytes)
      requires Valid()
      modifies this
      ensures Valid() && written == old(written) + piece
    {
      written := written + piece;
      buffer := buffer + piece;
      assert Concat(chunks) + buffer == written;
      while |buffer| >= coordinator.c
        invariant Concat(chunks) + buffer == written && written == old(written) + piece
        invariant forall i :: 0 <= i < |chunks| ==> |chunks[i]| == coordinator.c
        decreases |buffer|
      {
        var full := buffer[..coordinator.c];
        ConcatAppend(chunks, full);
        assert full + buffer[coordinator.c..] == buffer;
        chunks := chunks + [full];
        buffer := buffer[coordinator.c..];
      }
    }

    /** Finishing stores exactly what was written, as one put. */
    method Finish(clock: S.PutClock) returns (status: Status)
      requires Valid() && coordinator.Valid() && this !in coordinator.Repr
      requires |clock.chunks| == |Split(coordinator.c, written)|
      modifies this, coordinator.Repr
      ensures coordinator.Valid()
      ensures var r := S.Put(old(coordinator.Model()), coordinator.c, coordinator.hash, key, old(written), ttl, clock);
              coordinator.Model() == r.0 && status == r.1
    {
      Flush();
      var full := Join(chunks);
      status := coordinator.Put(key, full, ttl, clock);
    }

    method Flush()
      requires Valid()
      modifies this
      ensures Concat(chunks) == old(written)
    {
      ConcatAppend(chunks, buffer);
      if buffer != [] {
        chunks := chunks + [buffer];
        buffer := [];
      }
    }
  }

  lemma {:induction false} ConcatAppend(parts: seq<Bytes>, last: Bytes)
    ensures Concat(parts + [last]) == Concat(parts) + last
  {
    if parts == [] {
      assert parts + [last] == [last] && [last][1..] == [];
    } else {
      assert (parts + [last])[1..] == parts[1..] + [last];
      ConcatAppend(parts[1..], last);
    }
  }

  method Join(parts: seq<Bytes>) returns (whole: Bytes)
    ensures whole == Concat(parts)
  {
    whole := [];
    for i := 0 to |parts|
      invariant whole == Concat(parts[..i])
    {
      assert parts[..i + 1] == parts[..i] + [parts[i]];
      ConcatAppend(parts[..i], parts[i]);
      whole := whole + parts[i];
    }
    assert parts[..|parts|] == parts;
  }

  /** A result handed out piece by piece. */
  class ReadStream {
    const data: Bytes
    var position: nat

    ghost predicate Valid()
      reads this
    {
      position <= |data|
    }

    constructor (data: Bytes)
      ensures Valid() && position == 0 && this.data == data
    {
      this.data := data;
      position := 0;
    }

    /** Successive reads partition the data: this piece continues where the last one ended. */
    method Read(maxBytes: nat) returns (piece: Bytes)
      requires Valid()
      modifies this
      ensures Valid() && data[..position] == data[..old(position)] + piece
      ensures |piece| <= maxBytes && (|piece| < maxBytes ==> position == |data|)
    {
      var toRead := Min(maxBytes, |data| - position);
      piece := data[position..position + toRead];
      position := position + toRead;
    }

    predicate Eof()
      reads this
    {
      position >= |data|
    }
  }
}
