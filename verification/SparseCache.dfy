/** Sparse entries, with their bytes and marks changed in place, and the cache of them by key. */
module SparseCaches {
  import opened Bytes
  import S = SparseSpec

  class SparseEntry {
    const totalSize: nat
    const data: array<byte>
    const written: array<bool>

    ghost function Model(): S.Entry
      reads this, data, written
    {
      S.Entry(data[..], written[..])
    }

    ghost predicate Valid()
      reads this
    {
      data.Length == written.Length == totalSize
    }

    constructor (size: nat)
      ensures Valid() && totalSize == size && Model() == S.New(size) && fresh(data) && fresh(written)
    {
      totalSize := size;
      data := new byte[size](_ => 0);
      written := new bool[size](_ => false);
      new;
      assert data[..] == S.New(size).data && written[..] == S.New(size).written;
    }

    /** Copy the bytes in and mark them. */
    method Fill(w: S.Write)
      requires Valid() && w.offset + |w.bytes| <= totalSize
      modifies data, written
      ensures Model() == S.Overlay(old(Model()), w)
    {
      for i := 0 to |w.bytes|
        invariant forall k :: 0 <= k < totalSize ==>
          data[k] == if w.offset <= k < w.offset + i then w.bytes[k - w.offset] else old(data[k])
        invariant forall k :: 0 <= k < totalSize ==> written[k] == old(written[k])
      {
        data[w.offset + i] := w.bytes[i];
      }
      for i := 0 to |w.bytes|
        invariant forall k :: 0 <= k < totalSize ==>
          written[k] == (w.offset <= k < w.offset + i || old(written[k]))
        invariant data[..] == S.Overlay(old(Model()), w).data
      {
        written[w.offset + i] := true;
      }
      assert written[..] == S.Overlay(old(Model()), w).written;
    }

    method WriteRange(w: S.Write) returns (v: S.Verdict)
      requires Valid()
      modifies data, written
      ensures v == S.Check(totalSize, w)
      ensures Model() == if v == S.Accepted then S.Overlay(old(Model()), w) else old(Model())
    {
      if (w.offset + |w.bytes|) % TWO_64 > totalSize { return S.Refused; }
      if w.offset + |w.bytes| > totalSize { return S.OutOfBounds; }
      Fill(w);
      v := S.Accepted;
    }

    method IsComplete() returns (r: bool)
      requires Valid()
      ensures r == S.Complete(Model())
    {
      for i := 0 to totalSize
        invariant forall k :: 0 <= k < i ==> written[k]
      {
        if !written[i] {
          assert !Model().written[i];
          return false;
        }
      }
      r := true;
    }
  }

  class SparseCache {
    var entries: map<Bytes, SparseEntry>
    ghost var Repr: set<object>

    ghost predicate Valid()
      reads this, Repr
    {
      && this in Repr
      && (forall k :: k in entries ==>
            entries[k] in Repr && entries[k].data in Repr && entries[k].written in Repr && entries[k].Valid())
      && (forall j, k :: j in entries && k in entries && j != k ==>
            entries[j].data != entries[k].data && entries[j].written != entries[k].written)
    }

    ghost function Model(): S.Entries
      requires Valid()
      reads this, Repr
    {
      map k | k in entries :: entries[k].Model()
    }

    constructor ()
      ensures Valid() && fresh(Repr) && Model() == map[]
    {
      entries := map[];
      Repr := {this};
    }

    /** File a new entry under a key. */
    method Store(key: Bytes, entry: SparseEntry)
      requires Valid() && key !in entries && entry.Valid()
      requires {entry, entry.data, entry.written} !! Repr
      modifies this
      ensures Valid() && Repr == old(Repr) + {entry, entry.data, entry.written}
      ensures Model() == old(Model())[key := old(entry.Model())]
    {
      entries := entries[key := entry];
      Repr := Repr + {entry, entry.data, entry.written};
    }

    method Create(key: Bytes, totalSize: nat) returns (created: bool)
      requires Valid()
      modifies Repr
      ensures Valid() && fresh(Repr - old(Repr))
      ensures Model() == S.Create(old(Model()), key, totalSize).0
      ensures created == S.Create(old(Model()), key, totalSize).1
    {
      if key in entries { return false; }
      var entry := new SparseEntry(totalSize);
      Store(key, entry);
      created := true;
    }

    method WriteEntry(key: Bytes, w: S.Write) returns (v: S.Verdict)
      requires Valid() && key in entries
      modifies Repr
      ensures Valid() && Repr == old(Repr)
      ensures v == S.Check(|old(Model())[key].data|, w)
      ensures v == S.Accepted ==> Model() == old(Model())[key := S.Overlay(old(Model())[key], w)]
      ensures v != S.Accepted ==> Model() == old(Model())
    {
      var entry := entries[key];
      v := entry.WriteRange(w);
      assert forall k :: k in entries && k != key ==> entries[k].Model() == old(entries[k].Model());
      assert Model() == old(Model())[key := entry.Model()];
    }

    method WriteRange(key: Bytes, w: S.Write) returns (v: S.Verdict)
      requires Valid()
      modifies Repr
      ensures Valid() && Repr == old(Repr)
      ensures Model() == S.WriteRange(old(Model()), key, w).0 && v == S.WriteRange(old(Model()), key, w).1
    {
      if key !in entries { return S.Refused; }
      v := WriteEntry(key, w);
    }

    method Erase(key: Bytes)
      requires Valid()
      modifies this
      ensures Valid() && Repr == old(Repr) && Model() == old(Model()) - {key}
    {
      entries := entries - {key};
    }

    method Finalize(key: Bytes) returns (code: nat, data: Bytes)
      requires Valid()
      modifies Repr
      ensures Valid() && Repr == old(Repr)
      ensures Model() == S.Finalize(old(Model()), key).0
      ensures code == S.Finalize(old(Model()), key).1 && data == S.Finalize(old(Model()), key).2
    {
      if key !in entries { return 1, []; }
      var complete := entries[key].IsComplete();
      if !complete { return 2, []; }
      code, data := 0, entries[key].data[..];
      Erase(key);
    }

    method Exists(key: Bytes) returns (r: bool)
      requires Valid()
      ensures r <==> key in Model()
    {
      r := key in entries;
    }

    /** Abort: drop an entry without finalizing it. */
    method Remove(key: Bytes) returns (removed: bool)
      requires Valid()
      modifies Repr
      ensures Valid() && Repr == old(Repr)
      ensures Model() == old(Model()) - {key} && removed == (key in old(Model()))
    {
      removed := key in entries;
      Erase(key);
    }
  }
}
