/**
 Position-based writes. An entry is its bytes and a mark per byte; a write overlays a range and marks it. Over any
 sequence of accepted writes every byte is that of the last write that covers it, marked exactly when one does
 (`OverlayIsLastWrite`); disjoint writes commute, so the order of a disjoint set of writes does not matter
 (`DisjointOrderIrrelevant`), and parts of one value written in any order and overlap restore it (`PartsRestore`).
 */
module SparseSpec {
  import opened Options
  import opened Bytes

  datatype Entry = Entry(data: Bytes, written: seq<bool>)

  datatype Write = Write(offset: nat, bytes: Bytes) {
    predicate Covers(k: int) { offset <= k < offset + |bytes| }
  }

  ghost predicate Sized(e: Entry, total: nat) {
    |e.data| == total && |e.written| == total
  }

  function New(total: nat): (e: Entry)
    ensures Sized(e, total)
  {
    Entry(seq(total, _ => 0), seq(total, _ => false))
  }

  /** What the bounds check makes of a write: the sum of offset and length wraps at 64 bits. */
  datatype Verdict = Accepted | Refused | OutOfBounds

  /** The guard of a write: the end, added up in 64 bits, against the size. */
  predicate Passes(total: nat, w: Write) {
    (w.offset + |w.bytes|) % TWO_64 <= total
  }

  function Check(total: nat, w: Write): (v: Verdict) {
    if !Passes(total, w) then Refused
    else if w.offset + |w.bytes| <= total then Accepted
    else OutOfBounds
  }

  lemma EndWraps(end: nat)
    requires end < 2 * TWO_64
    ensures end % TWO_64 == if end < TWO_64 then end else end - TWO_64
  {
  }

  /**
   The guard lets exactly the writes inside the entry through, unless the end wraps to within the size: such a write
   passes and lies outside.
   */
  lemma CheckIsExactIff(total: u64, w: Write)
    requires w.offset < TWO_64 && |w.bytes| < TWO_64
    ensures (Passes(total, w) <==> w.offset + |w.bytes| <= total)
       <==> !(TWO_64 <= w.offset + |w.bytes| <= TWO_64 + total)
    ensures Check(total, w) == OutOfBounds <==> TWO_64 <= w.offset + |w.bytes| <= TWO_64 + total
    ensures Check(total, w) == Accepted <==> w.offset + |w.bytes| <= total
  {
    EndWraps(w.offset + |w.bytes|);
  }

  /** One byte at the last 64-bit offset passes the check of every entry. */
  lemma LastOffsetPasses(total: u64)
    ensures Check(total, Write(TWO_64 - 1, [0])) == OutOfBounds
  {
    CheckIsExactIff(total, Write(TWO_64 - 1, [0]));
  }

  /** Overlay the bytes and mark them. */
  function Overlay(e: Entry, w: Write): (r: Entry)
    requires |e.data| == |e.written| && w.offset + |w.bytes| <= |e.data|
    ensures Sized(r, |e.data|)
    ensures forall k :: 0 <= k < |e.data| ==> r.data[k] == if w.Covers(k) then w.bytes[k - w.offset] else e.data[k]
    ensures forall k :: 0 <= k < |e.data| ==> r.written[k] == (w.Covers(k) || e.written[k])
  {
    var end := w.offset + |w.bytes|;
    Entry(e.data[..w.offset] + w.bytes + e.data[end..],
          e.written[..w.offset] + seq(|w.bytes|, _ => true) + e.written[end..])
  }

  predicate Complete(e: Entry) {
    forall k :: 0 <= k < |e.written| ==> e.written[k]
  }

  // ----- sequences of writes ---------------------------------------------------------------------------------

  ghost predicate AllAccepted(total: nat, writes: seq<Write>) {
    forall i :: 0 <= i < |writes| ==> writes[i].offset + |writes[i].bytes| <= total
  }

  function OverlayAll(total: nat, writes: seq<Write>): (e: Entry)
    requires AllAccepted(total, writes)
    ensures Sized(e, total)
  {
    if writes == [] then New(total)
    else Overlay(OverlayAll(total, writes[..|writes| - 1]), writes[|writes| - 1])
  }

  /** The byte of the last write that covers a position. */
  function LastWrite(writes: seq<Write>, k: nat): Option<byte> {
    if writes == [] then None
    else
      var last := writes[|writes| - 1];
      if last.Covers(k) then Some(last.bytes[k - last.offset]) else LastWrite(writes[..|writes| - 1], k)
  }

  lemma {:induction false} OverlayIsLastWrite(total: nat, writes: seq<Write>, k: nat)
    requires AllAccepted(total, writes) && k < total
    ensures OverlayAll(total, writes).written[k] <==> LastWrite(writes, k).Some?
    ensures OverlayAll(total, writes).data[k] ==
      match LastWrite(writes, k) case Some(b) => b case None => 0
    decreases |writes|
  {
    if writes != [] { OverlayIsLastWrite(total, writes[..|writes| - 1], k); }
  }

  ghost predicate CoveredBy(writes: seq<Write>, k: int) {
    exists i :: 0 <= i < |writes| && writes[i].Covers(k)
  }

  /** A byte is marked exactly when some write covers it. */
  lemma {:induction false} CoveredIffWritten(writes: seq<Write>, k: nat)
    ensures LastWrite(writes, k).Some? <==> CoveredBy(writes, k)
    decreases |writes|
  {
    if writes != [] {
      var shorter := writes[..|writes| - 1];
      CoveredIffWritten(shorter, k);
      if CoveredBy(writes, k) && !writes[|writes| - 1].Covers(k) {
        var i :| 0 <= i < |writes| && writes[i].Covers(k);
        assert shorter[i].Covers(k);
      }
      if CoveredBy(shorter, k) {
        var i :| 0 <= i < |shorter| && shorter[i].Covers(k);
        assert writes[i].Covers(k);
      }
    }
  }

  /** An entry is complete exactly when the writes cover every byte of it. */
  lemma CompleteIffCovered(total: nat, writes: seq<Write>)
    requires AllAccepted(total, writes)
    ensures Complete(OverlayAll(total, writes))
       <==> forall k :: 0 <= k < total ==> CoveredBy(writes, k)
  {
    forall k | 0 <= k < total
      ensures OverlayAll(total, writes).written[k] <==> CoveredBy(writes, k)
    {
      OverlayIsLastWrite(total, writes, k);
      CoveredIffWritten(writes, k);
    }
  }

  // ----- order -----------------------------------------------------------------------------------------------

  ghost predicate Disjoint(a: Write, b: Write) {
    forall k :: a.Covers(k) ==> !b.Covers(k)
  }

  lemma DisjointCommute(e: Entry, a: Write, b: Write)
    requires |e.data| == |e.written| && Disjoint(a, b)
    requires a.offset + |a.bytes| <= |e.data| && b.offset + |b.bytes| <= |e.data|
    ensures Overlay(Overlay(e, a), b) == Overlay(Overlay(e, b), a)
  {
    var ab, ba := Overlay(Overlay(e, a), b), Overlay(Overlay(e, b), a);
    assert ab.data == ba.data;
    assert ab.written == ba.written;
  }

  ghost predicate PairwiseDisjoint(writes: seq<Write>) {
    forall i, j :: 0 <= i < |writes| && 0 <= j < |writes| && i != j ==> Disjoint(writes[i], writes[j])
  }

  /** With disjoint writes, a covered byte is that of the one write that covers it. */
  lemma {:induction false} OnlyWrite(writes: seq<Write>, i: nat, k: nat)
    requires PairwiseDisjoint(writes) && i < |writes| && writes[i].Covers(k)
    ensures LastWrite(writes, k) == Some(writes[i].bytes[k - writes[i].offset])
    decreases |writes|
  {
    if i < |writes| - 1 {
      assert Disjoint(writes[i], writes[|writes| - 1]);
      OnlyWrite(writes[..|writes| - 1], i, k);
    }
  }

  /** Any two orders of the same disjoint writes give the same entry. */
  lemma DisjointOrderIrrelevant(total: nat, one: seq<Write>, other: seq<Write>)
    requires AllAccepted(total, one) && AllAccepted(total, other) && PairwiseDisjoint(one) && PairwiseDisjoint(other)
    requires forall w :: w in one <==> w in other
    ensures OverlayAll(total, one) == OverlayAll(total, other)
  {
    var a, b := OverlayAll(total, one), OverlayAll(total, other);
    forall k | 0 <= k < total ensures a.data[k] == b.data[k] && a.written[k] == b.written[k] {
      SameLastWrite(one, other, k);
      OverlayIsLastWrite(total, one, k);
      OverlayIsLastWrite(total, other, k);
    }
    assert a.data == b.data && a.written == b.written;
  }

  lemma SameLastWrite(one: seq<Write>, other: seq<Write>, k: nat)
    requires PairwiseDisjoint(one) && PairwiseDisjoint(other) && forall w :: w in one <==> w in other
    ensures LastWrite(one, k) == LastWrite(other, k)
  {
    CoveredIffWritten(one, k);
    CoveredIffWritten(other, k);
    if CoveredBy(one, k) {
      var i, j := FindSame(one, other, k);
      OnlyWrite(one, i, k);
      OnlyWrite(other, j, k);
    }
    if CoveredBy(other, k) {
      var j, i := FindSame(other, one, k);
      assert one[i].Covers(k);
    }
  }

  lemma FindSame(one: seq<Write>, other: seq<Write>, k: nat) returns (i: nat, j: nat)
    requires CoveredBy(one, k) && forall w :: w in one ==> w in other
    ensures i < |one| && j < |other| && one[i] == other[j] && one[i].Covers(k)
  {
    i :| 0 <= i < |one| && one[i].Covers(k);
    assert one[i] in one;
    j :| 0 <= j < |other| && other[j] == one[i];
  }

  // ----- restoring a value -----------------------------------------------------------------------------------

  ghost predicate PartOf(w: Write, v: Bytes) {
    forall k :: w.Covers(k) ==> k < |v| && w.bytes[k - w.offset] == v[k]
  }

  ghost predicate AllParts(writes: seq<Write>, v: Bytes) {
    forall i :: 0 <= i < |writes| ==> PartOf(writes[i], v)
  }

  lemma {:induction false} PartsWriteValue(v: Bytes, writes: seq<Write>, k: nat)
    requires AllParts(writes, v) && k < |v| && LastWrite(writes, k).Some?
    ensures LastWrite(writes, k).value == v[k]
    decreases |writes|
  {
    var last := writes[|writes| - 1];
    if last.Covers(k) {
      assert PartOf(last, v);
    } else {
      PartsWriteValue(v, writes[..|writes| - 1], k);
    }
  }

  lemma PartsRestoreAt(v: Bytes, writes: seq<Write>, k: nat)
    requires AllAccepted(|v|, writes) && AllParts(writes, v) && k < |v| && OverlayAll(|v|, writes).written[k]
    ensures OverlayAll(|v|, writes).data[k] == v[k]
  {
    OverlayIsLastWrite(|v|, writes, k);
    PartsWriteValue(v, writes, k);
  }

  /** Parts of one value, in any order and with any overlap, restore it once they cover it. */
  lemma PartsRestore(v: Bytes, writes: seq<Write>)
    requires AllAccepted(|v|, writes) && AllParts(writes, v)
    requires Complete(OverlayAll(|v|, writes))
    ensures OverlayAll(|v|, writes).data == v
  {
    forall k | 0 <= k < |v| ensures OverlayAll(|v|, writes).data[k] == v[k] {
      PartsRestoreAt(v, writes, k);
    }
  }

  // ----- entries by key --------------------------------------------------------------------------------------

  type Entries = map<Bytes, Entry>

  function Create(s: Entries, key: Bytes, total: nat): (r: (Entries, bool)) {
    if key in s then (s, false) else (s[key := New(total)], true)
  }

  /** Refused stands for both a missing key and a range past the end; an unchecked write has no defined effect. */
  function WriteRange(s: Entries, key: Bytes, w: Write): (r: (Entries, Verdict))
    requires key in s ==> |s[key].data| == |s[key].written|
  {
    if key !in s then (s, Refused)
    else
      var v := Check(|s[key].data|, w);
      (if v == Accepted then s[key := Overlay(s[key], w)] else s, v)
  }

  /** Finalizing: 0 and the bytes, 1 if there is no such entry, 2 if some byte is missing. */
  function Finalize(s: Entries, key: Bytes): (r: (Entries, nat, Bytes)) {
    if key !in s then (s, 1, [])
    else if !Complete(s[key]) then (s, 2, [])
    else (s - {key}, 0, s[key].data)
  }
}
