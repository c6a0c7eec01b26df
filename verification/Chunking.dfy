/**
 Chunk arithmetic: how a value is cut into chunks, which chunks a byte range needs, how a range is tiled by
 pieces of chunks, and how fetched chunks are put together again. The chunk size `c` is any positive number.
 */
module Chunking {
  import opened Bytes

  // ----- arithmetic ------------------------------------------------------------------------------------------

  lemma DivIs(x: nat, c: pos, k: nat)
    requires k * c <= x < k * c + c
    ensures x / c == k
  {
    var q := x / c;
    assert q * c <= x < q * c + c;
    if q < k { MulLe(q + 1, k, c); }
    if k < q { MulLe(k + 1, q, c); }
  }

  lemma MulLe(a: nat, b: nat, c: pos)
    requires a <= b
    ensures a * c <= b * c
  {
  }

  lemma DivBounds(x: nat, c: pos)
    ensures (x / c) * c <= x < (x / c) * c + c
    ensures x % c == x - (x / c) * c
  {
  }

  lemma MulCancel(a: nat, b: nat, c: pos)
    requires a * c < b * c
    ensures a < b
  {
    if b <= a { MulLe(b, a, c); }
  }

  lemma DivMonotone(x: nat, y: nat, c: pos)
    requires x <= y
    ensures x / c <= y / c
  {
    DivBounds(x, c);
    DivBounds(y, c);
    MulPred(y / c + 1, c);
    MulCancel(x / c, y / c + 1, c);
  }

  lemma MulPred(k: nat, c: pos)
    requires k > 0
    ensures k * c == (k - 1) * c + c && k * c >= c
  {
    MulLe(1, k, c);
  }

  function ChunkCount(c: pos, size: nat): nat {
    (size + c - 1) / c
  }

  /** Chunk `k` of a value exists exactly when its first byte does. */
  lemma CountIsExact(c: pos, size: nat, k: nat)
    ensures k < ChunkCount(c, size) <==> k * c < size
  {
    var n := ChunkCount(c, size);
    DivBounds(size + c - 1, c);
    if k < n { MulLe(k + 1, n, c); }
    if n <= k { MulLe(n, k, c); }
  }

  // ----- splitting -------------------------------------------------------------------------------------------

  /** The chunks of a value, in order: all of size `c` except the last, which holds the rest. */
  function Split(c: pos, v: Bytes): (chunks: seq<Bytes>)
    decreases |v|
  {
    if v == [] then []
    else var n := Min(c, |v|); [v[..n]] + Split(c, v[n..])
  }

  /** `k * c`, by repeated addition. */
  function Times(c: pos, k: nat): nat {
    if k == 0 then 0 else Times(c, k - 1) + c
  }

  lemma {:induction false} TimesIs(c: pos, k: nat)
    ensures Times(c, k) == k * c
    decreases k
  {
    if k > 0 {
      TimesIs(c, k - 1);
      MulPred(k, c);
    }
  }

  lemma SliceOfTail(v: Bytes, n: nat, lo: nat, hi: nat)
    requires n <= lo <= hi <= |v|
    ensures v[n..][lo - n..hi - n] == v[lo..hi]
  {
  }

  lemma {:induction false} SplitAtTimes(c: pos, v: Bytes, k: nat)
    requires Times(c, k) < |v|
    ensures k < |Split(c, v)| && Split(c, v)[k] == v[Times(c, k)..Min(Times(c, k) + c, |v|)]
    decreases k
  {
    if k > 0 {
      SplitAtTimes(c, v[c..], k - 1);
      SliceOfTail(v, c, Times(c, k), Min(Times(c, k) + c, |v|));
    }
  }

  lemma SplitAt(c: pos, v: Bytes, k: nat, lo: nat)
    requires lo == k * c && lo < |v|
    ensures k < |Split(c, v)| && Split(c, v)[k] == v[lo..Min(lo + c, |v|)]
  {
    TimesIs(c, k);
    SplitAtTimes(c, v, k);
  }

  lemma {:induction false} SplitCount(c: pos, v: Bytes)
    ensures |Split(c, v)| == ChunkCount(c, |v|)
    decreases |v|
  {
    if |v| > c {
      SplitCount(c, v[c..]);
      CountStep(c, |v|);
    } else if v != [] {
      assert v[|v|..] == [];
      DivIs(|v| + c - 1, c, 1);
    } else {
      DivIs(c - 1, c, 0);
    }
  }

  lemma CountStep(c: pos, size: nat)
    requires size > c
    ensures ChunkCount(c, size) == ChunkCount(c, size - c) + 1
  {
    var q := (size - 1) / c;
    DivBounds(size - 1, c);
    MulPred(q + 1, c);
    DivIs(size + c - 1, c, q + 1);
  }

  function Concat(parts: seq<Bytes>): Bytes {
    if parts == [] then [] else parts[0] + Concat(parts[1..])
  }

  /** The chunks of a value put end to end are the value. */
  lemma {:induction false} SplitConcat(c: pos, v: Bytes)
    ensures Concat(Split(c, v)) == v
    ensures forall i :: 0 <= i < |Split(c, v)| ==> 0 < |Split(c, v)[i]| <= c
    decreases |v|
  {
    if v != [] {
      var n := Min(c, |v|);
      SplitConcat(c, v[n..]);
      assert Split(c, v)[1..] == Split(c, v[n..]);
      assert v[..n] + v[n..] == v;
    }
  }

  /** Cut the chunk at an offset off a value. */
  method NextChunk(c: pos, v: Bytes, offset: nat) returns (data: Bytes)
    requires offset < |v|
    ensures 0 < |data| <= |v| - offset
    ensures Split(c, v[offset..]) == [data] + Split(c, v[offset + |data|..])
  {
    var chunkSize := Min(c, |v| - offset);
    data := v[offset..offset + chunkSize];
    assert v[offset..][chunkSize..] == v[offset + chunkSize..] && v[offset..][..chunkSize] == data;
  }

  method SplitValue(c: pos, value: Bytes) returns (chunks: seq<Bytes>)
    ensures chunks == Split(c, value)
  {
    chunks := [];
    var offset := 0;
    assert value[0..] == value;
    while offset < |value|
      invariant 0 <= offset <= |value|
      invariant chunks + Split(c, value[offset..]) == Split(c, value)
    {
      var chunk := NextChunk(c, value, offset);
      AppendOne(chunks, chunk, Split(c, value[offset + |chunk|..]));
      chunks := chunks + [chunk];
      offset := offset + |chunk|;
    }
    assert value[offset..] == [];
  }

  // ----- the chunks a range needs ----------------------------------------------------------------------------

  function Interval(lo: nat, hi: nat): (s: seq<nat>)
    ensures |s| == Max(hi - lo, 0) && forall i :: 0 <= i < |s| ==> s[i] == lo + i
  {
    if lo < hi then seq(hi - lo, i requires 0 <= i < hi - lo => lo + i) else []
  }

  /** The chunk indices a read of the range fetches, for a value of `total` bytes listing `count` chunks. */
  function ChunksForRange(c: pos, total: nat, count: nat, range: Range): (s: seq<nat>) {
    if range.length == 0 || range.offset >= total then []
    else
      var endOffset := Min(range.End(), total);
      var endChunk := if endOffset > 0 then (endOffset - 1) / c else 0;
      Interval(range.offset / c, Min(endChunk + 1, count))
  }

  method FindChunks(c: pos, total: nat, count: nat, range: Range) returns (result: seq<nat>)
    ensures result == ChunksForRange(c, total, count, range)
  {
    result := [];
    if range.length == 0 || range.offset >= total {
      return;
    }
    var startChunk := range.offset / c;
    var endOffset := Min(range.End(), total);
    var endChunk := if endOffset > 0 then (endOffset - 1) / c else 0;
    var i := startChunk;
    while i <= endChunk && i < count
      invariant startChunk <= i
      invariant i > startChunk ==> i <= endChunk + 1 && i <= count
      invariant result == Interval(startChunk, i)
      decreases count - i
    {
      result := result + [i];
      i := i + 1;
    }
  }

  /** Inside a complete value, the needed chunks run from the first byte's to the last byte's. */
  lemma ChunksRun(c: pos, total: nat, range: Range)
    requires !range.Wraps() && range.length > 0 && range.offset < total
    ensures var last := Min(range.offset + range.length, total) - 1;
            && ChunksForRange(c, total, ChunkCount(c, total), range) == Interval(range.offset / c, last / c + 1)
            && range.offset / c <= last / c < ChunkCount(c, total)
  {
    var last := Min(range.offset + range.length, total) - 1;
    assert range.End() == range.offset + range.length;
    DivBounds(last, c);
    CountIsExact(c, total, last / c);
    DivMonotone(range.offset, last, c);
  }

  /** A chunk is needed exactly when it holds some byte of the range inside the value. */
  lemma ChunksForRangeExact(c: pos, total: nat, range: Range, k: nat)
    requires !range.Wraps()
    ensures k in ChunksForRange(c, total, ChunkCount(c, total), range) <==> HoldsByte(c, total, range, k)
  {
    if range.length > 0 && range.offset < total {
      var first, last := range.offset, Min(range.offset + range.length, total) - 1;
      ChunksRun(c, total, range);
      InInterval(first / c, last / c + 1, k);
      if first / c <= k <= last / c {
        var b := ByteInChunk(c, first, last, k);
        assert range.Covers(b);
      }
      forall b: nat | first <= b <= last ensures first / c <= b / c <= last / c {
        DivMonotone(first, b, c);
        DivMonotone(b, last, c);
      }
    }
  }

  ghost predicate HoldsByte(c: pos, total: nat, range: Range, k: nat) {
    exists b: nat :: b < total && range.Covers(b) && b / c == k
  }

  lemma InInterval(lo: nat, hi: nat, k: nat)
    ensures k in Interval(lo, hi) <==> lo <= k < hi
  {
    if lo <= k < hi { assert Interval(lo, hi)[k - lo] == k; }
  }

  lemma StartBetween(c: pos, first: nat, last: nat, p: nat, k: nat, q: nat)
    requires first < p * c + c && q * c <= last && p < k <= q
    ensures first < k * c <= last
  {
    MulPred(p + 1, c);
    MulLe(p + 1, k, c);
    MulLe(k, q, c);
  }

  lemma StartOfChunk(c: pos, k: nat)
    ensures k * c / c == k
  {
    DivIs(k * c, c, k);
  }

  /** Every chunk between two bytes' chunks holds a byte between them. */
  lemma ByteInChunk(c: pos, first: nat, last: nat, k: nat) returns (b: nat)
    requires first <= last && first / c <= k <= last / c
    ensures first <= b <= last && b / c == k
  {
    if k == first / c {
      b := first;
    } else {
      b := k * c;
      DivBounds(first, c);
      DivBounds(last, c);
      StartBetween(c, first, last, first / c, k, last / c);
      StartOfChunk(c, k);
    }
  }

  // ----- tiling a range by pieces of chunks ------------------------------------------------------------------

  datatype Piece = Piece(index: nat, offset: nat, length: nat) {
    /** The position in the value of the piece's first byte. */
    function Start(c: pos): nat { index * c + offset }
  }

  function Tiles(c: pos, offset: nat, length: nat): (pieces: seq<Piece>)
    decreases length
  {
    if length == 0 then []
    else
      var inChunk := offset % c;
      var n := Min(length, c - inChunk);
      [Piece(offset / c, inChunk, n)] + Tiles(c, offset + n, length - n)
  }

  lemma TilesStep(c: pos, offset: nat, length: nat)
    requires length > 0
    ensures var n := Min(length, c - offset % c);
            && 0 < n <= length
            && Tiles(c, offset, length) == [Piece(offset / c, offset % c, n)] + Tiles(c, offset + n, length - n)
  {
  }

  /** The chunk that holds a byte, and the byte's offset in it. */
  method Locate(c: pos, offset: nat) returns (index: nat, inChunk: nat)
    ensures index == offset / c && inChunk == offset % c
    ensures inChunk < c && index * c + inChunk == offset
  {
    index, inChunk := offset / c, offset % c;
  }

  method ComputePieces(c: pos, range: Range) returns (ranges: seq<Piece>)
    requires !range.Wraps()
    ensures ranges == Tiles(c, range.offset, range.length)
  {
    ranges := [];
    var current, remaining := range.offset, range.length;
    while remaining > 0
      invariant 0 <= current && 0 <= remaining && current + remaining == range.offset + range.length
      invariant ranges + Tiles(c, current, remaining) == Tiles(c, range.offset, range.length)
      decreases remaining
    {
      TilesStep(c, current, remaining);
      var index, inChunk := Locate(c, current);
      var available := c - inChunk;
      var toRead := Min(remaining, available);
      var piece := Piece(index, inChunk, toRead);
      AppendOne(ranges, piece, Tiles(c, current + toRead, remaining - toRead));
      ranges := ranges + [piece];
      current := current + toRead;
      remaining := remaining - toRead;
    }
  }

  /** The pieces are nonempty, stay inside their chunks, follow each other chunk by chunk and byte by byte. */
  ghost predicate Tiling(c: pos, pieces: seq<Piece>, offset: nat, length: nat) {
    && (forall i :: 0 <= i < |pieces| ==> 0 < pieces[i].length && pieces[i].offset + pieces[i].length <= c)
    && (forall i :: 0 <= i < |pieces| ==> pieces[i].index == offset / c + i)
    && (forall i :: 0 <= i < |pieces| - 1 ==>
          pieces[i].Start(c) + pieces[i].length == pieces[i + 1].Start(c))
    && (pieces == [] <==> length == 0)
    && (pieces != [] ==> pieces[0].Start(c) == offset
                         && pieces[|pieces| - 1].Start(c) + pieces[|pieces| - 1].length == offset + length)
  }

  lemma {:induction false} TilesTile(c: pos, offset: nat, length: nat)
    ensures Tiling(c, Tiles(c, offset, length), offset, length)
    decreases length
  {
    if length > 0 {
      TilesStep(c, offset, length);
      DivBounds(offset, c);
      var n := Min(length, c - offset % c);
      TilesTile(c, offset + n, length - n);
      TilesCons(c, offset, offset / c, offset % c, n, length, Tiles(c, offset + n, length - n),
                Tiles(c, offset, length));
    }
  }

  lemma TilesCons(c: pos, offset: nat, q: nat, r: nat, n: nat, length: nat, rest: seq<Piece>,
                  pieces: seq<Piece>)
    requires r < c && offset == q * c + r && offset / c == q
    requires 0 < n <= length && n == Min(length, c - r) && Tiling(c, rest, offset + n, length - n)
    requires pieces == [Piece(q, r, n)] + rest
    ensures Tiling(c, pieces, offset, length)
  {
    if rest != [] {
      MulPred(q + 1, c);
      DivIs(offset + n, c, q + 1);
    }
  }

  /** The pieces name the same chunks as `ChunksForRange`, when the range lies inside a complete value. */
  lemma TilesNameTheChunks(c: pos, total: nat, range: Range)
    requires !range.Wraps() && range.offset + range.length <= total
    ensures var pieces := Tiles(c, range.offset, range.length);
            var indices := ChunksForRange(c, total, ChunkCount(c, total), range);
            |pieces| == |indices| && forall i :: 0 <= i < |pieces| ==> pieces[i].index == indices[i]
  {
    var pieces := Tiles(c, range.offset, range.length);
    TilesTile(c, range.offset, range.length);
    if range.length > 0 {
      ChunksRun(c, total, range);
      var p := pieces[|pieces| - 1];
      DivIs(range.offset + range.length - 1, c, p.index);
    }
  }
}
