/**
 What comes out when chunks are missing, exactly. The memory loop returns the bytes of the found chunks that lie in the
 range, except that a range that starts inside a missing chunk loses the same stretch at the start of the first chunk
 that is found (`MemoryGaps`). The disk loop puts the found chunks end to end and takes as many bytes as were asked for,
 so it may return bytes from beyond the range (`DiskGaps`, `DiskReturnsBeyond`).
 */
module AssemblyGaps {
  import opened Options
  import opened Bytes
  import opened Chunking
  import opened Assembly

  // ----- memory ----------------------------------------------------------------------------------------------

  /** What the chunk at a position contributes, found or not. */
  type Pieces = (nat, bool) -> Bytes

  /** The pieces of chunks end to end, where `chunks[i]` is at `start`. */
  ghost function Joined(piece: Pieces, c: pos, start: nat, chunks: seq<Option<Bytes>>, i: nat): Bytes
    requires i <= |chunks|
    decreases |chunks| - i
  {
    if i == |chunks| then [] else piece(start, chunks[i].Some?) + Joined(piece, c, start + c, chunks, i + 1)
  }

  /** The part of a found chunk that lies between `low` and `high`; nothing of a missing one. */
  ghost function Between(c: pos, v: Bytes, low: nat, high: nat): Pieces
    requires high <= |v|
  {
    (start: nat, found: bool) =>
      var from, to := Max(low, start), Min(high, start + c); if found && from < to then v[from..to] else []
  }

  /** The bytes of a value from `low` to `high` that lie in found chunks, where `chunks[i]` starts at `start`. */
  ghost function FoundBytes(c: pos, v: Bytes, start: nat, chunks: seq<Option<Bytes>>, i: nat, low: nat, high: nat)
    : Bytes
    requires i <= |chunks| && high <= |v|
  {
    Joined(Between(c, v, low, high), c, start, chunks, i)
  }

  /** The bytes of the missing chunks before the first one found. */
  ghost function LeadingGap(c: pos, chunks: seq<Option<Bytes>>, i: nat): nat
    decreases |chunks| - i
  {
    if i < |chunks| && chunks[i].None? then c + LeadingGap(c, chunks, i + 1) else 0
  }

  lemma {:induction false} JoinedNothing(piece: Pieces, c: pos, start: nat, chunks: seq<Option<Bytes>>, i: nat)
    requires i <= |chunks| && forall s: nat, found :: s >= start ==> piece(s, found) == []
    ensures Joined(piece, c, start, chunks, i) == []
    decreases |chunks| - i
  {
    if i < |chunks| { JoinedNothing(piece, c, start + c, chunks, i + 1); }
  }

  /** Pieces that agree from the first found chunk on give the same. */
  lemma {:induction false} JoinedSame(p: Pieces, q: Pieces, c: pos, start: nat, chunks: seq<Option<Bytes>>, i: nat)
    requires i <= |chunks| && (forall s: nat :: p(s, false) == [] && q(s, false) == [])
    requires forall s: nat :: s >= start + LeadingGap(c, chunks, i) ==> p(s, true) == q(s, true)
    ensures Joined(p, c, start, chunks, i) == Joined(q, c, start, chunks, i)
    decreases |chunks| - i
  {
    if i < |chunks| {
      if chunks[i].Some? {
        assert forall s: nat :: s >= start + c + LeadingGap(c, chunks, i + 1) ==> p(s, true) == q(s, true);
        assert p(start, true) == q(start, true);
      }
      JoinedSame(p, q, c, start + c, chunks, i + 1);
    }
  }

  lemma {:induction false} FoundNothing(c: pos, v: Bytes, start: nat, chunks: seq<Option<Bytes>>, i: nat, low: nat,
                                        high: nat)
    requires i <= |chunks| && high <= |v| && (high <= low || high <= start)
    ensures FoundBytes(c, v, start, chunks, i, low, high) == []
  {
    var piece := Between(c, v, low, high);
    forall s: nat, found: bool | s >= start ensures piece(s, found) == [] {
      assert Max(low, s) >= Min(high, s + c);
    }
    JoinedNothing(piece, c, start, chunks, i);
  }

  /** Up to the first found chunk it makes no difference where one starts. */
  lemma FoundSame(c: pos, v: Bytes, start: nat, chunks: seq<Option<Bytes>>, i: nat, low: nat, high: nat)
    requires i <= |chunks| && high <= |v| && low <= start + LeadingGap(c, chunks, i)
    ensures FoundBytes(c, v, start, chunks, i, low, high)
         == FoundBytes(c, v, start, chunks, i, start + LeadingGap(c, chunks, i), high)
  {
    var gap := start + LeadingGap(c, chunks, i);
    var p, q := Between(c, v, low, high), Between(c, v, gap, high);
    forall s: nat | s >= gap ensures p(s, true) == q(s, true) {
      assert Max(low, s) == s == Max(gap, s);
    }
    JoinedSame(p, q, c, start, chunks, i);
  }

  /** A missing chunk adds nothing. */
  lemma JoinedMissing(piece: Pieces, c: pos, start: nat, chunks: seq<Option<Bytes>>, i: nat)
    requires i < |chunks| && chunks[i].None? && piece(start, false) == []
    ensures Joined(piece, c, start, chunks, i) == Joined(piece, c, start + c, chunks, i + 1)
  {
    assert [] + Joined(piece, c, start + c, chunks, i + 1) == Joined(piece, c, start + c, chunks, i + 1);
  }

  lemma {:induction false} MemoryAssembles(c: pos, v: Bytes, start: nat, chunks: seq<Option<Bytes>>, i: nat,
                                           current: nat, remaining: nat)
    requires i <= |chunks| && OwnChunks(c, v, start, chunks, i) && Placed(c, v, start, current, remaining)
    ensures Assemble(c, true, start, chunks, i, current, remaining)
         == FoundBytes(c, v, start, chunks, i, current + LeadingGap(c, chunks, i), current + remaining)
    decreases |chunks| - i, 1
  {
    if remaining == 0 {
      FoundNothing(c, v, start, chunks, i, current + LeadingGap(c, chunks, i), current);
    } else if i < |chunks| {
      if chunks[i].None? {
        MemoryOver(c, v, start, chunks, i, current, remaining);
      } else {
        MemoryWith(c, v, start, chunks, i, current, remaining);
        assert LeadingGap(c, chunks, i) == 0;
      }
    }
  }

  lemma {:induction false} MemoryOver(c: pos, v: Bytes, start: nat, chunks: seq<Option<Bytes>>, i: nat, current: nat,
                                      remaining: nat)
    requires i < |chunks| && chunks[i].None? && remaining > 0
    requires OwnChunks(c, v, start, chunks, i) && Placed(c, v, start, current, remaining)
    ensures Assemble(c, true, start, chunks, i, current, remaining)
         == FoundBytes(c, v, start, chunks, i, current + LeadingGap(c, chunks, i), current + remaining)
    decreases |chunks| - i, 0
  {
    MissingStep(c, start, chunks, i, current, remaining);
    var low := current + c + LeadingGap(c, chunks, i + 1);
    JoinedMissing(Between(c, v, low, current + remaining), c, start, chunks, i);
    if remaining > c {
      MemoryAssembles(c, v, start + c, chunks, i + 1, current + c, remaining - c);
    } else {
      FoundNothing(c, v, start + c, chunks, i + 1, low, current + remaining);
    }
  }

  lemma {:induction false} MemoryWith(c: pos, v: Bytes, start: nat, chunks: seq<Option<Bytes>>, i: nat, current: nat,
                                      remaining: nat)
    requires i < |chunks| && chunks[i].Some? && remaining > 0
    requires OwnChunks(c, v, start, chunks, i) && Placed(c, v, start, current, remaining)
    ensures Assemble(c, true, start, chunks, i, current, remaining)
         == FoundBytes(c, v, start, chunks, i, current, current + remaining)
    decreases |chunks| - i, 0
  {
    OwnStep(c, true, v, start, chunks, i, current, remaining);
    var n := Stretch(c, v, start, current, remaining);
    MemoryAssembles(c, v, start + c, chunks, i + 1, current + n, remaining - n);
    WithFirst(c, v, start, chunks, i, current, n, current + remaining,
              Assemble(c, true, start + c, chunks, i + 1, current + n, remaining - n),
              Assemble(c, true, start, chunks, i, current, remaining));
  }

  lemma WithFirst(c: pos, v: Bytes, start: nat, chunks: seq<Option<Bytes>>, i: nat, current: nat, n: nat, end: nat,
                  rest: Bytes, all: Bytes)
    requires i < |chunks| && chunks[i].Some? && start <= current
    requires n > 0 && current + n == Min(end, start + c) && end <= |v|
    requires rest == FoundBytes(c, v, start + c, chunks, i + 1, current + n + LeadingGap(c, chunks, i + 1), end)
    requires all == v[current..current + n] + rest
    ensures all == FoundBytes(c, v, start, chunks, i, current, end)
  {
    RestFound(c, v, start, chunks, i, current, n, end);
    FoundFirst(c, v, start, chunks, i, current, n, end);
    SameAfter(v[current..current + n], rest, FoundBytes(c, v, start + c, chunks, i + 1, current, end), all,
              FoundBytes(c, v, start, chunks, i, current, end));
  }

  /** Part of a chunk that was found. */
  lemma FoundFirst(c: pos, v: Bytes, start: nat, chunks: seq<Option<Bytes>>, i: nat, current: nat, n: nat, end: nat)
    requires i < |chunks| && chunks[i].Some? && start <= current
    requires n > 0 && current + n == Min(end, start + c) && end <= |v|
    ensures FoundBytes(c, v, start, chunks, i, current, end)
         == v[current..current + n] + FoundBytes(c, v, start + c, chunks, i + 1, current, end)
  {
    var piece := Between(c, v, current, end);
    assert piece(start, true) == v[current..current + n];
  }

  lemma SameAfter(first: Bytes, rest: Bytes, other: Bytes, a: Bytes, b: Bytes)
    requires rest == other && a == first + rest && b == first + other
    ensures a == b
  {
  }

  /** After a found chunk the rest is found from where it ended, or is nothing. */
  lemma RestFound(c: pos, v: Bytes, start: nat, chunks: seq<Option<Bytes>>, i: nat, current: nat, n: nat, end: nat)
    requires i < |chunks| && end <= |v| && current + n <= end && current <= start + c
    requires if current + n < end then current + n == start + c else end <= start + c
    ensures FoundBytes(c, v, start + c, chunks, i + 1, current + n + LeadingGap(c, chunks, i + 1), end)
         == FoundBytes(c, v, start + c, chunks, i + 1, current, end)
  {
    if current + n < end {
      FoundSame(c, v, start + c, chunks, i + 1, current, end);
    } else {
      FoundNothing(c, v, start + c, chunks, i + 1, current + n + LeadingGap(c, chunks, i + 1), end);
      FoundNothing(c, v, start + c, chunks, i + 1, current, end);
    }
  }

  /** The bytes of a range that lie in found chunks, from past the leading gap on. */
  ghost function FoundPart(c: pos, v: Bytes, range: Range, chunks: seq<Option<Bytes>>): Bytes
    requires range.offset + range.length <= |v|
  {
    FoundBytes(c, v, ChunkStart(c, range.offset), chunks, 0, range.offset + LeadingGap(c, chunks, 0),
               range.offset + range.length)
  }

  /** The memory loop returns the bytes of the found chunks in the range, from past the leading gap on. */
  lemma MemoryGaps(c: pos, v: Bytes, range: Range, chunks: seq<Option<Bytes>>)
    requires Reading(c, v, range, chunks)
    ensures AssembleRange(c, true, chunks, range) == FoundPart(c, v, range, chunks)
  {
    ReadingPlaced(c, v, range, chunks);
    MemoryAssembles(c, v, ChunkStart(c, range.offset), chunks, 0, range.offset, range.length);
  }

  /** When the first chunk is found, or the range starts with a chunk, those are all found bytes of the range. */
  lemma MemoryReturnsAllFound(c: pos, v: Bytes, range: Range, chunks: seq<Option<Bytes>>)
    requires Reading(c, v, range, chunks)
    requires chunks == [] || chunks[0].Some? || ChunkStart(c, range.offset) == range.offset
    ensures AssembleRange(c, true, chunks, range)
         == FoundBytes(c, v, ChunkStart(c, range.offset), chunks, 0, range.offset, range.offset + range.length)
  {
    MemoryGaps(c, v, range, chunks);
    if ChunkStart(c, range.offset) == range.offset {
      FoundSame(c, v, range.offset, chunks, 0, range.offset, range.offset + range.length);
    }
  }

  // ----- disk ------------------------------------------------------------------------------------------------

  /** The found chunks, end to end. */
  ghost function FoundChunks(chunks: seq<Option<Bytes>>, i: nat): Bytes
    requires i <= |chunks|
    decreases |chunks| - i
  {
    if i == |chunks| then [] else (if chunks[i].Some? then chunks[i].value else []) + FoundChunks(chunks, i + 1)
  }

  ghost function Taken(s: Bytes, n: nat): Bytes { s[..Min(n, |s|)] }

  /** How far the range starts inside its first chunk, if that is found. */
  ghost function FirstSkip(c: pos, chunks: seq<Option<Bytes>>, offset: nat): nat {
    if chunks != [] && chunks[0].Some? then offset - ChunkStart(c, offset) else 0
  }

  /** Behind a chunk's start, the disk loop takes whole chunks. */
  lemma {:induction false} DiskBehind(c: pos, v: Bytes, start: nat, chunks: seq<Option<Bytes>>, i: nat, current: nat,
                                      remaining: nat)
    requires i <= |chunks| && OwnChunks(c, v, start, chunks, i) && current <= start
    ensures Assemble(c, false, start, chunks, i, current, remaining) == Taken(FoundChunks(chunks, i), remaining)
    decreases |chunks| - i
  {
    if i < |chunks| && remaining > 0 {
      if chunks[i].None? {
        DiskBehind(c, v, start + c, chunks, i + 1, current, remaining);
        assert [] + FoundChunks(chunks, i + 1) == FoundChunks(chunks, i + 1);
      } else {
        var n := Min(remaining, |chunks[i].value|);
        DiskBehind(c, v, start + c, chunks, i + 1, current + n, remaining - n);
        WholeChunk(c, start, chunks, i, current, remaining);
        TakenOver(chunks[i].value, FoundChunks(chunks, i + 1), remaining);
      }
    }
  }

  lemma WholeChunk(c: pos, start: nat, chunks: seq<Option<Bytes>>, i: nat, current: nat, remaining: nat)
    requires i < |chunks| && chunks[i].Some? && current <= start && remaining > 0
    ensures var n := Min(remaining, |chunks[i].value|);
      Assemble(c, false, start, chunks, i, current, remaining)
      == chunks[i].value[..n] + Assemble(c, false, start + c, chunks, i + 1, current + n, remaining - n)
  {
    var chunk := chunks[i].value;
    var n := Min(remaining, |chunk|);
    assert OffsetIn(start, current) == 0 && Minus64(|chunk|, 0) == |chunk|;
    assert Read(chunk, 0, n) == chunk[..n];
  }

  lemma TakenOver(a: Bytes, b: Bytes, n: nat)
    ensures Taken(a + b, n) == a[..Min(n, |a|)] + Taken(b, n - Min(n, |a|))
  {
  }

  /** The found chunks end to end, from where the range starts in the first one, up to the bytes asked for. */
  ghost function FoundLump(c: pos, range: Range, chunks: seq<Option<Bytes>>): Bytes {
    var all, skip := FoundChunks(chunks, 0), FirstSkip(c, chunks, range.offset);
    if skip <= |all| then Taken(all[skip..], range.length) else []
  }

  /** The disk loop puts the found chunks end to end, skips into the first, and takes as many bytes as were asked. */
  lemma DiskGaps(c: pos, v: Bytes, range: Range, chunks: seq<Option<Bytes>>)
    requires Reading(c, v, range, chunks)
    ensures FirstSkip(c, chunks, range.offset) <= |FoundChunks(chunks, 0)|
    ensures AssembleRange(c, false, chunks, range) == FoundLump(c, range, chunks)
  {
    ReadingPlaced(c, v, range, chunks);
    var start := ChunkStart(c, range.offset);
    if chunks != [] {
      if chunks[0].None? {
        DiskBehind(c, v, start + c, chunks, 1, range.offset, range.length);
        assert [] + FoundChunks(chunks, 1) == FoundChunks(chunks, 1);
        assert FoundChunks(chunks, 0)[0..] == FoundChunks(chunks, 0);
      } else {
        DiskFirst(c, v, start, range, chunks);
      }
    }
  }

  lemma DiskFirst(c: pos, v: Bytes, start: nat, range: Range, chunks: seq<Option<Bytes>>)
    requires chunks != [] && chunks[0].Some? && OwnChunks(c, v, start, chunks, 0) && range.length > 0
    requires Placed(c, v, start, range.offset, range.length)
    ensures var all, skip := FoundChunks(chunks, 0), range.offset - start;
      && skip <= |all|
      && Assemble(c, false, start, chunks, 0, range.offset, range.length) == Taken(all[skip..], range.length)
  {
    OwnStep(c, false, v, start, chunks, 0, range.offset, range.length);
    var n, skip := Stretch(c, v, start, range.offset, range.length), range.offset - start;
    DiskBehind(c, v, start + c, chunks, 1, range.offset + n, range.length - n);
    FirstTaken(v, start, Min(start + c, |v|), range.offset, n, range.length, FoundChunks(chunks, 1));
  }

  lemma FirstTaken(v: Bytes, start: nat, end: nat, at: nat, n: nat, length: nat, rest: Bytes)
    requires start <= at <= end <= |v| && n == Min(length, end - at)
    ensures Taken((v[start..end] + rest)[at - start..], length) == v[at..at + n] + Taken(rest, length - n)
  {
    var chunk, skip := v[start..end], at - start;
    assert (chunk + rest)[skip..] == chunk[skip..] + rest;
    TakenOver(chunk[skip..], rest, length);
    assert chunk[skip..] == v[at..end];
    SliceOfSlice(v, at, end, at, n);
  }

  /** With a gap the disk loop may return bytes from beyond the range. */
  lemma DiskReturnsBeyond()
    ensures AssembleRange(2, false, [None, Some([3, 4])], Range(0, 3)) == [3, 4]
    ensures !Subsequence([3, 4], Slice([1, 2, 3, 4], Range(0, 3)))
  {
    var v: Bytes, chunks: seq<Option<Bytes>> := [1, 2, 3, 4], [None, Some([3, 4])];
    assert OwnChunks(2, v, 2, chunks, 2) && OwnChunks(2, v, 0, chunks, 0) by { assert v[2..4] == [3, 4]; }
    DiskBehind(2, v, 2, chunks, 1, 0, 3);
    assert FoundChunks(chunks, 2) == [] && FoundChunks(chunks, 1) == [3, 4];
    var asked: Bytes := Slice(v, Range(0, 3));
    assert asked == [1, 2, 3] && asked[1..] == [2, 3] && asked[1..][1..] == [3] && asked[1..][1..][1..] == [];
    assert !Subsequence([4], []) && [3, 4][1..] == [4];
    assert !Subsequence([3, 4], []);
    assert !Subsequence([3, 4], [3]);
  }
}
