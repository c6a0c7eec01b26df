/**
 Putting fetched chunks together again. The memory and the disk layer share the loop except at a missing chunk:
 the memory layer steps over one chunk size of the range (`advance`), the disk layer does not move.
 */
module Assembly {
  import opened Options
  import opened Bytes
  import opened Chunking

  /** Part of a chunk, clipped to what it holds. */
  function Read(chunk: Bytes, offset: nat, length: nat): (data: Bytes) {
    if offset >= |chunk| then [] else chunk[offset..offset + Min(length, |chunk| - offset)]
  }

  /** Where in the chunk that starts at `start` a copy from position `current` starts. */
  function OffsetIn(start: nat, current: nat): (offset: nat) {
    if current > start then current - start else 0
  }

  /** Assemble `remaining` bytes from position `current`, from `chunks[i..]`, where `chunks[i]` starts at `start`. */
  function Assemble(c: pos, advance: bool, start: nat, chunks: seq<Option<Bytes>>, i: nat, current: nat, remaining: nat)
      : (data: Bytes)
    requires i <= |chunks|
    decreases |chunks| - i
  {
    if i == |chunks| || remaining == 0 then []
    else
      match chunks[i]
      case None =>
        var skip := if advance then Min(remaining, c) else 0;
        Assemble(c, advance, start + c, chunks, i + 1, current + skip, remaining - skip)
      case Some(chunk) =>
        var offset := OffsetIn(start, current);
        var n := Min(remaining, Minus64(|chunk|, offset));
        Read(chunk, offset, n) + Assemble(c, advance, start + c, chunks, i + 1, current + n, remaining - n)
  }

  /** The position at which the chunk that holds a byte starts. */
  function ChunkStart(c: pos, offset: nat): (start: nat)
    ensures start <= offset < start + c
  {
    DivBounds(offset, c);
    offset / c * c
  }

  /** The bytes a read of the range returns, given the chunks fetched for it. */
  function AssembleRange(c: pos, advance: bool, chunks: seq<Option<Bytes>>, range: Range): (data: Bytes) {
    Assemble(c, advance, ChunkStart(c, range.offset), chunks, 0, range.offset, range.length)
  }

  method AssembleChunks(c: pos, advance: bool, chunks: seq<Option<Bytes>>, range: Range) returns (result: Bytes)
    ensures result == AssembleRange(c, advance, chunks, range)
  {
    result := AssembleFrom(c, advance, ChunkStart(c, range.offset), chunks, range);
  }

  method AssembleFrom(c: pos, advance: bool, first: nat, chunks: seq<Option<Bytes>>, range: Range)
      returns (result: Bytes)
    ensures result == Assemble(c, advance, first, chunks, 0, range.offset, range.length)
  {
    result := [];
    var current, remaining, start, i := range.offset, range.length, first, 0;
    ghost var whole := Assemble(c, advance, first, chunks, 0, range.offset, range.length);
    while i < |chunks| && remaining > 0
      invariant 0 <= i <= |chunks| && 0 <= current && 0 <= remaining && 0 <= start
      invariant whole == result + Assemble(c, advance, start, chunks, i, current, remaining)
      decreases |chunks| - i
    {
      var part, n := Visit(c, advance, start, chunks, i, current, remaining);
      AppendPart(result, part, Assemble(c, advance, start + c, chunks, i + 1, current + n, remaining - n));
      result := result + part;
      current := current + n;
      remaining := remaining - n;
      start := start + c;
      i := i + 1;
    }
  }

  /** The part that `chunks[i]` contributes, and how far the position moves. */
  method Visit(c: pos, advance: bool, start: nat, chunks: seq<Option<Bytes>>, i: nat, current: nat, remaining: nat)
      returns (part: Bytes, n: nat)
    requires i < |chunks| && remaining > 0
    ensures n <= remaining
    ensures Assemble(c, advance, start, chunks, i, current, remaining)
         == part + Assemble(c, advance, start + c, chunks, i + 1, current + n, remaining - n)
  {
    match chunks[i]
    case None =>
      part := [];
      n := if advance then Min(remaining, c) else 0;
    case Some(chunk) =>
      var offset := OffsetIn(start, current);
      n := Min(remaining, Minus64(|chunk|, offset));
      part := Read(chunk, offset, n);
  }

  lemma AppendPart(a: Bytes, part: Bytes, rest: Bytes)
    ensures a + (part + rest) == (a + part) + rest
  {
  }

  // ----- what is assembled -----------------------------------------------------------------------------------

  /** Every chunk that is present is the value's own chunk at its place. */
  ghost predicate OwnChunks(c: pos, v: Bytes, start: nat, chunks: seq<Option<Bytes>>, i: nat)
    requires i <= |chunks|
    decreases |chunks| - i
  {
    i == |chunks| ||
    ((chunks[i].Some? ==> start < |v| && chunks[i].value == v[start..Min(start + c, |v|)])
     && OwnChunks(c, v, start + c, chunks, i + 1))
  }

  ghost predicate AllPresent(chunks: seq<Option<Bytes>>, i: nat) {
    forall j :: i <= j < |chunks| ==> chunks[j].Some?
  }

  ghost predicate AllMissing(chunks: seq<Option<Bytes>>, i: nat) {
    forall j :: i <= j < |chunks| ==> chunks[j].None?
  }

  /** The position just past `k` chunks from `start`. */
  function Past(c: pos, start: nat, k: nat): nat
    decreases k
  {
    if k == 0 then start else Past(c, start + c, k - 1)
  }

  lemma {:induction false} PastIs(c: pos, start: nat, k: nat)
    ensures Past(c, start, k) == start + k * c
    decreases k
  {
    if k > 0 {
      PastIs(c, start + c, k - 1);
      MulPred(k, c);
    }
  }

  /** The loop's position: inside the chunk at hand, and the range ends inside the value. */
  ghost predicate Placed(c: pos, v: Bytes, start: nat, current: nat, remaining: nat) {
    && current + remaining <= |v| < TWO_64
    && (remaining > 0 ==> start <= current < start + c)
  }

  /** How many bytes the value's own chunk at `start` contributes. */
  function Stretch(c: pos, v: Bytes, start: nat, current: nat, remaining: nat): (n: int) {
    Min(remaining, Min(start + c, |v|) - current)
  }

  /** A present chunk contributes the next stretch of the value, up to the chunk's end. */
  lemma OwnStep(c: pos, advance: bool, v: Bytes, start: nat, chunks: seq<Option<Bytes>>, i: nat, current: nat,
                remaining: nat)
    requires i < |chunks| && chunks[i].Some? && start < |v| && chunks[i].value == v[start..Min(start + c, |v|)]
    requires Placed(c, v, start, current, remaining) && remaining > 0
    ensures var n := Stretch(c, v, start, current, remaining);
            && 0 < n <= remaining
            && Placed(c, v, start + c, current + n, remaining - n)
            && Assemble(c, advance, start, chunks, i, current, remaining)
               == v[current..current + n] + Assemble(c, advance, start + c, chunks, i + 1, current + n, remaining - n)
  {
    var n := Stretch(c, v, start, current, remaining);
    var chunk := chunks[i].value;
    assert Minus64(|chunk|, current - start) == Min(start + c, |v|) - current;
    SliceOfSlice(v, start, Min(start + c, |v|), current, n);
    assert Read(chunk, OffsetIn(start, current), n) == chunk[current - start..current - start + n];
  }

  lemma SliceOfSlice(v: Bytes, lo: nat, hi: nat, at: nat, n: nat)
    requires lo <= at && at + n <= hi <= |v|
    ensures v[lo..hi][at - lo..at - lo + n] == v[at..at + n]
  {
    var slice, part := v[lo..hi], v[at..at + n];
    assert forall j :: 0 <= j < n ==> part[j] == slice[at - lo..at - lo + n][j];
  }

  lemma JoinSlices(v: Bytes, a: nat, b: nat, d: nat)
    requires a <= b <= d <= |v|
    ensures v[a..b] + v[b..d] == v[a..d]
  {
  }

  lemma JoinPrefix(v: Bytes, a: nat, b: nat, d: nat, tail: Bytes)
    requires a <= b <= d <= |v| && tail <= v[b..d]
    ensures v[a..b] + tail <= v[a..d]
  {
    assert tail == v[b..d][..|tail|];
  }

  /** With every chunk present, exactly the requested bytes come out, in either layer. */
  lemma {:induction false} AssembleExact(c: pos, advance: bool, v: Bytes, start: nat, chunks: seq<Option<Bytes>>,
                                         i: nat, current: nat, remaining: nat)
    requires i <= |chunks| && OwnChunks(c, v, start, chunks, i) && AllPresent(chunks, i)
    requires Placed(c, v, start, current, remaining)
    requires remaining > 0 ==> current + remaining <= Past(c, start, |chunks| - i)
    ensures Assemble(c, advance, start, chunks, i, current, remaining) == v[current..current + remaining]
    decreases |chunks| - i
  {
    if remaining > 0 {
      OwnStep(c, advance, v, start, chunks, i, current, remaining);
      ExactStep(c, advance, v, start, chunks, i, current, remaining, Stretch(c, v, start, current, remaining));
    }
  }

  lemma {:induction false} ExactStep(c: pos, advance: bool, v: Bytes, start: nat, chunks: seq<Option<Bytes>>, i: nat,
                                     current: nat, remaining: nat, n: nat)
    requires i < |chunks| && n <= remaining && OwnChunks(c, v, start + c, chunks, i + 1) && AllPresent(chunks, i + 1)
    requires Placed(c, v, start + c, current + n, remaining - n)
    requires remaining > n ==> current + remaining <= Past(c, start + c, |chunks| - i - 1)
    ensures v[current..current + n] + Assemble(c, advance, start + c, chunks, i + 1, current + n, remaining - n)
         == v[current..current + remaining]
    decreases |chunks| - i, 0
  {
    AssembleExact(c, advance, v, start + c, chunks, i + 1, current + n, remaining - n);
    JoinSlices(v, current, current + n, current + remaining);
  }

  lemma {:induction false} AssembleNothing(c: pos, advance: bool, start: nat, chunks: seq<Option<Bytes>>, i: nat,
                                           current: nat, remaining: nat)
    requires i <= |chunks| && AllMissing(chunks, i)
    ensures Assemble(c, advance, start, chunks, i, current, remaining) == []
    decreases |chunks| - i
  {
    if i < |chunks| && remaining > 0 {
      var skip := if advance then Min(remaining, c) else 0;
      AssembleNothing(c, advance, start + c, chunks, i + 1, current + skip, remaining - skip);
    }
  }

  /** When no present chunk follows a missing one, a prefix of the requested bytes comes out, in either layer. */
  lemma {:induction false} AssemblePrefix(c: pos, advance: bool, v: Bytes, start: nat, chunks: seq<Option<Bytes>>,
                                          i: nat, m: nat, current: nat, remaining: nat)
    requires i <= m <= |chunks| && OwnChunks(c, v, start, chunks, i)
    requires (forall j :: i <= j < m ==> chunks[j].Some?) && AllMissing(chunks, m)
    requires Placed(c, v, start, current, remaining)
    ensures Assemble(c, advance, start, chunks, i, current, remaining) <= v[current..current + remaining]
    decreases m - i
  {
    if i == m {
      AssembleNothing(c, advance, start, chunks, i, current, remaining);
    } else if remaining > 0 {
      OwnStep(c, advance, v, start, chunks, i, current, remaining);
      PrefixStep(c, advance, v, start, chunks, i, m, current, remaining, Stretch(c, v, start, current, remaining));
    }
  }

  lemma {:induction false} PrefixStep(c: pos, advance: bool, v: Bytes, start: nat, chunks: seq<Option<Bytes>>, i: nat,
                                      m: nat, current: nat, remaining: nat, n: nat)
    requires i < m <= |chunks| && n <= remaining && OwnChunks(c, v, start + c, chunks, i + 1)
    requires (forall j :: i <= j < m ==> chunks[j].Some?) && AllMissing(chunks, m)
    requires Placed(c, v, start + c, current + n, remaining - n)
    ensures v[current..current + n] + Assemble(c, advance, start + c, chunks, i + 1, current + n, remaining - n)
         <= v[current..current + remaining]
    decreases m - i, 0
  {
    AssemblePrefix(c, advance, v, start + c, chunks, i + 1, m, current + n, remaining - n);
    JoinPrefix(v, current, current + n, current + remaining,
               Assemble(c, advance, start + c, chunks, i + 1, current + n, remaining - n));
  }

  /** Whatever is missing, the memory layer returns a subsequence of the requested bytes. */
  lemma {:induction false} AssembleSubsequence(c: pos, v: Bytes, start: nat, chunks: seq<Option<Bytes>>, i: nat,
                                               current: nat, remaining: nat)
    requires i <= |chunks| && OwnChunks(c, v, start, chunks, i) && Placed(c, v, start, current, remaining)
    ensures Subsequence(Assemble(c, true, start, chunks, i, current, remaining), v[current..current + remaining])
    decreases |chunks| - i
  {
    if i < |chunks| && remaining > 0 {
      if chunks[i].None? {
        SubsequenceOver(c, v, start, chunks, i, current, remaining);
      } else {
        SubsequenceWith(c, v, start, chunks, i, current, remaining);
      }
    }
  }

  lemma {:induction false} SubsequenceOver(c: pos, v: Bytes, start: nat, chunks: seq<Option<Bytes>>, i: nat,
                                           current: nat, remaining: nat)
    requires i < |chunks| && chunks[i].None? && OwnChunks(c, v, start + c, chunks, i + 1)
    requires Placed(c, v, start, current, remaining) && remaining > 0
    ensures Subsequence(Assemble(c, true, start, chunks, i, current, remaining), v[current..current + remaining])
    decreases |chunks| - i, 1
  {
    MissingStep(c, start, chunks, i, current, remaining);
    SubsequenceStep(c, v, start, chunks, i, current, remaining, Min(remaining, c));
  }

  lemma {:induction false} SubsequenceWith(c: pos, v: Bytes, start: nat, chunks: seq<Option<Bytes>>, i: nat,
                                           current: nat, remaining: nat)
    requires i < |chunks| && chunks[i].Some? && OwnChunks(c, v, start, chunks, i)
    requires Placed(c, v, start, current, remaining) && remaining > 0
    ensures Subsequence(Assemble(c, true, start, chunks, i, current, remaining), v[current..current + remaining])
    decreases |chunks| - i, 1
  {
    OwnStep(c, true, v, start, chunks, i, current, remaining);
    SubsequenceStep(c, v, start, chunks, i, current, remaining, Stretch(c, v, start, current, remaining));
  }

  lemma {:induction false} SubsequenceStep(c: pos, v: Bytes, start: nat, chunks: seq<Option<Bytes>>, i: nat,
                                           current: nat, remaining: nat, n: nat)
    requires i < |chunks| && n <= remaining && OwnChunks(c, v, start + c, chunks, i + 1)
    requires Placed(c, v, start + c, current + n, remaining - n)
    ensures var rest := Assemble(c, true, start + c, chunks, i + 1, current + n, remaining - n);
            && Subsequence(rest, v[current..current + remaining])
            && Subsequence(v[current..current + n] + rest, v[current..current + remaining])
    decreases |chunks| - i, 0
  {
    AssembleSubsequence(c, v, start + c, chunks, i + 1, current + n, remaining - n);
    Rejoin(v, current, current + n, current + remaining,
           Assemble(c, true, start + c, chunks, i + 1, current + n, remaining - n));
  }

  lemma MissingStep(c: pos, start: nat, chunks: seq<Option<Bytes>>, i: nat, current: nat, remaining: nat)
    requires i < |chunks| && chunks[i].None? && remaining > 0
    ensures var n := Min(remaining, c);
            Assemble(c, true, start, chunks, i, current, remaining)
            == Assemble(c, true, start + c, chunks, i + 1, current + n, remaining - n)
  {
  }

  lemma Rejoin(v: Bytes, a: nat, b: nat, d: nat, rest: Bytes)
    requires a <= b <= d <= |v| && Subsequence(rest, v[b..d])
    ensures Subsequence(rest, v[a..d]) && Subsequence(v[a..b] + rest, v[a..d])
  {
    JoinSlices(v, a, b, d);
    SubsequenceAfter(rest, v[a..b], v[b..d]);
    SubsequenceCopied(v[a..b], rest, v[b..d]);
  }

  // ----- a value split, fetched and assembled ----------------------------------------------------------------

  /** The result of fetching the value's own chunks with the given indices; `have` says which were found. */
  ghost predicate Fetched(c: pos, v: Bytes, indices: seq<nat>, chunks: seq<Option<Bytes>>) {
    && |chunks| <= |indices|
    && forall i :: 0 <= i < |chunks| && chunks[i].Some? ==>
         indices[i] < |Split(c, v)| && chunks[i].value == Split(c, v)[indices[i]]
  }

  lemma {:induction false} FetchedAreOwn(c: pos, v: Bytes, first: nat, last: nat, chunks: seq<Option<Bytes>>, i: nat,
                                         start: nat)
    requires Fetched(c, v, Interval(first, last + 1), chunks) && i <= |chunks| && start == (first + i) * c
    ensures OwnChunks(c, v, start, chunks, i)
    decreases |chunks| - i
  {
    if i < |chunks| {
      MulPred(first + i + 1, c);
      FetchedAreOwn(c, v, first, last, chunks, i + 1, start + c);
      if chunks[i].Some? {
        assert Interval(first, last + 1)[i] == first + i;
        SplitCount(c, v);
        CountIsExact(c, |v|, first + i);
        SplitAt(c, v, first + i, start);
      }
    }
  }

  /** Clamp a requested range to the value, as both layers do before they fetch. */
  function Clamp(range: Range, total: nat): (r: Range)
    requires range.offset < total
  {
    Range(range.offset, Min(range.length, total - range.offset))
  }

  ghost function Slice(v: Bytes, range: Range): Bytes
    requires range.offset + range.length <= |v|
  {
    v[range.offset..range.offset + range.length]
  }

  /** The setting of both reads: the clamped range is not empty and chunks were fetched for it. */
  ghost predicate Reading(c: pos, v: Bytes, range: Range, chunks: seq<Option<Bytes>>) {
    && 0 < range.length && range.offset + range.length <= |v| < TWO_64
    && Fetched(c, v, ChunksForRange(c, |v|, ChunkCount(c, |v|), range), chunks)
  }

  lemma ReadingPlaced(c: pos, v: Bytes, range: Range, chunks: seq<Option<Bytes>>)
    requires Reading(c, v, range, chunks)
    ensures OwnChunks(c, v, ChunkStart(c, range.offset), chunks, 0)
    ensures Placed(c, v, ChunkStart(c, range.offset), range.offset, range.length)
  {
    var first, last := NeededRun(c, |v|, range);
    FetchedAreOwn(c, v, first, last, chunks, 0, ChunkStart(c, range.offset));
  }

  lemma NeededRun(c: pos, total: nat, range: Range) returns (first: nat, last: nat)
    requires 0 < range.length && range.offset + range.length <= total < TWO_64
    ensures ChunksForRange(c, total, ChunkCount(c, total), range) == Interval(first, last + 1)
    ensures ChunkStart(c, range.offset) == first * c && first <= last
    ensures range.offset + range.length <= last * c + c
  {
    ChunksRun(c, total, range);
    first, last := range.offset / c, (range.offset + range.length - 1) / c;
    DivBounds(range.offset + range.length - 1, c);
  }

  /** Split, fetch everything the range needs, assemble: exactly the bytes of the range. */
  lemma ReadIsExact(c: pos, advance: bool, v: Bytes, range: Range, chunks: seq<Option<Bytes>>)
    requires Reading(c, v, range, chunks)
    requires |chunks| == |ChunksForRange(c, |v|, ChunkCount(c, |v|), range)| && AllPresent(chunks, 0)
    ensures AssembleRange(c, advance, chunks, range) == Slice(v, range)
  {
    ReadingPlaced(c, v, range, chunks);
    ReadingReaches(c, v, range, |chunks|);
    AssembleExact(c, advance, v, ChunkStart(c, range.offset), chunks, 0, range.offset, range.length);
  }

  lemma ReadingReaches(c: pos, v: Bytes, range: Range, n: nat)
    requires 0 < range.length && range.offset + range.length <= |v| < TWO_64
    requires n == |ChunksForRange(c, |v|, ChunkCount(c, |v|), range)|
    ensures range.offset + range.length <= Past(c, ChunkStart(c, range.offset), n)
  {
    var first, last := NeededRun(c, |v|, range);
    PastIs(c, ChunkStart(c, range.offset), n);
    RunLength(c, first, last);
  }

  lemma RunLength(c: pos, first: nat, last: nat)
    requires first <= last
    ensures first * c + (last + 1 - first) * c == last * c + c
  {
  }

  /** With chunks missing, the memory layer returns an in-order subsequence of the range. */
  lemma ReadIsSubsequence(c: pos, v: Bytes, range: Range, chunks: seq<Option<Bytes>>)
    requires Reading(c, v, range, chunks)
    ensures Subsequence(AssembleRange(c, true, chunks, range), Slice(v, range))
  {
    ReadingPlaced(c, v, range, chunks);
    AssembleSubsequence(c, v, ChunkStart(c, range.offset), chunks, 0, range.offset, range.length);
  }

  /** With no present chunk after a missing one, either layer returns a prefix of the range. */
  lemma ReadIsPrefix(c: pos, advance: bool, v: Bytes, range: Range, chunks: seq<Option<Bytes>>, m: nat)
    requires Reading(c, v, range, chunks) && m <= |chunks|
    requires (forall j :: 0 <= j < m ==> chunks[j].Some?) && AllMissing(chunks, m)
    ensures AssembleRange(c, advance, chunks, range) <= Slice(v, range)
  {
    ReadingPlaced(c, v, range, chunks);
    AssemblePrefix(c, advance, v, ChunkStart(c, range.offset), chunks, 0, m, range.offset, range.length);
  }
}
