/**
 Which parts of a value are present, given which of its chunks are. The range queries step from chunk to chunk; they
 are proved to return the maximal runs of present or missing bytes.
 */
module PartialValues {
  import opened Bytes
  import opened Chunking
  import opened Runs

  predicate Holds(available: seq<bool>, k: int) {
    0 <= k < |available| && available[k]
  }

  predicate AllHeld(available: seq<bool>, first: nat, last: nat) {
    forall k :: first <= k <= last ==> Holds(available, k)
  }

  /** A byte is present when its chunk is. */
  predicate Present(available: seq<bool>, c: pos, b: nat) {
    Holds(available, b / c)
  }

  function Having(available: seq<bool>, c: pos): Positions {
    (b: nat) => Present(available, c, b)
  }

  function Lacking(available: seq<bool>, c: pos): Positions {
    (b: nat) => !Present(available, c, b)
  }

  lemma ChunkIsUniform(available: seq<bool>, c: pos, k: nat, start: nat)
    requires start == k * c
    ensures Uniform(Having(available, c), Holds(available, k), start, start + c)
    ensures Uniform(Lacking(available, c), !Holds(available, k), start, start + c)
  {
    forall b: nat | start <= b < start + c ensures b / c == k { DivIs(b, c, k); }
  }

  /** All bytes of the chunk that starts here are present. */
  predicate ChunkPresent(available: seq<bool>, c: pos, start: nat) {
    forall b: nat :: start <= b < start + c ==> Present(available, c, b)
  }

  lemma ChunkPresentIff(available: seq<bool>, c: pos, k: nat, start: nat)
    requires start == k * c
    ensures ChunkPresent(available, c, start) <==> Holds(available, k)
  {
    forall b: nat | start <= b < start + c ensures Present(available, c, b) <==> Holds(available, k) {
      DivIs(b, c, k);
    }
    assert Present(available, c, start) <==> Holds(available, k);
  }

  /** Where chunk `k` starts, or the end of the value when it has no such chunk. */
  function Edge(c: pos, total: nat, k: nat): (e: nat)
    ensures e <= total
  {
    if k == 0 then 0 else Min(Edge(c, total, k - 1) + c, total)
  }

  lemma {:induction false} EdgeIs(c: pos, total: nat, k: nat)
    ensures Edge(c, total, k) == Min(k * c, total)
    decreases k
  {
    if k > 0 {
      EdgeIs(c, total, k - 1);
      MulPred(k, c);
    }
  }

  /** A listed chunk of the value is not empty and uniform, and only the last one of the value may be short. */
  lemma EdgeStep(available: seq<bool>, c: pos, total: nat, k: nat)
    requires k < |available| && k < ChunkCount(c, total)
    ensures Edge(c, total, k) == k * c < Edge(c, total, k + 1)
    ensures k + 1 < ChunkCount(c, total) ==> Edge(c, total, k + 1) == Edge(c, total, k) + c
    ensures k + 1 == ChunkCount(c, total) ==> Edge(c, total, k + 1) == total
    ensures Uniform(Having(available, c), available[k], Edge(c, total, k), Edge(c, total, k + 1))
  {
    EdgeIs(c, total, k);
    EdgeIs(c, total, k + 1);
    CountIsExact(c, total, k);
    CountIsExact(c, total, k + 1);
    MulPred(k + 1, c);
    ChunkIsUniform(available, c, k, k * c);
  }

  /** An entry past the chunks of the value starts at or after its end. */
  lemma EdgePast(c: pos, total: nat, k: nat)
    requires k >= ChunkCount(c, total)
    ensures Edge(c, total, k) == total <= k * c
  {
    EdgeIs(c, total, k);
    CountIsExact(c, total, k);
  }

  lemma DivAtLeast(b: nat, c: pos, n: nat)
    requires n * c <= b
    ensures n <= b / c
  {
    DivBounds(b, c);
    MulPred(b / c + 1, c);
    MulCancel(n, b / c + 1, c);
  }

  /** Bytes past the listed chunks are not there. */
  lemma PastListed(available: seq<bool>, c: pos, start: nat, total: nat)
    requires start == |available| * c
    ensures start <= total ==> Uniform(Having(available, c), false, start, total)
  {
    forall b: nat | start <= b < total ensures !Present(available, c, b) {
      DivAtLeast(b, c, |available|);
    }
  }

  /** The present runs so far, when the next stretch follows a missing chunk. */
  lemma FreshRun(available: seq<bool>, c: pos, total: nat, k: nat, lo: nat, hi: nat)
    requires k < |available| && k < ChunkCount(c, total)
    requires k == 0 || !available[k - 1]
    requires lo == Edge(c, total, k) < hi && Uniform(Having(available, c), true, lo, hi)
    ensures RunsOf(Having(available, c), 0, hi) == RunsOf(Having(available, c), 0, lo) + [Range(lo, hi - lo)]
  {
    var having := Having(available, c);
    RunsAreSpaced(having, 0, lo);
    if lo > 0 {
      EdgeStep(available, c, total, k - 1);
      assert !having(lo - 1);
      RunsCover(having, 0, lo, lo - 1);
    }
    ExtendFresh(RunsOf(having, 0, lo), 0, lo, hi);
    RunsTakeIn(having, 0, lo, hi);
  }

  /** One stretch more, all missing or all present. */
  lemma MissingStep(lacking: Positions, missing: bool, offset: nat, current: nat, next: nat)
    requires offset <= current < next && Uniform(lacking, missing, current, next)
    ensures RunsOf(lacking, offset, next) ==
            var before := RunsOf(lacking, offset, current);
            if missing then Extend(before, current, next) else before
    ensures forall i :: 0 <= i < |RunsOf(lacking, offset, current)| ==>
      RunsOf(lacking, offset, current)[i].offset + RunsOf(lacking, offset, current)[i].length <= current
  {
    if missing {
      RunsTakeIn(lacking, offset, current, next);
    } else {
      RunsPassOver(lacking, offset, current, next);
    }
    RunsAreSpaced(lacking, offset, current);
  }

  // ----- the queries -----------------------------------------------------------------------------------------

  /** The missing ranges of a range; the range's end wraps as it does in 64 bits. */
  function Missing(available: seq<bool>, c: pos, total: nat, r: Range): seq<Range> {
    var hi := Min(r.End(), total);
    if r.length == 0 || hi <= r.offset then [] else RunsOf(Lacking(available, c), r.offset, hi)
  }

  function LastChunk(c: pos, total: nat, r: Range): nat {
    var end := Min(r.End(), total);
    if end > 0 then (end - 1) / c else 0
  }

  /** Every chunk a range touches is present. */
  predicate HasAll(available: seq<bool>, c: pos, total: nat, r: Range) {
    r.length == 0 ||
    (r.offset < total && AllHeld(available, r.offset / c, LastChunk(c, total, r)))
  }

  /** The present runs of a value. */
  function Available(available: seq<bool>, c: pos, total: nat): seq<Range> {
    RunsOf(Having(available, c), 0, total)
  }

  /** An available entry past the chunks of the value that does not continue a run. */
  predicate IsStray(available: seq<bool>, c: pos, total: nat, k: nat) {
    ChunkCount(c, total) <= k < |available| && available[k] && (k == 0 || !available[k - 1])
  }

  /** What the query reports besides, for entries past the chunks of the value: ranges of wrapped length. */
  function Strays(available: seq<bool>, c: pos, total: nat, k: nat): (r: seq<Range>) {
    if k == 0 then []
    else
      Strays(available, c, total, k - 1)
      + if IsStray(available, c, total, k - 1) then [Range((k - 1) * c, Minus64(total, (k - 1) * c))] else []
  }

  lemma {:induction false} NoStrays(available: seq<bool>, c: pos, total: nat, low: nat, high: nat)
    requires low <= high && forall k :: low <= k < high ==> !IsStray(available, c, total, k)
    ensures Strays(available, c, total, high) == Strays(available, c, total, low)
    decreases high
  {
    if low < high { NoStrays(available, c, total, low, high - 1); }
  }

  /** How many of the first entries are available. */
  function Held(available: seq<bool>, k: nat): (n: nat)
    requires k <= |available|
    ensures n <= k
  {
    if k == 0 then 0 else Held(available, k - 1) + if available[k - 1] then 1 else 0
  }

  /** Whole chunks for the available entries, except for the last one: what is left of the value after the others. */
  function BytesOf(available: seq<bool>, c: pos, total: nat): nat {
    if available == [] then 0
    else
      var last := |available| - 1;
      if available[last] then Minus64(Held(available, last) * c + total, last * c) else Held(available, last) * c
  }

  class PartialValue<Id> {
    const c: pos
    const totalSize: nat
    var available: seq<bool>
    var ids: seq<Id>

    /** Neither the value nor the chunks listed for it reach beyond 64 bits; they need not agree in number. */
    ghost predicate Valid()
      reads this
    {
      |ids| == |available| && totalSize + c <= TWO_64 && |available| * c < TWO_64
    }

    constructor (c: pos, totalSize: nat, ids: seq<Id>)
      requires totalSize + c <= TWO_64 && |ids| * c < TWO_64
      ensures Valid() && this.c == c && this.totalSize == totalSize && this.ids == ids
      ensures available == seq(|ids|, _ => false)
    {
      this.c, this.totalSize, this.ids := c, totalSize, ids;
      this.available := seq(|ids|, _ => false);
    }

    /** A chunk is present when all its bytes are. */
    method HasChunk(index: nat) returns (present: bool)
      ensures present <==> ChunkPresent(available, c, index * c)
    {
      ChunkPresentIff(available, c, index, index * c);
      present := index < |available| && available[index];
    }

    method MarkAvailable(index: nat, id: Id)
      requires Valid()
      modifies this
      ensures Valid()
      ensures available == if index < old(|available|) then old(available)[index := true] else old(available)
      ensures ids == if index < old(|ids|) then old(ids)[index := id] else old(ids)
    {
      if index < |available| {
        available := available[index := true];
        ids := ids[index := id];
      }
    }

    method MarkUnavailable(index: nat)
      requires Valid()
      modifies this
      ensures Valid() && ids == old(ids)
      ensures available == if index < old(|available|) then old(available)[index := false] else old(available)
    {
      if index < |available| {
        available := available[index := false];
      }
    }

    method HasRange(range: Range) returns (r: bool)
      ensures r == HasAll(available, c, totalSize, range)
    {
      if range.length == 0 { return true; }
      if range.offset >= totalSize { return false; }
      var endOffset := Min(range.End(), totalSize);
      var endChunk := if endOffset > 0 then (endOffset - 1) / c else 0;
      assert endChunk == LastChunk(c, totalSize, range);
      var i := range.offset / c;
      while i <= endChunk
        invariant range.offset / c <= i
        invariant forall k :: range.offset / c <= k < i ==> Holds(available, k)
        decreases endChunk - i
      {
        if i >= |available| || !available[i] {
          assert !Holds(available, i);
          return false;
        }
        i := i + 1;
      }
      r := true;
    }

    method MissingRanges(range: Range) returns (missing: seq<Range>)
      requires Valid()
      ensures missing == Missing(available, c, totalSize, range)
    {
      missing := [];
      if range.length == 0 || range.offset >= totalSize { return; }
      var end := Min(range.End(), totalSize);
      var current := range.offset;
      while current < end
        invariant range.offset <= current && (current <= end || current == range.offset)
        invariant missing == RunsOf(Lacking(available, c), range.offset, current)
      {
        missing, current := MissingTurn(missing, range.offset, end, current);
      }
    }

    /** Lengthen the last run or start a new one. */
    static method Merge(runs: seq<Range>, start: nat, end: nat) returns (r: seq<Range>)
      requires start <= end
      requires runs == [] || !runs[|runs| - 1].Wraps()
      ensures r == Extend(runs, start, end)
    {
      if runs != [] && runs[|runs| - 1].End() == start {
        var last := runs[|runs| - 1];
        r := runs[..|runs| - 1] + [Range(last.offset, last.length + (end - start))];
      } else {
        r := runs + [Range(start, end - start)];
      }
    }

    /** The chunk around a position, and where it ends. */
    method Around(current: nat) returns (index: nat, chunkEnd: nat)
      requires current < totalSize
      ensures current < chunkEnd <= totalSize
      ensures Uniform(Lacking(available, c), !Holds(available, index), current, chunkEnd)
    {
      index := current / c;
      var start := index * c;
      DivBounds(current, c);
      ChunkIsUniform(available, c, index, start);
      chunkEnd := Min(start + c, totalSize);
    }

    /** One chunk of the scan for missing ranges. */
    method MissingTurn(runs: seq<Range>, offset: nat, end: nat, current: nat)
      returns (missing: seq<Range>, next: nat)
      requires Valid()
      requires offset <= current < end <= totalSize
      requires runs == RunsOf(Lacking(available, c), offset, current)
      ensures current < next <= end && missing == RunsOf(Lacking(available, c), offset, next)
    {
      var index, chunkEnd := Around(current);
      next := Min(end, chunkEnd);
      ghost var gone := !Holds(available, index);
      MissingStep(Lacking(available, c), gone, offset, current, next);
      if index >= |available| || !available[index] {
        missing := Merge(runs, current, next);
      } else {
        missing := runs;
      }
    }

    /** The present chunks from `first` on: where they end, as entries and in bytes. */
    method TakeRun(first: nat) returns (i: nat, end: nat)
      requires first < |available| && available[first]
      ensures first < i <= |available| && (i == |available| || !available[i])
      ensures forall k :: first <= k < i ==> available[k]
      ensures end == Edge(c, totalSize, i)
      ensures Uniform(Having(available, c), true, Edge(c, totalSize, first), end)
      ensures first < ChunkCount(c, totalSize) ==> Edge(c, totalSize, first) < end
    {
      i := first;
      end := first * c;
      while i < |available| && available[i]
        invariant first <= i <= |available| && (forall k :: first <= k < i ==> available[k])
        invariant i > first ==> end == Edge(c, totalSize, i)
        invariant Uniform(Having(available, c), true, Edge(c, totalSize, first), Edge(c, totalSize, i))
        invariant Edge(c, totalSize, first) <= Edge(c, totalSize, i)
        invariant first < i && first < ChunkCount(c, totalSize) ==> Edge(c, totalSize, first) < Edge(c, totalSize, i)
      {
        EdgeIs(c, totalSize, i + 1);
        if i < ChunkCount(c, totalSize) {
          EdgeStep(available, c, totalSize, i);
        } else {
          EdgePast(c, totalSize, i);
          EdgePast(c, totalSize, i + 1);
        }
        end := Min((i + 1) * c, totalSize);
        i := i + 1;
      }
    }

    method AvailableRanges() returns (ranges: seq<Range>)
      requires Valid()
      ensures ranges == Available(available, c, totalSize) + Strays(available, c, totalSize, |available|)
    {
      ranges := [];
      var i := 0;
      while i < |available|
        invariant 0 <= i <= |available|
        invariant i < |available| && available[i] ==> i == 0 || !available[i - 1]
        invariant ranges == RunsOf(Having(available, c), 0, Edge(c, totalSize, i)) + Strays(available, c, totalSize, i)
      {
        if available[i] {
          var next, end := TakeRun(i);
          RunTaken(available, c, totalSize, i, next);
          ranges := ranges + [Range(i * c, Minus64(end, i * c))];
          i := next;
        } else {
          EntryPassed(available, c, totalSize, i);
          i := i + 1;
        }
      }
      AllPassed(available, c, totalSize);
    }

    method AvailableBytes() returns (bytes: nat)
      requires Valid()
      ensures bytes == BytesOf(available, c, totalSize)
    {
      bytes := 0;
      var i := 0;
      while i < |available|
        invariant 0 <= i <= |available|
        invariant i < |available| ==> bytes == Held(available, i) * c
        invariant i == |available| > 0 ==> bytes == BytesOf(available, c, totalSize)
        invariant i == 0 ==> bytes == 0
      {
        if available[i] {
          if i == |available| - 1 {
            bytes := Minus64(bytes + totalSize, i * c);
          } else {
            bytes := bytes + c;
          }
        }
        i := i + 1;
      }
    }
  }

  /** A run of present entries that starts inside the value is a run of bytes; one that starts past it is a stray. */
  lemma RunTaken(available: seq<bool>, c: pos, total: nat, first: nat, next: nat)
    requires first < next <= |available| && (forall k :: first <= k < next ==> available[k])
    requires first == 0 || !available[first - 1]
    requires Uniform(Having(available, c), true, Edge(c, total, first), Edge(c, total, next))
    requires first < ChunkCount(c, total) ==> Edge(c, total, first) < Edge(c, total, next)
    ensures RunsOf(Having(available, c), 0, Edge(c, total, next)) + Strays(available, c, total, next)
         == RunsOf(Having(available, c), 0, Edge(c, total, first)) + Strays(available, c, total, first)
            + [Range(first * c, Minus64(Edge(c, total, next), first * c))]
  {
    StraysOfRun(available, c, total, first, next);
    if first < ChunkCount(c, total) {
      InnerRun(available, c, total, first, next);
    } else {
      EdgePast(c, total, first);
      EdgePast(c, total, next);
    }
  }

  lemma StraysOfRun(available: seq<bool>, c: pos, total: nat, first: nat, next: nat)
    requires first < next <= |available| && (forall k :: first <= k < next ==> available[k])
    requires first == 0 || !available[first - 1]
    ensures first < ChunkCount(c, total) ==>
      Strays(available, c, total, next) == [] && Strays(available, c, total, first) == []
    ensures first >= ChunkCount(c, total) ==>
      Strays(available, c, total, next)
      == Strays(available, c, total, first) + [Range(first * c, Minus64(total, first * c))]
  {
    NoStrays(available, c, total, first + 1, next);
    if first < ChunkCount(c, total) {
      NoStrays(available, c, total, 0, first + 1);
      NoStrays(available, c, total, 0, first);
    }
  }

  lemma InnerRun(available: seq<bool>, c: pos, total: nat, first: nat, next: nat)
    requires first < next <= |available| && first < ChunkCount(c, total) && (first == 0 || !available[first - 1])
    requires Uniform(Having(available, c), true, Edge(c, total, first), Edge(c, total, next))
    requires Edge(c, total, first) < Edge(c, total, next)
    ensures RunsOf(Having(available, c), 0, Edge(c, total, next))
         == RunsOf(Having(available, c), 0, Edge(c, total, first))
            + [Range(first * c, Minus64(Edge(c, total, next), first * c))]
  {
    EdgeStep(available, c, total, first);
    FreshRun(available, c, total, first, Edge(c, total, first), Edge(c, total, next));
  }

  lemma EntryPassed(available: seq<bool>, c: pos, total: nat, k: nat)
    requires k < |available| && !available[k]
    ensures RunsOf(Having(available, c), 0, Edge(c, total, k + 1)) == RunsOf(Having(available, c), 0, Edge(c, total, k))
    ensures Strays(available, c, total, k + 1) == Strays(available, c, total, k)
  {
    if k < ChunkCount(c, total) {
      EdgeStep(available, c, total, k);
      RunsPassOver(Having(available, c), 0, Edge(c, total, k), Edge(c, total, k + 1));
    } else {
      EdgePast(c, total, k);
      EdgePast(c, total, k + 1);
    }
  }

  lemma AllPassed(available: seq<bool>, c: pos, total: nat)
    ensures RunsOf(Having(available, c), 0, Edge(c, total, |available|)) == Available(available, c, total)
  {
    var end := Edge(c, total, |available|);
    if |available| < ChunkCount(c, total) {
      EdgeStep(available + [true], c, total, |available|);
      PastListed(available, c, end, total);
      RunsPassOver(Having(available, c), 0, end, total);
    } else {
      EdgePast(c, total, |available|);
    }
  }

  // ----- what the queries mean -------------------------------------------------------------------------------

  /**
   For a range whose end does not wrap, the missing ranges are the maximal runs covering exactly those of its bytes,
   inside the value, whose chunk is absent.
   */
  lemma MissingIsExact(available: seq<bool>, c: pos, total: nat, r: Range)
    requires !r.Wraps()
    ensures Spaced(Missing(available, c, total, r), r.offset, r.offset + r.length)
    ensures forall b: nat :: Covered(Missing(available, c, total, r), b)
                        <==> r.Covers(b) && b < total && !Present(available, c, b)
  {
    var hi := Min(r.offset + r.length, total);
    if r.offset < hi {
      RunsAreMaximal(Lacking(available, c), r.offset, hi);
    }
  }

  lemma HeldIsPresent(available: seq<bool>, c: pos, lo: nat, hi: nat)
    requires lo < hi && AllHeld(available, lo / c, (hi - 1) / c)
    ensures Uniform(Lacking(available, c), false, lo, hi)
  {
    forall b: nat | lo <= b < hi ensures Present(available, c, b) {
      DivMonotone(lo, b, c);
      DivMonotone(b, hi - 1, c);
    }
  }

  lemma PresentIsHeld(available: seq<bool>, c: pos, lo: nat, hi: nat)
    requires lo < hi && Uniform(Lacking(available, c), false, lo, hi)
    ensures AllHeld(available, lo / c, (hi - 1) / c)
  {
    forall k | lo / c <= k <= (hi - 1) / c ensures Holds(available, k) {
      var b := ByteInChunk(c, lo, hi - 1, k);
      assert !Lacking(available, c)(b);
    }
  }

  lemma HeldIffPresent(available: seq<bool>, c: pos, lo: nat, hi: nat)
    requires lo < hi
    ensures AllHeld(available, lo / c, (hi - 1) / c) <==> Uniform(Lacking(available, c), false, lo, hi)
  {
    if AllHeld(available, lo / c, (hi - 1) / c) { HeldIsPresent(available, c, lo, hi); }
    if Uniform(Lacking(available, c), false, lo, hi) { PresentIsHeld(available, c, lo, hi); }
  }

  /** A range has no missing part exactly when the value has the range. */
  lemma MissingEmptyIffHas(available: seq<bool>, c: pos, total: nat, r: Range)
    requires !r.Wraps() && r.length > 0 && r.offset < total
    ensures Missing(available, c, total, r) == [] <==> HasAll(available, c, total, r)
  {
    var hi := Min(r.offset + r.length, total);
    RunsEmptyIff(Lacking(available, c), r.offset, hi);
    assert LastChunk(c, total, r) == (hi - 1) / c;
    HeldIffPresent(available, c, r.offset, hi);
  }

  /**
   The available ranges and the missing ranges of a whole value partition it: every byte of it lies in exactly one of
   them, and nothing else in either.
   */
  lemma AvailableAndMissingPartition(available: seq<bool>, c: pos, total: nat, b: nat)
    requires total < TWO_64
    ensures Covered(Available(available, c, total), b) ==> !Covered(Missing(available, c, total, Range(0, total)), b)
    ensures Covered(Available(available, c, total), b) || Covered(Missing(available, c, total, Range(0, total)), b)
       <==> b < total
  {
    if total > 0 {
      RunsCover(Having(available, c), 0, total, b);
      RunsCover(Lacking(available, c), 0, total, b);
    }
  }

  /** Their lengths add up: the available ones to the number of available bytes, all of them to the value's size. */
  lemma LengthsAddUp(available: seq<bool>, c: pos, total: nat)
    requires total < TWO_64
    ensures TotalLength(Available(available, c, total)) == Count(Having(available, c), 0, total)
    ensures TotalLength(Available(available, c, total))
          + TotalLength(Missing(available, c, total, Range(0, total))) == total
  {
    RunsCount(Having(available, c), 0, total);
    RunsCount(Lacking(available, c), 0, total);
    CountsAddUp(Having(available, c), Lacking(available, c), 0, total);
  }

  /**
   A range whose end wraps is reported as nothing missing, whatever is missing: right exactly when nothing is, from its
   start to the end of the value.
   */
  lemma WrappingHidesMissing(available: seq<bool>, c: pos, total: nat, r: Range)
    requires r.Wraps() && r.offset < total <= TWO_64 && r.length < TWO_64
    ensures Missing(available, c, total, r) == []
    ensures (forall b: nat :: Covered(Missing(available, c, total, r), b)
                         <==> r.Covers(b) && b < total && !Present(available, c, b))
       <==> (forall b: nat :: r.offset <= b < total ==> Present(available, c, b))
  {
    assert forall b: nat :: r.offset <= b < total ==> r.Covers(b);
  }

  /** And the value is said to have it, unless the wrapped end lies in the chunk of the start and that is absent. */
  lemma WrappingIsHad(available: seq<bool>, c: pos, total: nat, r: Range)
    requires r.Wraps() && r.offset < total <= TWO_64 && r.length < TWO_64
    ensures HasAll(available, c, total, r)
       <==> LastChunk(c, total, r) < r.offset / c || Holds(available, r.offset / c)
  {
    assert r.End() < r.offset;
    DivMonotone(if r.End() > 0 then r.End() - 1 else 0, r.offset, c);
  }

  /**
   That is right exactly when every byte from its start to the end of the value is present, or the answer is no: the
   wrapped end lies in the chunk of the start, and that is absent.
   */
  lemma WrappingIsHadRightlyIff(available: seq<bool>, c: pos, total: nat, r: Range)
    requires r.Wraps() && r.offset < total <= TWO_64 && r.length < TWO_64
    ensures (HasAll(available, c, total, r) <==> forall b: nat :: r.offset <= b < total ==> Present(available, c, b))
       <==> || (forall b: nat :: r.offset <= b < total ==> Present(available, c, b))
            || (LastChunk(c, total, r) == r.offset / c && !Holds(available, r.offset / c))
  {
    WrappingIsHad(available, c, total, r);
    assert r.End() < r.offset;
    DivMonotone(if r.End() > 0 then r.End() - 1 else 0, r.offset, c);
    assert Present(available, c, r.offset) <==> Holds(available, r.offset / c);
  }

  /** A wrapping range over a missing chunk: nothing is missing, and the value has it. */
  lemma WrappedRangeOverGap()
    ensures var r := Range(1, TWO_64 - 1);
      && Missing([true, false], 1, 2, r) == [] && HasAll([true, false], 1, 2, r)
      && r.Covers(1) && !Present([true, false], 1, 1)
  {
    WrappingIsHad([true, false], 1, 2, Range(1, TWO_64 - 1));
  }
}
