/**
 What the memory and the disk layer share: value descriptors, the plan of a read (expiry, clamping), and how a
 fetched list of chunks is turned into a result.
 */
module Reads {
  import opened Options
  import opened Bytes
  import opened Chunking
  import opened Assembly

  type Key = Bytes

  const MAX_KEY_SIZE: nat := 8 * 1024
  const MAX_VALUE_SIZE: nat := 20 * 1024 * 1024 * 1024 * 1024

  datatype ErrorCode = KeyTooLarge | ValueTooLarge | NotFound | InvalidArgument | InternalError
  datatype Status = Ok | Error(code: ErrorCode)

  /** A key's value: its size, the ids of its chunks in order, and when it expires. */
  datatype Descriptor<Id> = Descriptor(total: nat, chunks: seq<Id>, expiresAt: Option<int>)

  datatype CacheResult = Hit | Miss | PartialHit | Expired
  datatype ReadOptions = ReadOptions(allowPartial: bool, range: Option<Range>)
  datatype ReadResult = ReadResult(result: CacheResult, data: Bytes, actual: Range)

  const MISSED: ReadResult := ReadResult(Miss, [], Range(0, 0))

  function Expiry(created: int, ttl: Option<nat>): Option<int> {
    if ttl.Some? then Some(created + ttl.value) else None
  }

  predicate IsExpired<Id>(desc: Descriptor<Id>, now: int) {
    desc.expiresAt.Some? && now >= desc.expiresAt.value
  }

  function IdsOf<Id>(hash: Bytes -> Id, chunks: seq<Bytes>): (ids: seq<Id>)
    ensures |ids| == |chunks| && forall i :: 0 <= i < |ids| ==> ids[i] == hash(chunks[i])
  {
    seq(|chunks|, i requires 0 <= i < |chunks| => hash(chunks[i]))
  }

  function Describe<Id>(c: pos, hash: Bytes -> Id, v: Bytes, expiresAt: Option<int>): Descriptor<Id> {
    Descriptor(|v|, IdsOf(hash, Split(c, v)), expiresAt)
  }

  // ----- the plan of a read ----------------------------------------------------------------------------------

  datatype Plan = Answered(answer: ReadResult) | Wanted(range: Range)

  /** Expired and out-of-range reads are answered at once; otherwise the clamped range must be fetched. */
  function PlanRead<Id>(desc: Descriptor<Id>, opts: ReadOptions, now: int): (plan: Plan)
    ensures plan.Wanted? ==> plan.range.offset + plan.range.length <= desc.total
    ensures plan.Wanted? && opts.range.None? ==> plan.range == Range(0, desc.total)
    ensures plan.Wanted? && opts.range.Some? ==>
      && plan.range.offset == opts.range.value.offset
      && plan.range.offset + plan.range.length == Min(opts.range.value.offset + opts.range.value.length, desc.total)
  {
    if IsExpired(desc, now) then Answered(ReadResult(Expired, [], Range(0, 0)))
    else
      var range := if opts.range.Some? then opts.range.value else Range(0, desc.total);
      if range.offset >= desc.total then Answered(ReadResult(Hit, [], Range(range.offset, 0)))
      else Wanted(Clamp(range, desc.total))
  }

  /** The ids a read of the clamped range fetches. */
  function WantedIds<Id>(c: pos, desc: Descriptor<Id>, range: Range): (ids: seq<Id>) {
    var indices := ChunksForRange(c, desc.total, |desc.chunks|, range);
    seq(|indices|, i requires 0 <= i < |indices| => (IndexBelow(c, desc, range, i); desc.chunks[indices[i]]))
  }

  lemma IndexBelow<Id>(c: pos, desc: Descriptor<Id>, range: Range, i: nat)
    requires i < |ChunksForRange(c, desc.total, |desc.chunks|, range)|
    ensures ChunksForRange(c, desc.total, |desc.chunks|, range)[i] < |desc.chunks|
  {
  }

  function Conclude(c: pos, advance: bool, range: Range, chunks: seq<Option<Bytes>>, allFound: bool, allowPartial: bool)
      : (r: ReadResult)
  {
    if chunks == [] || (!allFound && !allowPartial) then MISSED
    else
      var data := AssembleRange(c, advance, chunks, range);
      ReadResult(if allFound && |data| == range.length then Hit else PartialHit, data, Range(range.offset, |data|))
  }

  // ----- what a plain map would answer -----------------------------------------------------------------------

  /** Where a read starts. */
  ghost function AskedFrom(opts: ReadOptions): nat {
    if opts.range.Some? then opts.range.value.offset else 0
  }

  /** The bytes of a value that a read with these options asks for. */
  ghost function Asked(v: Bytes, opts: ReadOptions): Bytes {
    match opts.range
    case None => v
    case Some(r) => if r.offset >= |v| then [] else v[r.offset..Min(r.offset + r.length, |v|)]
  }

  /** Byte i is the value's byte i from the start of the read on, up to the end of the range or of the value. */
  ghost predicate IsPart(data: Bytes, v: Bytes, opts: ReadOptions) {
    && (opts.range.None? ==> |data| == |v|)
    && (opts.range.Some? ==> |data| == Max(0, Min(opts.range.value.length, |v| - opts.range.value.offset)))
    && forall i :: 0 <= i < |data| ==> AskedFrom(opts) + i < |v| && data[i] == v[AskedFrom(opts) + i]
  }

  lemma AskedIsPart(v: Bytes, opts: ReadOptions)
    ensures IsPart(Asked(v, opts), v, opts)
  {
    var data, from := Asked(v, opts), AskedFrom(opts);
    forall i | 0 <= i < |data| ensures from + i < |v| && data[i] == v[from + i] {
      assert data == v[from..from + |data|];
    }
  }

  /** A result is honest about a value: a hit is exactly what was asked for, and says so. */
  ghost predicate Honest(v: Bytes, opts: ReadOptions, r: ReadResult) {
    r.result == Hit ==> r.data == Asked(v, opts) && r.actual == Range(AskedFrom(opts), |r.data|)
  }

  lemma ClampIsAsked(v: Bytes, opts: ReadOptions, range: Range)
    requires AskedFrom(opts) < |v|
    requires range == Clamp(if opts.range.Some? then opts.range.value else Range(0, |v|), |v|)
    ensures range.offset == AskedFrom(opts) && range.offset + range.length <= |v| && Slice(v, range) == Asked(v, opts)
  {
  }

  /** The chunks fetched for ids are, where found, the ones that were hashed to them. */
  ghost predicate Genuine(c: pos, v: Bytes, indices: seq<nat>, chunks: seq<Option<Bytes>>, allFound: bool) {
    && Fetched(c, v, indices, chunks)
    && (allFound ==> |chunks| == |indices| && AllPresent(chunks, 0))
  }

  /** A read answered from genuine chunks is honest, whatever is missing. */
  lemma ConcludeHonest<Id>(c: pos, advance: bool, hash: Bytes -> Id, v: Bytes, opts: ReadOptions,
                           expiresAt: Option<int>, now: int, chunks: seq<Option<Bytes>>, allFound: bool)
    requires |v| < TWO_64 && PlanRead(Describe(c, hash, v, expiresAt), opts, now).Wanted?
    requires var range := PlanRead(Describe(c, hash, v, expiresAt), opts, now).range;
             Genuine(c, v, ChunksForRange(c, |v|, ChunkCount(c, |v|), range), chunks, allFound)
    ensures var range := PlanRead(Describe(c, hash, v, expiresAt), opts, now).range;
            Honest(v, opts, Conclude(c, advance, range, chunks, allFound, opts.allowPartial))
  {
    var range := PlanRead(Describe(c, hash, v, expiresAt), opts, now).range;
    ClampIsAsked(v, opts, range);
    if range.length > 0 && allFound {
      ReadIsExact(c, advance, v, range, chunks);
    }
  }

  /** With everything found, a read of at least one byte is a hit. */
  lemma ConcludeHits(c: pos, advance: bool, v: Bytes, range: Range, chunks: seq<Option<Bytes>>, allowPartial: bool)
    requires 0 < range.length && range.offset + range.length <= |v| < TWO_64
    requires Genuine(c, v, ChunksForRange(c, |v|, ChunkCount(c, |v|), range), chunks, true)
    ensures Conclude(c, advance, range, chunks, true, allowPartial)
         == ReadResult(Hit, Slice(v, range), range)
  {
    ReadIsExact(c, advance, v, range, chunks);
    ChunksRun(c, |v|, range);
  }

  lemma AnsweredHonest<Id>(c: pos, hash: Bytes -> Id, v: Bytes, opts: ReadOptions, expiresAt: Option<int>, now: int)
    requires PlanRead(Describe(c, hash, v, expiresAt), opts, now).Answered?
    ensures Honest(v, opts, PlanRead(Describe(c, hash, v, expiresAt), opts, now).answer)
  {
  }
}
