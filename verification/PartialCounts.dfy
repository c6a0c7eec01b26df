/**
 When the queries for what is present are right. A descriptor may list more or fewer chunks than its value has; then
 the ranges reported are the present runs unless an entry past the value's chunks starts a run of its own
 (`RangesExactIff`), and the bytes reported are the present bytes only if the entries around the end are alike
 (`BytesExactIff`).
 */
module PartialCounts {
  import opened Bytes
  import opened Chunking
  import opened Runs
  import opened PartialValues

  // ----- ranges ----------------------------------------------------------------------------------------------

  lemma {:induction false} StraysEmptyIff(available: seq<bool>, c: pos, total: nat, n: nat)
    ensures Strays(available, c, total, n) == [] <==> forall k :: 0 <= k < n ==> !IsStray(available, c, total, k)
  {
    if n > 0 { StraysEmptyIff(available, c, total, n - 1); }
  }

  /**
   The ranges reported are the present runs exactly when every available entry past the chunks of the value follows an
   available one; with no more entries than chunks they always are.
   */
  lemma RangesExactIff(available: seq<bool>, c: pos, total: nat)
    ensures Available(available, c, total) + Strays(available, c, total, |available|) == Available(available, c, total)
       <==> forall k :: ChunkCount(c, total) <= k < |available| && available[k] ==> k > 0 && available[k - 1]
  {
    StraysEmptyIff(available, c, total, |available|);
    var runs, strays := Available(available, c, total), Strays(available, c, total, |available|);
    assert |runs + strays| == |runs| + |strays|;
    if strays == [] {
      forall k | ChunkCount(c, total) <= k < |available| && available[k] ensures k > 0 && available[k - 1] {
        assert !IsStray(available, c, total, k);
      }
    } else {
      var k :| 0 <= k < |available| && IsStray(available, c, total, k);
    }
  }

  // ----- bytes -----------------------------------------------------------------------------------------------

  /** Entries before the last chunk stand for whole chunks. */
  lemma {:induction false} WholeChunks(available: seq<bool>, c: pos, total: nat, k: nat)
    requires k <= |available| && (k == 0 || k < ChunkCount(c, total))
    ensures Count(Having(available, c), 0, Edge(c, total, k)) == Held(available, k) * c
    decreases k
  {
    if k > 0 {
      WholeChunks(available, c, total, k - 1);
      EdgeStep(available, c, total, k - 1);
      CountUniform(Having(available, c), available[k - 1], 0, Edge(c, total, k - 1), Edge(c, total, k));
      OneMore(Held(available, k - 1), c);
    }
  }

  lemma OneMore(n: nat, c: pos)
    ensures (n + 1) * c == n * c + c
  {
  }

  /** Fewer entries than chunks: each stands for a whole chunk. */
  lemma PresentOfFewer(available: seq<bool>, c: pos, total: nat)
    requires |available| < ChunkCount(c, total)
    ensures Count(Having(available, c), 0, total) == Held(available, |available|) * c
    ensures |available| * c < total
  {
    var n := |available|;
    WholeChunks(available, c, total, n);
    EdgeStep(available + [true], c, total, n);
    PastListed(available, c, n * c, total);
    CountUniform(Having(available, c), false, 0, n * c, total);
    CountIsExact(c, total, n);
  }

  /** At least as many entries as chunks: the entry of the last chunk stands for what is left of the value. */
  lemma PresentOfAll(available: seq<bool>, c: pos, total: nat, m: nat)
    requires m == ChunkCount(c, total) <= |available| && m > 0
    ensures Count(Having(available, c), 0, total)
         == Held(available, m - 1) * c + if available[m - 1] then total - (m - 1) * c else 0
    ensures (m - 1) * c < total <= m * c
  {
    WholeChunks(available, c, total, m - 1);
    EdgeStep(available, c, total, m - 1);
    EdgePast(c, total, m);
    CountUniform(Having(available, c), available[m - 1], 0, Edge(c, total, m - 1), total);
  }

  lemma {:induction false} HeldBetween(available: seq<bool>, low: nat, high: nat)
    requires low <= high <= |available|
    ensures Held(available, low) <= Held(available, high) <= Held(available, low) + (high - low)
    ensures Held(available, high) == Held(available, low) <==> forall k :: low <= k < high ==> !available[k]
    ensures Held(available, high) == Held(available, low) + (high - low)
       <==> forall k :: low <= k < high ==> available[k]
    decreases high
  {
    if low < high { HeldBetween(available, low, high - 1); }
  }

  /** From here on the entries are alike: past the chunks of the value, with its last chunk if that is short. */
  function FirstAlike(c: pos, total: nat): nat {
    var m := ChunkCount(c, total);
    if m * c > total && m > 0 then m - 1 else m
  }

  ghost predicate Alike(available: seq<bool>, low: nat) {
    forall k :: low <= k < |available| ==> available[k] == available[|available| - 1]
  }

  /**
   The bytes reported are the bytes present exactly when, with fewer entries than chunks, the last entry is not
   available, and with at least as many, the entries past the chunks are alike, and like the last chunk's if that is
   short.
   */
  lemma BytesExactIff(available: seq<bool>, c: pos, total: nat)
    requires total + c <= TWO_64 && |available| * c < TWO_64
    ensures BytesOf(available, c, total) == Count(Having(available, c), 0, total)
       <==> if |available| < ChunkCount(c, total) then available == [] || !available[|available| - 1]
            else Alike(available, FirstAlike(c, total))
  {
    var n, m := |available|, ChunkCount(c, total);
    if n < m {
      FewerExactIff(available, c, total);
    } else if m == 0 {
      NothingExactIff(available, c, total);
    } else if n == m {
      SameExact(available, c, total);
    } else {
      MoreExactIff(available, c, total, m);
    }
  }

  lemma LastEntry(held: nat, total: nat, start: nat)
    requires start <= total
    ensures Minus64(held + total, start) == held + (total - start)
  {
  }

  lemma FewerExactIff(available: seq<bool>, c: pos, total: nat)
    requires |available| < ChunkCount(c, total)
    ensures BytesOf(available, c, total) == Count(Having(available, c), 0, total)
       <==> available == [] || !available[|available| - 1]
  {
    PresentOfFewer(available, c, total);
    if available != [] { FewerReported(available, c, total, Held(available, |available| - 1)); }
  }

  lemma FewerReported(available: seq<bool>, c: pos, total: nat, h: nat)
    requires available != [] && h == Held(available, |available| - 1) && |available| * c < total
    ensures BytesOf(available, c, total) == Held(available, |available|) * c <==> !available[|available| - 1]
  {
    OneMore(|available| - 1, c);
    OneMore(h, c);
    TooMany(h * c, total, (|available| - 1) * c, c);
  }

  lemma SameExact(available: seq<bool>, c: pos, total: nat)
    requires |available| == ChunkCount(c, total) > 0
    ensures BytesOf(available, c, total) == Count(Having(available, c), 0, total)
    ensures Alike(available, FirstAlike(c, total))
  {
    var last := |available| - 1;
    PresentOfAll(available, c, total, last + 1);
    LastEntry(Held(available, last) * c, total, last * c);
  }

  /** The last entry is taken for everything after the others. */
  lemma TooMany(held: nat, total: nat, start: nat, c: pos)
    requires start + c < total
    ensures Minus64(held + total, start) != held + c
  {
  }

  /** No bytes at all. */
  lemma NothingExactIff(available: seq<bool>, c: pos, total: nat)
    requires ChunkCount(c, total) == 0 && |available| * c < TWO_64
    ensures BytesOf(available, c, total) == Count(Having(available, c), 0, total) <==> Alike(available, 0)
    ensures FirstAlike(c, total) == 0
  {
    CountIsExact(c, total, 0);
    if available != [] {
      var last := |available| - 1;
      HeldBetween(available, 0, last);
      OneMore(last, c);
      Balance(0, Held(available, last), last, c, 0, false, available[last]);
      AlikeIs(available, 0);
    }
  }

  lemma AlikeIs(available: seq<bool>, low: nat)
    requires low < |available|
    ensures var last := |available| - 1; Alike(available, low) <==>
      if available[last] then forall k :: low <= k < last ==> available[k]
      else forall k :: low <= k < last ==> !available[k]
  {
  }

  /** What is reported for `held` bytes of whole chunks, `k` of `j` entries after them, and the last one. */
  function Reported(held: nat, kc: nat, jc: nat, short: nat, last: bool): int {
    if !last then held + kc
    else if held >= (jc - kc) + short then held - (jc - kc) - short
    else TWO_64 - ((jc - kc) + short - held)
  }

  lemma Balance(held: nat, k: nat, j: nat, c: pos, short: nat, inner: bool, last: bool)
    requires k <= j && short < c && (inner ==> held >= c) && j * c + short < TWO_64
    ensures Reported(held, k * c, j * c, short, last) == held - (if inner then short else 0)
       <==> if last then k == j && (inner || short == 0) else k == 0 && (!inner || short == 0)
  {
    MulLe(k, j, c);
    if k < j {
      Split2(k, j - k, c);
      MulLe(1, j - k, c);
    }
    if k > 0 { MulLe(1, k, c); }
  }

  lemma MoreExactIff(available: seq<bool>, c: pos, total: nat, m: nat)
    requires 0 < m == ChunkCount(c, total) < |available| && |available| * c < TWO_64
    ensures BytesOf(available, c, total) == Count(Having(available, c), 0, total)
       <==> Alike(available, FirstAlike(c, total))
  {
    var last, h := |available| - 1, Held(available, m);
    var k, j, short := Held(available, last) - h, last - m, m * c - total;
    HeldBetween(available, m, last);
    MoreCount(available, c, total, m);
    MoreBytes(available, c, total, m, h, k, j, short);
    OneMore(last, c);
    Split2(m, j, c);
    MulLe(1, m, c);
    if available[m - 1] { MulLe(1, h, c); }
    Balance(h * c, k, j, c, short, available[m - 1], available[last]);
    MoreAlike(available, m, short, k, j);
  }

  lemma MoreCount(available: seq<bool>, c: pos, total: nat, m: nat)
    requires 0 < m == ChunkCount(c, total) < |available|
    ensures 0 <= m * c - total < c
    ensures Count(Having(available, c), 0, total)
         == Held(available, m) * c - if available[m - 1] then m * c - total else 0
  {
    PresentOfAll(available, c, total, m);
    OneMore(m - 1, c);
    InnerCount(Held(available, m - 1), c, total, (m - 1) * c, available[m - 1]);
  }

  lemma MoreBytes(available: seq<bool>, c: pos, total: nat, m: nat, h: nat, k: nat, j: nat, short: nat)
    requires 0 < m && |available| == m + j + 1 && total + short == m * c && |available| * c < TWO_64
    requires Held(available, |available| - 1) == h + k && k <= j
    ensures BytesOf(available, c, total) == Reported(h * c, k * c, j * c, short, available[|available| - 1])
  {
    Split2(h, k, c);
    Split2(m, j, c);
    OneMore(m + j, c);
    MulLe(k, j, c);
    Difference(h * c, k * c, j * c, m * c, total, short);
  }

  lemma Split2(a: nat, b: nat, c: pos)
    ensures (a + b) * c == a * c + b * c
  {
  }

  lemma InnerCount(h: nat, c: pos, total: nat, start: nat, inner: bool)
    requires start < total <= start + c
    ensures h * c + (if inner then total - start else 0)
         == (h + if inner then 1 else 0) * c - if inner then start + c - total else 0
  {
    OneMore(h, c);
  }

  lemma Difference(held: nat, kc: nat, jc: nat, mc: nat, total: nat, short: nat)
    requires mc == total + short && kc <= jc && mc + jc < TWO_64 && short <= mc
    ensures Minus64(held + kc + total, mc + jc) == Reported(held, kc, jc, short, true)
  {
  }

  lemma MoreAlike(available: seq<bool>, m: nat, short: nat, k: nat, j: nat)
    requires 0 < m < |available| && j == |available| - 1 - m
    requires k == Held(available, |available| - 1) - Held(available, m)
    ensures var last := |available| - 1;
      Alike(available, if short > 0 then m - 1 else m)
      <==> if available[last] then k == j && (available[m - 1] || short == 0)
           else k == 0 && (!available[m - 1] || short == 0)
  {
    var low := if short > 0 then m - 1 else m;
    HeldBetween(available, m, |available| - 1);
    AlikeIs(available, low);
  }

  /** One chunk listed of two: the last entry is taken for the whole rest. */
  lemma ShortListingOvercounts()
    ensures BytesOf([true], 1, 2) == 2 && Count(Having([true], 1), 0, 2) == 1
  {
    PresentOfFewer([true], 1, 2);
    assert Held([true], 1) == 1;
  }

  /** Three entries for one chunk, the last one available: a range of 2^64 - 1 bytes is reported. */
  lemma LongListingStrays()
    ensures Strays([false, false, true], 1, 1, 3) == [Range(2, TWO_64 - 1)]
  {
    NoStrays([false, false, true], 1, 1, 0, 2);
    assert IsStray([false, false, true], 1, 1, 2);
  }
}
