/** Bytes, byte strings and byte ranges, and the subsequence relation between byte strings. */
module Bytes {

  newtype byte = x: int | 0 <= x < 256
  type Bytes = seq<byte>

  const TWO_16: int := 0x1_0000
  const TWO_32: int := 0x1_0000_0000
  const TWO_63: int := 0x8000_0000_0000_0000
  const TWO_64: int := 0x1_0000_0000_0000_0000

  type u16 = x: int | 0 <= x < TWO_16
  type u32 = x: int | 0 <= x < TWO_32
  type u64 = x: int | 0 <= x < TWO_64

  type pos = x: int | 0 < x witness 1

  /** A byte range. Its end is computed in 64 bits, so it is `offset + length` only when that does not wrap. */
  datatype Range = Range(offset: nat, length: nat) {
    function End(): nat { if Wraps() then offset + length - TWO_64 else offset + length }
    predicate Wraps() { offset + length >= TWO_64 }
    predicate Covers(i: int) { offset <= i < offset + length }
  }

  function Min(a: int, b: int): int { if a <= b then a else b }
  function Max(a: int, b: int): int { if a <= b then b else a }

  /** Subtraction of unsigned 64-bit numbers, which wraps below zero. */
  function Minus64(a: nat, b: nat): (r: nat)
    ensures b <= a ==> r == a - b
  {
    if b <= a then a - b else Max(0, TWO_64 - (b - a))
  }

  lemma AppendOne<T>(a: seq<T>, x: T, b: seq<T>)
    ensures a + ([x] + b) == (a + [x]) + b
  {
  }

  // ----- subsequences ----------------------------------------------------------------------------------------

  predicate Subsequence<T(==)>(a: seq<T>, b: seq<T>) {
    if a == [] then true
    else if b == [] then false
    else (a[0] == b[0] && Subsequence(a[1..], b[1..])) || Subsequence(a, b[1..])
  }

  lemma {:induction false} SubsequenceAfter<T>(a: seq<T>, skipped: seq<T>, b: seq<T>)
    requires Subsequence(a, b)
    ensures Subsequence(a, skipped + b)
  {
    if skipped == [] {
      assert skipped + b == b;
    } else {
      SubsequenceAfter(a, skipped[1..], b);
      assert (skipped + b)[1..] == skipped[1..] + b;
    }
  }

  lemma {:induction false} SubsequenceCopied<T>(copied: seq<T>, a: seq<T>, b: seq<T>)
    requires Subsequence(a, b)
    ensures Subsequence(copied + a, copied + b)
  {
    if copied == [] {
      assert copied + a == a && copied + b == b;
    } else {
      SubsequenceCopied(copied[1..], a, b);
      assert (copied + a)[1..] == copied[1..] + a;
      assert (copied + b)[1..] == copied[1..] + b;
    }
  }
}
