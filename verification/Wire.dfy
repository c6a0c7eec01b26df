/**
 The primitives of the wire format: little-endian integers, length-prefixed strings, flags. Each has three forms:
 `Put` appends to a buffer, `Write` puts the same bytes before a tail, and `Take` reads them off the front.
 */
module Wire {
  import opened Bytes

  /** Reading either succeeds, throws, or reads past the end unchecked. */
  datatype Outcome<+T> = Ok(value: T) | Thrown | OutOfBounds {
    predicate IsFailure() { !Ok? }
    function PropagateFailure<U>(): Outcome<U>
      requires IsFailure()
    {
      if Thrown? then Thrown else OutOfBounds
    }
    function Extract(): T
      requires Ok?
    {
      value
    }
  }

  /** What was read, and what follows it. */
  datatype Got<+T> = Got(value: T, rest: Bytes)

  // ----- little-endian numbers -------------------------------------------------------------------------------

  function Pow256(n: nat): pos {
    if n == 0 then 1 else 256 * Pow256(n - 1)
  }

  function LittleEndian(v: nat, n: nat): (s: Bytes)
    ensures |s| == n
    decreases n
  {
    if n == 0 then [] else [(v % 256) as byte] + LittleEndian(v / 256, n - 1)
  }

  function Number(s: Bytes): (v: nat) {
    if s == [] then 0 else s[0] as int + 256 * Number(s[1..])
  }

  /** The low bytes of a number read back as the number, when it fits. */
  lemma {:induction false} NumberOfLittleEndian(v: nat, n: nat)
    requires v < Pow256(n)
    ensures Number(LittleEndian(v, n)) == v
    decreases n
  {
    if n > 0 { NumberOfLittleEndian(v / 256, n - 1); }
  }

  /** And the bytes are those of the number they denote. */
  lemma {:induction false} LittleEndianOfNumber(s: Bytes)
    ensures Number(s) < Pow256(|s|) && LittleEndian(Number(s), |s|) == s
    decreases |s|
  {
    if s != [] {
      LittleEndianOfNumber(s[1..]);
      LowByte(s[0] as int, Number(s[1..]));
      assert s == [s[0]] + s[1..];
    }
  }

  lemma LowByte(low: nat, high: nat)
    requires low < 256
    ensures (low + 256 * high) % 256 == low && (low + 256 * high) / 256 == high
  {
  }

  lemma Powers()
    ensures Pow256(2) == TWO_16 && Pow256(4) == TWO_32 && Pow256(8) == TWO_64
  {
    assert Pow256(6) == 0x1_0000_0000_0000;
  }

  // ----- three forms -----------------------------------------------------------------------------------------

  function PutInt(buf: Bytes, v: nat, n: nat): Bytes { buf + LittleEndian(v, n) }

  function WriteInt(v: nat, n: nat, tail: Bytes): Bytes { LittleEndian(v, n) + tail }

  function TakeInt(d: Bytes, n: nat): (r: Outcome<Got<nat>>)
    ensures r.Ok? ==> r.value.value < Pow256(n) && |d| == n + |r.value.rest|
    ensures !r.OutOfBounds?
  {
    if |d| < n then Thrown
    else
      LittleEndianOfNumber(d[..n]);
      Ok(Got(Number(d[..n]), d[n..]))
  }

  /** A length or count, cut to 32 bits. */
  function Cut32(n: nat): (r: u32)
    ensures n < TWO_32 ==> r == n
  {
    n % TWO_32
  }

  function PutString(buf: Bytes, s: Bytes): Bytes { PutInt(buf, Cut32(|s|), 4) + s }

  function WriteString(s: Bytes, tail: Bytes): Bytes { WriteInt(Cut32(|s|), 4, s + tail) }

  function TakeString(d: Bytes): (r: Outcome<Got<Bytes>>)
    ensures r.Ok? ==> |r.value.value| < TWO_32 && |d| == 4 + |r.value.value| + |r.value.rest|
    ensures !r.OutOfBounds?
  {
    Powers();
    var length :- TakeInt(d, 4);
    if |length.rest| < length.value then Thrown
    else Ok(Got(length.rest[..length.value], length.rest[length.value..]))
  }

  function FlagByte(flag: bool): byte { if flag then 1 else 0 }

  function PutFlag(buf: Bytes, flag: bool): Bytes { buf + [FlagByte(flag)] }

  function WriteFlag(flag: bool, tail: Bytes): Bytes { [FlagByte(flag)] + tail }

  /** A flag is read without a bounds check; any byte but zero sets it. */
  function TakeFlag(d: Bytes): (r: Outcome<Got<bool>>)
    ensures r.OutOfBounds? <==> d == []
    ensures r.Ok? ==> d == [d[0]] + r.value.rest && (r.value.value <==> d[0] != 0)
    ensures !r.Thrown?
  {
    if d == [] then OutOfBounds else Ok(Got(d[0] != 0, d[1..]))
  }

  // ----- taking what was written -----------------------------------------------------------------------------

  lemma IntTaken(v: nat, n: nat, tail: Bytes)
    requires v < Pow256(n)
    ensures TakeInt(WriteInt(v, n, tail), n) == Ok(Got(v, tail))
  {
    NumberOfLittleEndian(v, n);
    assert WriteInt(v, n, tail)[..n] == LittleEndian(v, n);
    assert WriteInt(v, n, tail)[n..] == tail;
  }

  /** A string comes back exactly when its length fits its 32-bit prefix. */
  lemma StringTaken(s: Bytes, tail: Bytes)
    requires |s| < TWO_32
    ensures TakeString(WriteString(s, tail)) == Ok(Got(s, tail))
  {
    assert |s| < Pow256(4) by { Powers(); }
    IntTaken(|s|, 4, s + tail);
    Parted(s, tail);
  }

  lemma Parted(s: Bytes, tail: Bytes)
    ensures (s + tail)[..|s|] == s && (s + tail)[|s|..] == tail
  {
  }

  lemma FlagTaken(flag: bool, tail: Bytes)
    ensures TakeFlag(WriteFlag(flag, tail)) == Ok(Got(flag, tail))
  {
    assert WriteFlag(flag, tail)[1..] == tail;
  }

  // ----- appending is writing --------------------------------------------------------------------------------

  lemma Appended(buf: Bytes, part: Bytes, tail: Bytes)
    ensures (buf + part) + tail == buf + (part + tail)
  {
  }

  /** Written into an empty buffer, with nothing after it. */
  lemma Alone(x: Bytes, y: Bytes)
    requires x + [] == [] + y
    ensures x == y
  {
    assert x + [] == x && [] + y == y;
  }

  lemma IntAppended(buf: Bytes, v: nat, n: nat, tail: Bytes)
    ensures PutInt(buf, v, n) + tail == buf + WriteInt(v, n, tail)
  {
    Appended(buf, LittleEndian(v, n), tail);
  }

  lemma StringAppended(buf: Bytes, s: Bytes, tail: Bytes)
    ensures PutString(buf, s) + tail == buf + WriteString(s, tail)
  {
    Appended(PutInt(buf, Cut32(|s|), 4), s, tail);
    IntAppended(buf, Cut32(|s|), 4, s + tail);
  }

  lemma FlagAppended(buf: Bytes, flag: bool, tail: Bytes)
    ensures PutFlag(buf, flag) + tail == buf + WriteFlag(flag, tail)
  {
    Appended(buf, [FlagByte(flag)], tail);
  }

  // ----- lists -----------------------------------------------------------------------------------------------

  function PutAll<T>(put: (Bytes, T) -> Bytes, buf: Bytes, xs: seq<T>): Bytes
    decreases |xs|
  {
    if xs == [] then buf else PutAll(put, put(buf, xs[0]), xs[1..])
  }

  function WriteAll<T>(write: (T, Bytes) -> Bytes, xs: seq<T>, tail: Bytes): Bytes
    decreases |xs|
  {
    if xs == [] then tail else write(xs[0], WriteAll(write, xs[1..], tail))
  }

  function TakeAll<T>(take: Bytes -> Outcome<Got<T>>, d: Bytes, n: nat): (r: Outcome<Got<seq<T>>>)
    ensures r.Ok? ==> |r.value.value| == n
    decreases n
  {
    if n == 0 then Ok(Got([], d))
    else
      var first :- take(d);
      var more :- TakeAll(take, first.rest, n - 1);
      Ok(Got([first.value] + more.value, more.rest))
  }

  function SizeAll<T>(size: T -> nat, xs: seq<T>): nat {
    if xs == [] then 0 else size(xs[0]) + SizeAll(size, xs[1..])
  }

  lemma {:induction false} AllTaken<T>(write: (T, Bytes) -> Bytes, take: Bytes -> Outcome<Got<T>>, xs: seq<T>,
                                       tail: Bytes)
    requires forall i, t: Bytes :: 0 <= i < |xs| ==> take(write(xs[i], t)) == Ok(Got(xs[i], t))
    ensures TakeAll(take, WriteAll(write, xs, tail), |xs|) == Ok(Got(xs, tail))
    decreases |xs|
  {
    if xs != [] {
      AllTaken(write, take, xs[1..], tail);
      assert take(write(xs[0], WriteAll(write, xs[1..], tail))) == Ok(Got(xs[0], WriteAll(write, xs[1..], tail)));
      assert xs == [xs[0]] + xs[1..];
    }
  }

  lemma {:induction false} AllAppended<T(!new)>(put: (Bytes, T) -> Bytes, write: (T, Bytes) -> Bytes, buf: Bytes,
                                                xs: seq<T>, tail: Bytes)
    requires forall b: Bytes, x: T, t: Bytes :: put(b, x) + t == b + write(x, t)
    ensures PutAll(put, buf, xs) + tail == buf + WriteAll(write, xs, tail)
    decreases |xs|
  {
    if xs != [] {
      AllAppended(put, write, put(buf, xs[0]), xs[1..], tail);
    }
  }

  /** Taking a list consumes the sizes of what it returns. */
  lemma {:induction false} AllSized<T>(take: Bytes -> Outcome<Got<T>>, size: T -> nat, d: Bytes, n: nat)
    requires forall b: Bytes :: take(b).Ok? ==> |b| == size(take(b).value.value) + |take(b).value.rest|
    ensures var r := TakeAll(take, d, n); r.Ok? ==> |d| == SizeAll(size, r.value.value) + |r.value.rest|
    decreases n
  {
    if n > 0 && take(d).Ok? { AllSized(take, size, take(d).value.rest, n - 1); }
  }

  lemma {:induction false} AllWritten<T(!new)>(write: (T, Bytes) -> Bytes, size: T -> nat, xs: seq<T>, tail: Bytes)
    requires forall x: T, t: Bytes :: |write(x, t)| == size(x) + |t|
    ensures |WriteAll(write, xs, tail)| == SizeAll(size, xs) + |tail|
    decreases |xs|
  {
    if xs != [] { AllWritten(write, size, xs[1..], tail); }
  }

  lemma {:induction false} AllCounted<T>(size: T -> nat, xs: seq<T>)
    requires forall i :: 0 <= i < |xs| ==> size(xs[i]) > 0
    ensures |xs| <= SizeAll(size, xs)
    ensures forall i :: 0 <= i < |xs| ==> size(xs[i]) <= SizeAll(size, xs)
  {
    if xs != [] { AllCounted(size, xs[1..]); }
  }
}
