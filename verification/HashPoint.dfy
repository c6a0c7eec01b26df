/**
 Where the ring places a node's replicas. The point of a replica is a 64-bit mix of the node's id and the replica
 number. Every stage of the mix can be undone, so a node's replicas never share a point, and replicas of two nodes
 share one exactly when the xor of the ids is the xor of the scaled replica numbers.
 */
module HashPoint {
  import opened Bytes

  type NodeId = u64

  // ----- words -----------------------------------------------------------------------------------------------

  function Xor(a: nat, b: nat): nat
    decreases a + b
  {
    if a == 0 && b == 0 then 0 else 2 * Xor(a / 2, b / 2) + (a + b) % 2
  }

  function ShiftRight(a: nat, k: nat): nat
    decreases k
  {
    if k == 0 then a else ShiftRight(a / 2, k - 1)
  }

  function PowerOf2(k: nat): pos {
    if k == 0 then 1 else 2 * PowerOf2(k - 1)
  }

  lemma {:induction false} XorZero(a: nat)
    ensures Xor(a, 0) == a && Xor(0, a) == a
  {
    if a > 0 { XorZero(a / 2); }
  }

  lemma {:induction false} XorSelf(a: nat)
    ensures Xor(a, a) == 0
  {
    if a > 0 { XorSelf(a / 2); }
  }

  lemma {:induction false} XorCommutes(a: nat, b: nat)
    ensures Xor(a, b) == Xor(b, a)
    decreases a + b
  {
    if a + b > 0 { XorCommutes(a / 2, b / 2); }
  }

  lemma {:induction false} XorHalves(a: nat, b: nat)
    ensures Xor(a, b) / 2 == Xor(a / 2, b / 2) && Xor(a, b) % 2 == (a + b) % 2
  {
  }

  lemma SameParity(x: nat, sum: nat, d: nat)
    requires x % 2 == sum % 2
    ensures (x + d) % 2 == (sum + d) % 2
  {
  }

  lemma FromHalves(x: nat, y: nat)
    requires x / 2 == y / 2 && x % 2 == y % 2
    ensures x == y
  {
  }

  lemma RegroupedParity(a: nat, b: nat, d: nat, ab: nat, bd: nat)
    requires ab % 2 == (a + b) % 2 && bd % 2 == (b + d) % 2
    ensures (ab + d) % 2 == (a + bd) % 2
  {
    SameParity(ab, a + b, d);
    SameParity(bd, b + d, a);
  }

  lemma {:induction false} XorRegroups(a: nat, b: nat, d: nat, ab: nat, bd: nat)
    requires ab == Xor(a, b) && bd == Xor(b, d)
    ensures Xor(ab, d) == Xor(a, bd)
    decreases a + b + d
  {
    if a + b + d > 0 {
      XorHalves(a, b);
      XorHalves(b, d);
      XorRegroups(a / 2, b / 2, d / 2, ab / 2, bd / 2);
      RegroupedParity(a, b, d, ab, bd);
      XorHalves(ab, d);
      XorHalves(a, bd);
      FromHalves(Xor(ab, d), Xor(a, bd));
    }
  }

  lemma XorAssociates(a: nat, b: nat, d: nat)
    ensures Xor(Xor(a, b), d) == Xor(a, Xor(b, d))
  {
    XorRegroups(a, b, d, Xor(a, b), Xor(b, d));
  }

  lemma {:induction false} XorBound(a: nat, b: nat, k: nat)
    requires a < PowerOf2(k) && b < PowerOf2(k)
    ensures Xor(a, b) < PowerOf2(k)
    decreases k
  {
    if k > 0 {
      XorBound(a / 2, b / 2, k - 1);
      XorHalves(a, b);
    }
  }

  lemma {:induction false} ShiftXor(a: nat, b: nat, k: nat)
    ensures ShiftRight(Xor(a, b), k) == Xor(ShiftRight(a, k), ShiftRight(b, k))
    decreases k
  {
    if k > 0 {
      XorHalves(a, b);
      ShiftXor(a / 2, b / 2, k - 1);
    }
  }

  lemma {:induction false} ShiftShift(a: nat, j: nat, k: nat)
    ensures ShiftRight(ShiftRight(a, j), k) == ShiftRight(a, j + k)
    decreases j
  {
    if j > 0 { ShiftShift(a / 2, j - 1, k); }
  }

  lemma {:induction false} ShiftAway(a: nat, k: nat, w: nat)
    requires a < PowerOf2(w) && w <= k
    ensures ShiftRight(a, k) == 0
    decreases k
  {
    if k > 0 { ShiftAway(a / 2, k - 1, if w == 0 then 0 else w - 1); }
  }

  lemma {:induction false} ShiftSmaller(a: nat, k: nat)
    ensures ShiftRight(a, k) <= a
    decreases k
  {
    if k > 0 { ShiftSmaller(a / 2, k - 1); }
  }

  lemma PowerOf2Plus8(k: nat)
    ensures PowerOf2(k + 8) == 256 * PowerOf2(k)
  {
    assert PowerOf2(k + 2) == 4 * PowerOf2(k);
    assert PowerOf2(k + 4) == 16 * PowerOf2(k);
    assert PowerOf2(k + 6) == 64 * PowerOf2(k);
  }

  lemma Power64()
    ensures PowerOf2(64) == TWO_64
  {
    PowerOf2Plus8(0);
    PowerOf2Plus8(8);
    PowerOf2Plus8(16);
    PowerOf2Plus8(24);
    PowerOf2Plus8(32);
    PowerOf2Plus8(40);
    PowerOf2Plus8(48);
    PowerOf2Plus8(56);
  }

  /** Xor moves across an equation. */
  lemma XorMoves(a: nat, b: nat, s: nat, t: nat)
    ensures Xor(a, s) == Xor(b, t) <==> Xor(a, b) == Xor(s, t)
  {
    if Xor(a, s) == Xor(b, t) { XorMoved(a, s, b, t); }
    if Xor(a, b) == Xor(s, t) { XorMoved(a, b, s, t); }
  }

  lemma XorMoved(a: nat, s: nat, b: nat, t: nat)
    requires Xor(a, s) == Xor(b, t)
    ensures Xor(a, b) == Xor(s, t)
  {
    calc {
      Xor(a, b);
      { XorCancel(a, s); }
      Xor(Xor(Xor(a, s), s), b);
      Xor(Xor(Xor(b, t), s), b);
      { XorAssociates(b, t, s); XorCommutes(b, Xor(t, s)); }
      Xor(Xor(Xor(t, s), b), b);
      { XorCancel(Xor(t, s), b); XorCommutes(t, s); }
      Xor(s, t);
    }
  }

  lemma XorCancel(a: nat, s: nat)
    ensures Xor(Xor(a, s), s) == a
  {
    XorAssociates(a, s, s);
    XorSelf(s);
    XorZero(a);
  }

  // ----- the stages of the mix -------------------------------------------------------------------------------

  function Times(x: u64, m: nat): (y: u64) { x * m % TWO_64 }

  /** Fold the upper bits onto the lower ones. */
  function Fold(x: u64): (y: u64) {
    ShiftSmaller(x, 33);
    Power64();
    XorBound(x, ShiftRight(x, 33), 64);
    Xor(x, ShiftRight(x, 33))
  }

  const SCALE := 0x9E37_79B9_7F4A_7C15
  const FIRST := 0xFF51_AFD7_ED55_8CCD
  const SECOND := 0xC4CE_B9FE_1A85_EC53

  function Mix(x: u64): (y: u64) {
    Fold(Times(Fold(Times(Fold(x), FIRST)), SECOND))
  }

  function Combine(id: NodeId, replica: u64): (y: u64) {
    Power64();
    XorBound(id, Times(replica, SCALE), 64);
    Xor(id, Times(replica, SCALE))
  }

  /** The point of a node's replica. */
  function Point(id: NodeId, replica: u64): (point: u64) {
    Mix(Combine(id, replica))
  }

  // ----- every stage can be undone ---------------------------------------------------------------------------

  lemma FoldTwice(x: u64)
    ensures Fold(Fold(x)) == x
  {
    var s := ShiftRight(x, 33);
    ShiftXor(x, s, 33);
    ShiftShift(x, 33, 33);
    Power64();
    ShiftAway(x, 66, 64);
    XorZero(s);
    XorCancel(x, s);
  }

  lemma ModIs(a: int, q: int, r: u64)
    requires a == q * TWO_64 + r
    ensures a % TWO_64 == r
  {
  }

  /** Multiplying by an odd constant and then by its inverse changes nothing. */
  lemma TimesUndone(x: u64, m: nat, inverse: nat, k: nat)
    requires m * inverse == 1 + k * TWO_64
    ensures Times(Times(x, m), inverse) == x
  {
    var q := x * m / TWO_64;
    var y := Times(x, m);
    calc {
      y * inverse;
      (x * m - q * TWO_64) * inverse;
      x * (m * inverse) - (q * inverse) * TWO_64;
      (x * k - q * inverse) * TWO_64 + x;
    }
    ModIs(y * inverse, x * k - q * inverse, x);
  }

  const UNSCALE := 0xF1DE_83E1_9937_733D
  const UNFIRST := 0x4F74_430C_22A5_4005
  const UNSECOND := 0x9CB4_B2F8_1293_37DB

  function Unmix(y: u64): (x: u64) {
    Fold(Times(Fold(Times(Fold(y), UNSECOND)), UNFIRST))
  }

  lemma ScaleUndone(x: u64)
    ensures Times(Times(x, SCALE), UNSCALE) == x
  {
    TimesUndone(x, SCALE, UNSCALE, 0x957B_BF35_006E_D677);
  }

  lemma FirstUndone(x: u64)
    ensures Times(Times(x, FIRST), UNFIRST) == x
  {
    TimesUndone(x, FIRST, UNFIRST, 0x4F3E_2925_CB7C_5B4E);
  }

  lemma SecondUndone(x: u64)
    ensures Times(Times(x, SECOND), UNSECOND) == x
  {
    TimesUndone(x, SECOND, UNSECOND, 0x7878_E448_12B2_D581);
  }

  lemma MixUndone(x: u64)
    ensures Unmix(Mix(x)) == x
  {
    var a := Fold(x);
    var b := Fold(Times(a, FIRST));
    var d := Times(b, SECOND);
    FoldTwice(d);
    SecondUndone(b);
    FoldTwice(Times(a, FIRST));
    FirstUndone(a);
    FoldTwice(x);
  }

  /** Replicas of two nodes share a point exactly when the xor of the ids is the xor of the scaled replica numbers. */
  lemma PointsCollideIff(a: NodeId, i: u64, b: NodeId, j: u64)
    ensures Point(a, i) == Point(b, j) <==> Xor(a, b) == Xor(Times(i, SCALE), Times(j, SCALE))
  {
    MixUndone(Combine(a, i));
    MixUndone(Combine(b, j));
    XorMoves(a, b, Times(i, SCALE), Times(j, SCALE));
  }

  /** A node's replicas never share a point. */
  lemma ReplicasApart(id: NodeId, i: u64, j: u64)
    requires Point(id, i) == Point(id, j)
    ensures i == j
  {
    PointsCollideIff(id, i, id, j);
    XorSelf(id);
    var s, t := Times(i, SCALE), Times(j, SCALE);
    XorCancel(s, t);
    XorZero(t);
    ScaleUndone(i);
    ScaleUndone(j);
  }

  /** Points do collide: every node shares its first two points, swapped, with one other node. */
  lemma FirstTwoShared(id: NodeId)
    ensures var other := Combine(id, 1);
      other != id && Point(other, 0) == Point(id, 1) && Point(other, 1) == Point(id, 0)
  {
    var other := Combine(id, 1);
    assert Times(0, SCALE) == 0;
    XorZero(other);
    XorZero(id);
    assert Point(other, 0) == Point(id, 1);
    PointsCollideIff(other, 0, id, 1);
    XorCommutes(Times(0, SCALE), Times(1, SCALE));
    PointsCollideIff(other, 1, id, 0);
    if other == id { ReplicasApart(id, 0, 1); }
  }
}
