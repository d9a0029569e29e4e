/**
 * Boxes: products of exact intervals, one per dimension (`synth/Box.kt`).
 * A box is the sequence of its intervals; its volume is a left fold of the
 * widths and `subdivide` splits it into 2^d half-size children, child
 * `mask` taking the upper half of dimension d exactly when bit d of the
 * mask is set. Kotlin's 32-bit `shl`/`shr` are modelled explicitly.
 */
module Boxes {
  import opened Intervals

  type Box = seq<Interval>

  // ---------------------------------------------------------------------
  // volume
  // ---------------------------------------------------------------------

  /** The width of each dimension, in order. */
  function Widths(b: Box): (r: seq<real>)
    ensures |r| == |b| && forall d :: 0 <= d < |b| ==> r[d] == Size(b[d])
  {
    seq(|b|, d requires 0 <= d < |b| => Size(b[d]))
  }

  /** The product of a sequence of reals, folded from 1 and from the left. */
  function Product(ws: seq<real>): real
    decreases |ws|
  {
    if |ws| == 0 then 1.0 else Product(ws[..|ws| - 1]) * ws[|ws| - 1]
  }

  /** Every factor of a product of non-negative reals is non-negative. */
  lemma {:induction false} ProductNonNegative(ws: seq<real>)
    requires forall d :: 0 <= d < |ws| ==> ws[d] >= 0.0
    ensures Product(ws) >= 0.0
    decreases |ws|
  {
    if |ws| > 0 {
      ProductNonNegative(ws[..|ws| - 1]);
    }
  }

  /** `volume`: fold from 1, multiplying the width of each dimension in turn. */
  function Volume(b: Box): (r: real)
    ensures r >= 0.0
    ensures |b| == 0 ==> r == 1.0
  {
    ProductNonNegative(Widths(b));
    Product(Widths(b))
  }

  // ---------------------------------------------------------------------
  // 32-bit shifts
  // ---------------------------------------------------------------------

  function Pow2(k: nat): (r: nat)
    ensures r >= 1
  {
    if k == 0 then 1 else 2 * Pow2(k - 1)
  }

  /**
   * `1.shl(d)` on a 32-bit Int: the distance is taken modulo 32, and a
   * shift by 31 sets the sign bit, giving -2^31.
   */
  function ShiftOne(d: nat): int {
    if d % 32 == 31 then -0x8000_0000 else Pow2(d % 32) as int
  }

  /** The number of masks `0 until 1.shl(d)` enumerates (none for a bound <= 0). */
  function MaskCount(d: nat): (r: nat)
    ensures r == (if ShiftOne(d) <= 0 then 0 else ShiftOne(d))
  {
    if d % 32 == 31 then 0 else Pow2(d % 32)
  }

  /** For at most 30 dimensions the loop visits exactly 2^d masks. */
  lemma MaskCountSmall(d: nat)
    requires d <= 30
    ensures MaskCount(d) == Pow2(d)
  {
    assert d % 32 == d;
  }

  /** `m.shr(k)` for a non-negative m: k halvings, rounding down. */
  function ShiftRight(m: nat, k: nat): nat {
    if k == 0 then m else ShiftRight(m / 2, k - 1)
  }

  /** `mask.shr(d).and(1)`: the shift distance is taken modulo 32. */
  function Bit(mask: nat, d: nat): (r: nat)
    ensures r <= 1
  {
    ShiftRight(mask, d % 32) % 2
  }

  // ---------------------------------------------------------------------
  // subdivide
  // ---------------------------------------------------------------------

  /** Half the width of an interval. */
  function Half(i: Interval): (r: real)
    ensures r >= 0.0 && r + r == Size(i)
  {
    (i.high - i.low) / 2.0
  }

  /** The upper half [high - half, high] or the lower half [low, low + half]. */
  function ChildInterval(i: Interval, upper: bool): (r: Interval)
  {
    if upper then RawInterval(i.high - Half(i), i.high) else RawInterval(i.low, i.low + Half(i))
  }

  /** The child box selected by `mask`. */
  function Child(b: Box, mask: nat): (r: Box)
    ensures |r| == |b|
    ensures forall d :: 0 <= d < |b| ==> r[d] == ChildInterval(b[d], Bit(mask, d) == 1)
  {
    seq(|b|, d requires 0 <= d < |b| => ChildInterval(b[d], Bit(mask, d) == 1))
  }

  /** `subdivide`: one child per mask in 0 until 1.shl(dimensions), in mask order. */
  method Subdivide(b: Box) returns (result: seq<Box>)
    ensures |result| == MaskCount(|b|)
    ensures forall mask :: 0 <= mask < |result| ==> result[mask] == Child(b, mask)
  {
    var bound := ShiftOne(|b|);
    result := [];
    var mask := 0;
    while mask < bound
      invariant 0 <= mask && (bound > 0 ==> mask <= bound) && (bound <= 0 ==> mask == 0)
      invariant |result| == mask
      invariant forall m :: 0 <= m < mask ==> result[m] == Child(b, m)
    {
      result := result + [Child(b, mask)];
      mask := mask + 1;
    }
  }

  // ---------------------------------------------------------------------
  // properties of the children
  // ---------------------------------------------------------------------

  /** Each half lies inside its parent and is half as wide. */
  lemma ChildIntervalHalves(i: Interval, upper: bool)
    ensures var c := ChildInterval(i, upper);
      i.low <= c.low && c.high <= i.high && Size(c) * 2.0 == Size(i)
  {
  }

  /** The two halves meet at low + half and together cover the parent. */
  lemma HalvesCover(i: Interval, x: real)
    ensures ChildInterval(i, false).high == ChildInterval(i, true).low == i.low + Half(i)
    ensures Contains(i, x) <==> Contains(ChildInterval(i, false), x) || Contains(ChildInterval(i, true), x)
  {
  }

  /** A point lies in a box when each coordinate lies in its interval. */
  predicate InBox(b: Box, p: seq<real>) {
    |p| == |b| && forall d :: 0 <= d < |b| ==> Contains(b[d], p[d])
  }

  /** Every child is a sub-box of its parent. */
  lemma ChildInside(b: Box, mask: nat, p: seq<real>)
    requires InBox(Child(b, mask), p)
    ensures InBox(b, p)
  {
    forall d | 0 <= d < |b|
      ensures Contains(b[d], p[d])
    {
      ChildIntervalHalves(b[d], Bit(mask, d) == 1);
    }
  }

  /** A product whose factors are each half of another's is smaller by 2^|ws|. */
  lemma {:induction false} ProductHalves(ws: seq<real>, vs: seq<real>)
    requires |vs| == |ws| && forall d :: 0 <= d < |ws| ==> vs[d] * 2.0 == ws[d]
    ensures Product(vs) * Scale(|ws|) == Product(ws)
    decreases |ws|
  {
    if |ws| > 0 {
      var n := |ws| - 1;
      ProductHalves(ws[..n], vs[..n]);
      HalvingStep(Product(vs), Product(vs[..n]), vs[n], Product(ws), Product(ws[..n]), ws[n], Scale(|ws|), Scale(n));
    }
  }

  /** One induction step of ProductHalves, over plain reals. */
  lemma HalvingStep(vc: real, vc0: real, wc: real, v: real, v0: real, w: real, p: real, p0: real)
    requires p == p0 * 2.0
    requires vc == vc0 * wc && vc0 * p0 == v0 && wc * 2.0 == w && v == v0 * w
    ensures vc * p == v
  {
    assert vc * p == (vc0 * p0) * (wc * 2.0);
  }

  /** A box whose widths are each half of another's has 1/2^d of its volume. */
  lemma VolumeHalves(b: Box, c: Box)
    requires |c| == |b| && forall d :: 0 <= d < |b| ==> Size(c[d]) * 2.0 == Size(b[d])
    ensures Volume(c) * Scale(|b|) == Volume(b)
  {
    ProductHalves(Widths(b), Widths(c));
  }

  /** Widths halve in every dimension, so each child has volume Volume(b) / 2^|b|. */
  lemma ChildVolume(b: Box, mask: nat)
    ensures Volume(Child(b, mask)) * Scale(|b|) == Volume(b)
  {
    ChildHalves(b, mask);
    VolumeHalves(b, Child(b, mask));
  }

  /** Each dimension of a child is half as wide as the parent's. */
  lemma ChildHalves(b: Box, mask: nat)
    ensures forall d :: 0 <= d < |b| ==> Size(Child(b, mask)[d]) * 2.0 == Size(b[d])
  {
    forall d | 0 <= d < |b|
      ensures Size(Child(b, mask)[d]) * 2.0 == Size(b[d])
    {
      ChildIntervalHalves(b[d], Bit(mask, d) == 1);
    }
  }

  /** 2^k as a real number. */
  function Scale(k: nat): (r: real)
    ensures r >= 1.0
  {
    if k == 0 then 1.0 else 2.0 * Scale(k - 1)
  }

  // ---------------------------------------------------------------------
  // the children cover the box
  // ---------------------------------------------------------------------

  /** The mask whose bit d is `bits[d]`. */
  function MaskOf(bits: seq<bool>): (r: nat)
    ensures r < Pow2(|bits|)
  {
    if |bits| == 0 then 0 else (if bits[0] then 1 else 0) + 2 * MaskOf(bits[1..])
  }

  /** Bit d of MaskOf(bits) is bits[d] (for d below 32, where `shr` is exact). */
  lemma {:induction false} MaskOfBit(bits: seq<bool>, d: nat)
    requires d < |bits| && d < 32
    ensures Bit(MaskOf(bits), d) == (if bits[d] then 1 else 0)
  {
    if d > 0 {
      MaskOfBit(bits[1..], d - 1);
      assert MaskOf(bits) / 2 == MaskOf(bits[1..]);
    }
  }

  /** Whether a point takes the upper half in dimension d. */
  function UpperBits(b: Box, p: seq<real>): (r: seq<bool>)
    requires |p| == |b|
    ensures |r| == |b|
  {
    seq(|b|, d requires 0 <= d < |b| => p[d] >= b[d].low + Half(b[d]))
  }

  /**
   * For at most 30 dimensions every point of the box lies in one of the
   * children that `Subdivide` returns.
   */
  lemma SubdivideCovers(b: Box, p: seq<real>)
    requires |b| <= 30 && InBox(b, p)
    ensures exists mask :: 0 <= mask < MaskCount(|b|) && InBox(Child(b, mask), p)
  {
    var bits := UpperBits(b, p);
    var mask := MaskOf(bits);
    MaskCountSmall(|b|);
    forall d | 0 <= d < |b|
      ensures Contains(Child(b, mask)[d], p[d])
    {
      MaskOfBit(bits, d);
      HalvesCover(b[d], p[d]);
    }
    assert InBox(Child(b, mask), p);
  }

  // ---------------------------------------------------------------------
  // equality and hash
  // ---------------------------------------------------------------------

  /** `equals`: `contentEquals` on the interval arrays, with data-class equality of intervals. */
  function Equals(a: Box, b: Box): (r: bool)
    ensures r <==> a == b
  {
    |a| == |b| && forall i :: 0 <= i < |a| ==> a[i] == b[i]
  }

  /**
   * Reduction to a signed 32-bit value, as Java's int arithmetic wraps
   * and as `toLong().toInt()` keeps the low 32 bits.
   */
  function Wrap32(x: int): (r: int)
    ensures -0x8000_0000 <= r < 0x8000_0000
    ensures (r - x) % 0x1_0000_0000 == 0
  {
    (x + 0x8000_0000) % 0x1_0000_0000 - 0x8000_0000
  }

  /**
   * `hashCode`: `contentHashCode`, i.e. h := 31·h + hash(e) from h = 1,
   * wrapping at 32 bits; `elementHash` is the intervals' own hash.
   */
  function HashCode(b: Box, elementHash: Interval -> int): (r: int)
    ensures -0x8000_0000 <= r < 0x8000_0000
    decreases |b|
  {
    if |b| == 0 then 1 else Wrap32(31 * HashCode(b[..|b| - 1], elementHash) + elementHash(b[|b| - 1]))
  }

  /** Equal boxes hash alike: the hash reads nothing but the contents. */
  lemma EqualsHashCode(a: Box, b: Box, elementHash: Interval -> int)
    requires Equals(a, b)
    ensures HashCode(a, elementHash) == HashCode(b, elementHash)
  {
  }
}
