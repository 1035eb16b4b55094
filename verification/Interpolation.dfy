/** Linear interpolation in a table, x in 12.20 format (arm_linear_interp_q31/q15/q7). */
module Interpolation {
  import opened FixedPoint

  // `(x & 0xFFF00000) >> 20` and `x & 0x000FFFFF`
  function Index(x: Q31): int { x / 0x10_0000 }
  function Fraction(x: Q31): (f: int)
    ensures 0 <= f < 0x10_0000
  {
    x % 0x10_0000
  }

  // What the source demands of its caller: nValues readable entries, at least one.
  predicate TableOk<T>(table: seq<T>, nValues: int) {
    1 <= nValues <= |table| && nValues <= 0x8000_0000
  }

  // ---- Q31 ----

  function LinearQ31(table: seq<Q31>, x: Q31, nValues: int): Q31
    requires TableOk(table, nValues)
  {
    if Index(x) >= nValues - 1 then table[nValues - 1]
    else if Index(x) < 0 then table[0]
    else
      var fract := Fraction(x) * 0x800;
      var y := Wrap32(table[Index(x)] * (0x7FFF_FFFF - fract) / 0x1_0000_0000);
      var y' := Wrap32(y + Wrap32(table[Index(x) + 1] * fract / 0x1_0000_0000));
      Wrap32(y' * 2)
  }

  // The piecewise-linear function through the table, clamped at both ends, times 2^20.
  function ExactLinear(table: seq<int>, x: Q31, nValues: int): int
    requires TableOk(table, nValues)
  {
    if Index(x) >= nValues - 1 then table[nValues - 1] * 0x10_0000
    else if Index(x) < 0 then table[0] * 0x10_0000
    else table[Index(x)] * (0x10_0000 - Fraction(x)) + table[Index(x) + 1] * Fraction(x)
  }

  // The two floored terms of the segment formula, at weights W and 2048 f that sum to 2^31 - 1.
  lemma SegmentQ31(y0: Q31, y1: Q31, f: int)
    requires 0 <= f < 0x10_0000
    ensures var a, b := y0 * (0x7FFF_FFFF - f * 0x800) / 0x1_0000_0000, y1 * (f * 0x800) / 0x1_0000_0000;
      && -0x4000_0000 <= a <= 0x4000_0000 && -0x4000_0000 <= b <= 0x4000_0000
      && -0x4000_0000 <= a + b < 0x4000_0000
      && -5 * 0x10_0000 < 2 * (a + b) * 0x10_0000 - (y0 * (0x10_0000 - f) + y1 * f) <= 0x10_0000
  {
    var W := 0x7FFF_FFFF - f * 0x800;
    var A, B, p0, p1 := y0 * W, y1 * (f * 0x800), y0 * f, y1 * f;
    MulMono(W, -0x8000_0000, y0, 0x7FFF_FFFF);
    MulMono(f, -0x8000_0000, y1, 0x7FFF_FFFF);
    Distribute(y0, f);
    assert B == 0x800 * p1 by { assert y1 * (f * 0x800) == (y1 * f) * 0x800; }
    FloorsOfSegment(y0, A, B, p0, p1, f);
  }

  lemma Distribute(y: int, f: int)
    ensures y * (0x7FFF_FFFF - f * 0x800) == 0x7FFF_FFFF * y - 0x800 * (y * f)
    ensures y * (0x10_0000 - f) == 0x10_0000 * y - y * f
  {
  }

  // Linear once the products are named. The lower bound on a + b needs the weight of y0 to be
  // odd and the weight of y1 even.
  lemma FloorsOfSegment(y0: int, A: int, B: int, p0: int, p1: int, f: int)
    requires 0 <= f < 0x10_0000 && -0x8000_0000 <= y0 < 0x8000_0000
    requires A == 0x7FFF_FFFF * y0 - 0x800 * p0 && B == 0x800 * p1
    requires -0x8000_0000 * (0x7FFF_FFFF - f * 0x800) <= A <= 0x7FFF_FFFF * (0x7FFF_FFFF - f * 0x800)
    requires -0x8000_0000 * f <= p1 <= 0x7FFF_FFFF * f
    ensures var a, b := A / 0x1_0000_0000, B / 0x1_0000_0000;
      && -0x4000_0000 <= a <= 0x4000_0000 && -0x4000_0000 <= b <= 0x4000_0000
      && -0x4000_0000 <= a + b < 0x4000_0000
      && -5 * 0x10_0000 < 2 * (a + b) * 0x10_0000 - (0x10_0000 * y0 - p0 + p1) <= 0x10_0000
  {
  }

  /** Every read is in bounds, the final doubling never overflows, and the result R satisfies
    * E - 5 < R <= E + 1 for the exact value E. */
  lemma LinearQ31Accurate(table: seq<Q31>, x: Q31, nValues: int)
    requires TableOk(table, nValues)
    ensures -5 * 0x10_0000 < LinearQ31(table, x, nValues) * 0x10_0000 - ExactLinear(table, x, nValues) <= 0x10_0000
  {
    if 0 <= Index(x) < nValues - 1 {
      var f := Fraction(x);
      SegmentQ31(table[Index(x)], table[Index(x) + 1], f);
      var a := table[Index(x)] * (0x7FFF_FFFF - f * 0x800) / 0x1_0000_0000;
      var b := table[Index(x) + 1] * (f * 0x800) / 0x1_0000_0000;
      Wrap32Id(a);
      Wrap32Id(b);
      Wrap32Id(a + b);
      Wrap32Id((a + b) * 2);
    }
  }

  // x is f 2^-20ths past knot i.
  predicate PointAt(x: Q31, i: int, f: int) { 0 <= f < 0x10_0000 && x == i * 0x10_0000 + f }

  lemma PointAtIs(x: Q31, i: int, f: int)
    requires PointAt(x, i, f)
    ensures Index(x) == i && Fraction(x) == f
  {
  }

  /** Value by value: the end entries themselves outside the table, and between two knots an
    * even number, from weights that sum to 2^31 - 1 and two floors. */
  lemma LinearQ31Exact(table: seq<Q31>, nValues: int, x: Q31, i: int, f: int)
    requires TableOk(table, nValues) && PointAt(x, i, f)
    ensures i < 0 ==> LinearQ31(table, x, nValues) == table[0]
    ensures nValues - 1 <= i ==> LinearQ31(table, x, nValues) == table[nValues - 1]
    ensures 0 <= i < nValues - 1 ==>
      var r, w := LinearQ31(table, x, nValues), 0x800 * f;
      && r == 2 * (table[i] * (0x7FFF_FFFF - w) / 0x1_0000_0000 + table[i + 1] * w / 0x1_0000_0000)
      && 0 <= table[i] * (0x7FFF_FFFF - w) + table[i + 1] * w - 0x8000_0000 * r < 0x2_0000_0000
  {
    PointAtIs(x, i, f);
    if 0 <= i < nValues - 1 {
      hide Index, Fraction, Wrap32;
      SegmentQ31(table[i], table[i + 1], f);
      var a := table[i] * (0x7FFF_FFFF - f * 0x800) / 0x1_0000_0000;
      var b := table[i + 1] * (f * 0x800) / 0x1_0000_0000;
      Wrap32Id(a);
      Wrap32Id(b);
      Wrap32Id(a + b);
      Wrap32Id((a + b) * 2);
    }
  }

  // ---- Q15 and Q7 ----

  function LinearQ15(table: seq<Q15>, x: Q31, nValues: int): Q15
    requires TableOk(table, nValues)
  {
    if Index(x) >= nValues - 1 then table[nValues - 1]
    else if Index(x) < 0 then table[0]
    else
      var y := table[Index(x)] * (0xF_FFFF - Fraction(x));
      var y' := y + table[Index(x) + 1] * Fraction(x);
      Wrap16(y' / 0x10_0000)
  }

  // The Q7 version tests the sign first, then compares unsigned.
  function LinearQ7(table: seq<Q7>, x: Q31, nValues: int): Q7
    requires TableOk(table, nValues)
  {
    if x < 0 then table[0]
    else
      var index := x / 0x10_0000 % 0x1000;
      if index >= nValues - 1 then table[nValues - 1]
      else
        var y := Wrap32(table[index] * (0xF_FFFF - Fraction(x)));
        var y' := Wrap32(y + Wrap32(table[index + 1] * Fraction(x)));
        Wrap8(y' / 0x10_0000)
  }

  // Both compute this: weights that sum to 2^20 - 1, so a blend loses a little towards zero.
  function Blend(y0: int, y1: int, f: int): int {
    (y0 * (0xF_FFFF - f) + y1 * f) / 0x10_0000
  }

  function Interpolate(table: seq<int>, x: Q31, nValues: int): int
    requires TableOk(table, nValues)
  {
    if Index(x) >= nValues - 1 then table[nValues - 1]
    else if Index(x) < 0 then table[0]
    else Blend(table[Index(x)], table[Index(x) + 1], Fraction(x))
  }

  lemma BlendExpanded(y0: int, y1: int, f: int)
    ensures y0 * (0xF_FFFF - f) + y1 * f == 0xF_FFFF * y0 + (y1 - y0) * f
  {
  }

  /** A blend lies in the hull of its two values, extended by one below. */
  lemma BlendInHull(y0: int, y1: int, lo: int, hi: int, f: int)
    requires 0 <= f < 0x10_0000 && -0x8000 <= lo <= y0 <= hi <= 0x8000 && lo <= y1 <= hi
    ensures lo - 1 <= Blend(y0, y1, f) <= hi
    ensures lo <= 0 ==> lo <= Blend(y0, y1, f)
  {
    MulMono(0xF_FFFF - f, lo, y0, hi);
    MulMono(f, lo, y1, hi);
    SumOfWeights(lo, f);
    SumOfWeights(hi, f);
    FloorOfShrunk(y0 * (0xF_FFFF - f) + y1 * f, lo, hi);
  }

  lemma FloorOfShrunk(num: int, lo: int, hi: int)
    requires -0x8000 <= lo <= hi <= 0x8000 && 0xF_FFFF * lo <= num <= 0xF_FFFF * hi
    ensures lo - 1 <= num / 0x10_0000 <= hi
    ensures lo <= 0 ==> lo <= num / 0x10_0000
  {
  }

  lemma SumOfWeights(v: int, f: int)
    ensures (0xF_FFFF - f) * v + f * v == 0xF_FFFF * v
  {
  }

  lemma LinearQ15IsInterpolate(table: seq<Q15>, x: Q31, nValues: int)
    requires TableOk(table, nValues)
    ensures LinearQ15(table, x, nValues) == Interpolate(table, x, nValues)
  {
    if 0 <= Index(x) < nValues - 1 {
      BlendInHull(table[Index(x)], table[Index(x) + 1], -0x8000, 0x7FFF, Fraction(x));
    }
  }

  lemma LinearQ7IsInterpolate(table: seq<Q7>, x: Q31, nValues: int)
    requires TableOk(table, nValues)
    ensures LinearQ7(table, x, nValues) == Interpolate(table, x, nValues)
  {
    if 0 <= Index(x) < nValues - 1 {
      var y0, y1, f := table[Index(x)], table[Index(x) + 1], Fraction(x);
      assert x / 0x10_0000 % 0x1000 == Index(x);
      BlendInHull(y0, y1, -0x80, 0x7F, f);
      MulMono(0xF_FFFF - f, -0x80, y0, 0x7F);
      MulMono(f, -0x80, y1, 0x7F);
      Wrap32Id(y0 * (0xF_FFFF - f));
      Wrap32Id(y1 * f);
      Wrap32Id(y0 * (0xF_FFFF - f) + y1 * f);
    } else if 0 <= Index(x) {
      assert x / 0x10_0000 % 0x1000 == Index(x);
    }
  }

  /** Both, value by value: the end entries outside the table, and between two knots one floor
    * of the sum weighted with 2^20 - 1 - f and f. */
  lemma LinearQ15Exact(table: seq<Q15>, nValues: int, x: Q31, i: int, f: int)
    requires TableOk(table, nValues) && PointAt(x, i, f)
    ensures LinearQ15(table, x, nValues) ==
      if i < 0 then table[0] else if nValues - 1 <= i then table[nValues - 1]
      else (table[i] * (0xF_FFFF - f) + table[i + 1] * f) / 0x10_0000
  {
    LinearQ15IsInterpolate(table, x, nValues);
    PointAtIs(x, i, f);
  }

  lemma LinearQ7Exact(table: seq<Q7>, nValues: int, x: Q31, i: int, f: int)
    requires TableOk(table, nValues) && PointAt(x, i, f)
    ensures LinearQ7(table, x, nValues) ==
      if i < 0 then table[0] else if nValues - 1 <= i then table[nValues - 1]
      else (table[i] * (0xF_FFFF - f) + table[i + 1] * f) / 0x10_0000
  {
    LinearQ7IsInterpolate(table, x, nValues);
    PointAtIs(x, i, f);
  }

  /** Q15 and Q7 results R against the exact value E: E - 1 - 1/32 < R <= E + 1/32, the 32nds
    * coming from weights that sum to 2^20 - 1. */
  lemma InterpolateAccurate(table: seq<int>, x: Q31, nValues: int)
    requires TableOk(table, nValues) && Small(table, nValues)
    ensures -0x10_8000 < Interpolate(table, x, nValues) * 0x10_0000 - ExactLinear(table, x, nValues) <= 0x8000
  {
    if 0 <= Index(x) < nValues - 1 {
      var y0, y1, f := table[Index(x)], table[Index(x) + 1], Fraction(x);
      BlendIsExactLess(y0, y1, f);
    }
  }

  lemma BlendIsExactLess(y0: int, y1: int, f: int)
    ensures Blend(y0, y1, f) == (y0 * (0x10_0000 - f) + y1 * f - y0) / 0x10_0000
  {
    assert y0 * (0xF_FFFF - f) == y0 * (0x10_0000 - f) - y0;
  }

  // ---- Monotonicity over the whole axis ----

  ghost predicate NonDecreasing(table: seq<int>, nValues: int)
    requires TableOk(table, nValues)
  {
    forall i, j :: 0 <= i <= j < nValues ==> table[i] <= table[j]
  }

  ghost predicate Small(table: seq<int>, nValues: int)
    requires TableOk(table, nValues)
  {
    forall i :: 0 <= i < nValues ==> -0x8000 <= table[i] < 0x8000
  }

  /** Within one segment the blend follows the slope. */
  lemma BlendMonotone(y0: int, y1: int, f: int, f': int)
    requires y0 <= y1 && f <= f'
    ensures Blend(y0, y1, f) <= Blend(y0, y1, f')
  {
    BlendExpanded(y0, y1, f);
    BlendExpanded(y0, y1, f');
    MulMono(y1 - y0, f, f', f');
  }

  // At a knot the blend from either side gives the entry, less one if it is positive.
  function AtKnot(y: int): int { if y > 0 then y - 1 else y }

  lemma BlendAtKnots(y0: int, y1: int)
    requires -0x8000 <= y0 < 0x8000 && -0x8000 <= y1 < 0x8000
    ensures Blend(y0, y1, 0) == AtKnot(y0) && Blend(y0, y1, 0xF_FFFF) == AtKnot(y1)
  {
  }

  // Off the left clamp everything is ordered.
  lemma OrderedAboveZero(table: seq<int>, nValues: int, x: Q31, x': Q31)
    requires TableOk(table, nValues) && NonDecreasing(table, nValues) && Small(table, nValues)
    requires 0 <= x <= x'
    ensures Interpolate(table, x, nValues) <= Interpolate(table, x', nValues)
  {
    var i, j := Index(x), Index(x');
    assert i <= j;
    if i < nValues - 1 {
      BlendMonotone(table[i], table[i + 1], Fraction(x), 0xF_FFFF);
      BlendAtKnots(table[i], table[i + 1]);
      if j < nValues - 1 {
        if i == j {
          BlendMonotone(table[i], table[i + 1], Fraction(x), Fraction(x'));
        } else {
          BlendMonotone(table[j], table[j + 1], 0, Fraction(x'));
          BlendAtKnots(table[j], table[j + 1]);
        }
      }
    }
  }

  /** Over the whole axis a nondecreasing table is followed up to one unit. */
  lemma MonotoneUpToOne(table: seq<int>, nValues: int, x: Q31, x': Q31)
    requires TableOk(table, nValues) && NonDecreasing(table, nValues) && Small(table, nValues)
    requires x <= x'
    ensures Interpolate(table, x, nValues) <= Interpolate(table, x', nValues) + 1
  {
    if 0 <= x {
      OrderedAboveZero(table, nValues, x, x');
    } else if 0 <= x' {
      OrderedAboveZero(table, nValues, 0, x');
      if 2 <= nValues { BlendAtKnots(table[0], table[1]); }
    }
  }

  ghost predicate Monotone(table: seq<int>, nValues: int)
    requires TableOk(table, nValues)
  {
    forall x: Q31, x': Q31 :: x <= x' ==> Interpolate(table, x, nValues) <= Interpolate(table, x', nValues)
  }

  /** It is followed exactly if and only if the first entry is not positive (or is the only
    * one): the one step down there can be is from the left clamp to the first knot. */
  lemma MonotoneIff(table: seq<int>, nValues: int)
    requires TableOk(table, nValues) && NonDecreasing(table, nValues) && Small(table, nValues)
    ensures Monotone(table, nValues) <==> table[0] <= 0 || nValues == 1
  {
    if table[0] <= 0 || nValues == 1 {
      forall x: Q31, x': Q31 | x <= x'
        ensures Interpolate(table, x, nValues) <= Interpolate(table, x', nValues)
      {
        if 0 <= x {
          OrderedAboveZero(table, nValues, x, x');
        } else if 0 <= x' {
          OrderedAboveZero(table, nValues, 0, x');
          if 2 <= nValues { BlendAtKnots(table[0], table[1]); }
        }
      }
    } else {
      BlendAtKnots(table[0], table[1]);
      assert Interpolate(table, -1, nValues) == table[0];
      assert Interpolate(table, 0, nValues) == table[0] - 1;
    }
  }
}
