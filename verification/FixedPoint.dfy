/** Fixed-point words and the scalar helpers of arm_math.h.
  *
  * A C integer is modelled by the mathematical integer it holds. `>>` on a signed
  * value is floor division (Dafny's `/` by a positive divisor), and every narrowing
  * cast that could lose bits is written out as a Wrap function.
  */
module FixedPoint {
  import opened Bits

  type Q7 = x: int | -0x80 <= x < 0x80
  type Q15 = x: int | -0x8000 <= x < 0x8000
  type Q31 = x: int | -0x8000_0000 <= x < 0x8000_0000
  type Q63 = x: int | -0x8000_0000_0000_0000 <= x < 0x8000_0000_0000_0000
  type U16 = x: int | 0 <= x < 0x1_0000
  type U32 = x: int | 0 <= x < 0x1_0000_0000

  // ---- Two's-complement narrowing ----

  function Wrap8(x: int): Q7 { (x + 0x80) % 0x100 - 0x80 }
  function Wrap16(x: int): Q15 { (x + 0x8000) % 0x1_0000 - 0x8000 }
  function Wrap32(x: int): Q31 { (x + 0x8000_0000) % 0x1_0000_0000 - 0x8000_0000 }
  function Wrap64(x: int): Q63 {
    (x + 0x8000_0000_0000_0000) % 0x1_0000_0000_0000_0000 - 0x8000_0000_0000_0000
  }

  // The sample `back` places from the end of a run, with zeros before the first one.
  function Sample(xs: seq<Q31>, back: nat): Q31
    requires 1 <= back
  {
    if back <= |xs| then xs[|xs| - back] else 0
  }

  /** Each narrowing keeps exactly the low bits; its type says the result is in range. */
  lemma WrapsKeepLowBits(x: int)
    ensures (x - Wrap8(x)) % 0x100 == 0
    ensures (x - Wrap16(x)) % 0x1_0000 == 0
    ensures (x - Wrap32(x)) % 0x1_0000_0000 == 0
    ensures (x - Wrap64(x)) % 0x1_0000_0000_0000_0000 == 0
  {
    NoRemainder(x, 0x80, 0x100);
    NoRemainder(x, 0x8000, 0x1_0000);
    NoRemainder(x, 0x8000_0000, 0x1_0000_0000);
    NoRemainder(x, 0x8000_0000_0000_0000, 0x1_0000_0000_0000_0000);
  }

  lemma NoRemainder(x: int, h: int, m: int)
    requires 0 < m
    ensures (x - ((x + h) % m - h)) % m == 0
  {
    DivModUnique(x - ((x + h) % m - h), m, (x + h) / m, 0);
  }

  // ---- Saturation: what the clips are for ----

  function Clamp(lo: int, hi: int, x: int): int {
    if x < lo then lo else if hi < x then hi else x
  }

  function Sat31(x: int): Q31 { Clamp(-0x8000_0000, 0x7FFF_FFFF, x) }
  function Sat15(x: int): Q15 { Clamp(-0x8000, 0x7FFF, x) }
  function Sat7(x: int): Q7 { Clamp(-0x80, 0x7F, x) }

  // Clamping is monotone and moves two points no further apart.
  lemma ClampMonotoneLipschitz(lo: int, hi: int, x: int, y: int)
    requires lo <= hi && x <= y
    ensures 0 <= Clamp(lo, hi, y) - Clamp(lo, hi, x) <= y - x
  {
  }

  // ---- The clips, with the sign-bit tests of the source ----

  // `c ^ s` where s is a sign mask, 0 or -1.
  function XorSign(c: int, s: int): int
    requires s == 0 || s == -1
  {
    if s == 0 then c else -1 - c
  }

  function ClipQ63ToQ31(x: Q63): Q31 {
    if Wrap32(x / 0x1_0000_0000) != Wrap32(x) / 0x8000_0000
    then XorSign(0x7FFF_FFFF, Wrap32(x / 0x8000_0000_0000_0000))
    else Wrap32(x)
  }

  function ClipQ63ToQ15(x: Q63): Q15 {
    if Wrap32(x / 0x1_0000_0000) != Wrap32(x) / 0x8000_0000
    then XorSign(0x7FFF, Wrap16(x / 0x8000_0000_0000_0000))
    else Wrap16(x / 0x8000)
  }

  function ClipQ31ToQ15(x: Q31): Q15 {
    if Wrap32(x / 0x1_0000) != x / 0x8000
    then XorSign(0x7FFF, Wrap16(x / 0x8000_0000))
    else Wrap16(x)
  }

  function ClipQ31ToQ7(x: Q31): Q7 {
    if Wrap32(x / 0x100_0000) != x / 0x80_0000
    then XorSign(0x7F, Wrap8(x / 0x8000_0000))
    else Wrap8(x)
  }

  // The sign-bit test of the two 64-bit clips asks exactly whether x fits 32 bits.
  lemma TopWordTest(x: Q63)
    ensures Wrap32(x / 0x1_0000_0000) == Wrap32(x) / 0x8000_0000
      <==> -0x8000_0000 <= x < 0x8000_0000
  {
    var h, l := x / 0x1_0000_0000, x % 0x1_0000_0000;
    Wrap32Id(h);
    Wrap32OfParts(h, l);
  }

  lemma Wrap32Id(x: int)
    requires -0x8000_0000 <= x < 0x8000_0000
    ensures Wrap32(x) == x
  {
  }

  lemma Wrap32Shift(x: int, k: int)
    ensures Wrap32(x + k * 0x1_0000_0000) == Wrap32(x)
  {
  }

  lemma Wrap64Id(x: int)
    requires -0x8000_0000_0000_0000 <= x < 0x8000_0000_0000_0000
    ensures Wrap64(x) == x
  {
  }

  lemma Wrap32OfParts(h: int, l: int)
    requires 0 <= l < 0x1_0000_0000
    ensures Wrap32(h * 0x1_0000_0000 + l) == if l < 0x8000_0000 then l else l - 0x1_0000_0000
  {
    var q := if l < 0x8000_0000 then h else h + 1;
    assert h * 0x1_0000_0000 + l + 0x8000_0000 == q * 0x1_0000_0000 + (l + 0x8000_0000 - (q - h) * 0x1_0000_0000);
  }

  lemma ClipQ63ToQ31Saturates(x: Q63)
    ensures ClipQ63ToQ31(x) == Sat31(x)
  {
    TopWordTest(x);
  }

  lemma ClipQ31ToQ15Saturates(x: Q31)
    ensures ClipQ31ToQ15(x) == Sat15(x)
  {
    var h := x / 0x8000;
    assert x / 0x1_0000 == h / 2;
    assert h == h / 2 <==> h == 0 || h == -1;
    assert x / 0x8000_0000 == if x < 0 then -1 else 0;
  }

  // clip_q63_to_q15 tests for 32 bits but keeps 31: its result is the saturated
  // x >> 15 exactly outside the two bands [2^30, 2^31) and [-2^31, -2^30).
  lemma ClipQ63ToQ15SaturatesIff(x: Q63)
    ensures ClipQ63ToQ15(x) == Sat15(x / 0x8000)
      <==> !(0x4000_0000 <= x < 0x8000_0000 || -0x8000_0000 <= x < -0x4000_0000)
    ensures 0x4000_0000 <= x < 0x8000_0000 ==> ClipQ63ToQ15(x) == x / 0x8000 - 0x1_0000
    ensures -0x8000_0000 <= x < -0x4000_0000 ==> ClipQ63ToQ15(x) == x / 0x8000 + 0x1_0000
  {
    TopWordTest(x);
  }

  // clip_q31_to_q7 shifts by 23 and 24 where 7 and 8 are meant: inside [-2^23, 2^23)
  // it keeps the low byte, which is the saturated value only for x in range or when
  // the low byte happens to be the bound itself.
  lemma ClipQ31ToQ7SaturatesIff(x: Q31)
    ensures ClipQ31ToQ7(x) == Sat7(x)
      <==> || x < -0x80_0000 || 0x80_0000 <= x
           || -0x80 <= x < 0x80
           || (0x80 <= x && x % 0x100 == 0x7F)
           || (x < -0x80 && x % 0x100 == 0x80)
    ensures -0x80_0000 <= x < 0x80_0000 ==>
      ClipQ31ToQ7(x) == if x % 0x100 < 0x80 then x % 0x100 else x % 0x100 - 0x100
  {
    var h := x / 0x80_0000;
    assert x / 0x100_0000 == h / 2;
    assert h == h / 2 <==> h == 0 || h == -1;
    assert x / 0x8000_0000 == if x < 0 then -1 else 0;
  }

  // ---- Saturating arithmetic ----

  function QAdd(x: Q31, y: Q31): Q31 { ClipQ63ToQ31(x + y) }
  function QSub(x: Q31, y: Q31): Q31 { ClipQ63ToQ31(x - y) }

  lemma QAddQSubSaturate(x: Q31, y: Q31)
    ensures QAdd(x, y) == Sat31(x + y)
    ensures QSub(x, y) == Sat31(x - y)
  {
    ClipQ63ToQ31Saturates(x + y);
    ClipQ63ToQ31Saturates(x - y);
  }

  // __SSAT(val, sat) for the generic C body.
  function Ssat(val: Q31, sat: U32): Q31 {
    if 1 <= sat <= 32 then
      var max := Pow2(sat - 1) - 1;
      var min := -1 - max;
      if val > max then Wrap32(max) else if val < min then Wrap32(min) else val
    else val
  }

  /** __SSAT clamps to sat bits, for every width it accepts, and does nothing for others. */
  lemma SsatClamps(val: Q31, sat: U32)
    ensures Ssat(val, sat) ==
      if 1 <= sat <= 32 then Clamp(0 - Pow2(sat - 1), Pow2(sat - 1) - 1, val) else val
  {
    if 1 <= sat <= 32 {
      Pow2Values();
      Pow2Mono(sat - 1, 31);
      Wrap32Id(Pow2(sat - 1) - 1);
      Wrap32Id(0 - Pow2(sat - 1));
    }
  }

  function Mult32x64(x: Q63, y: Q31): Q63 {
    Wrap64((x % 0x1_0000_0000) * y / 0x1_0000_0000 + (x / 0x1_0000_0000) * y)
  }

  // Splitting the 64-bit factor loses nothing: the result is the floor of the full
  // product, and no intermediate leaves 64 bits.
  lemma Mult32x64IsFloor(x: Q63, y: Q31)
    ensures Mult32x64(x, y) == x * y / 0x1_0000_0000
  {
    var h, l := x / 0x1_0000_0000, x % 0x1_0000_0000;
    var p, q := h * y, l * y;
    assert x * y == p * 0x1_0000_0000 + q by {
      assert x == h * 0x1_0000_0000 + l;
      assert x * y == (h * 0x1_0000_0000 + l) * y;
    }
    ProductBound(h, 0x8000_0000, y, 0x8000_0000);
    ProductBound(l, 0x1_0000_0000, y, 0x8000_0000);
    assert (p * 0x1_0000_0000 + q) / 0x1_0000_0000 == p + q / 0x1_0000_0000;
  }

  // ---- Small facts about products and floors ----

  lemma ProductBound(x: int, a: int, y: int, b: int)
    requires -a <= x <= a && -b <= y <= b
    ensures -(a * b) <= x * y <= a * b
  {
    if x >= 0 { MulMono(x, -b, y, b); MulMono(b, 0, x, a); }
    else { MulMono(-x, -b, y, b); MulMono(b, 0, -x, a); }
  }

  lemma MulMono(w: int, lo: int, v: int, hi: int)
    requires 0 <= w && lo <= v <= hi
    ensures w * lo <= w * v <= w * hi
  {
  }

  lemma SquareNonNeg(x: int)
    ensures 0 <= x * x
  {
  }

  lemma FloorBounds(x: int, d: int, q: int)
    requires 0 < d && 0 <= x < q * d
    ensures 0 <= x / d < q
  {
    if q <= x / d { MulMono(d, q, x / d, x / d); }
  }

  // |x| <= r follows from x*x <= r*r.
  lemma AbsFromSquares(x: int, r: int)
    requires 0 <= r && x * x <= r * r
    ensures -r <= x <= r
  {
    var y := if x < 0 then -x else x;
    assert y * y == x * x;
    assert (r + 1) * (r + 1) == r * r + 2 * r + 1;
    if r < y {
      MulMono(y, r + 1, y, y);       // y*(r+1) <= y*y
      MulMono(r + 1, r + 1, y, y);   // (r+1)*(r+1) <= (r+1)*y
    }
  }
}
