/** arm_recip_q31 and arm_recip_q15: normalise, look a seed up, take two Newton steps. */
module Reciprocal {
  import opened Bits
  import opened FixedPoint
  import opened BitLoops

  // ---- One Newton step, in exact arithmetic ----
  //
  // With K = 2^30 (Q31) or 2^14 (Q15) the operand a and the estimate o are below 2K and
  // the estimate converges to 2K^2 / a. The step is floored twice.

  function NewtonNext(K: int, a: int, o: int): int
    requires 0 < K
  {
    o * (2 * K - 1 - a * o / (2 * K)) / K
  }

  // How far a * o is from its target.
  function Residual(K: int, a: int, o: int): int {
    2 * K * K - a * o
  }

  // From here on D = 2K and R = D*D/2 is the target. p is the product a*o, T the correction
  // factor, p' the product after the step and s, r the two floor remainders.
  lemma NewtonIdentity(R: int, D: int, p: int, T: int, r: int)
    requires 2 * R == D * D && D * T == 2 * R - p + r
    ensures p * (D * T) == R * R - (R - p) * (R - p) + p * r
  {
    assert p * (2 * R - p + r) == 2 * (p * R) - p * p + p * r;
    assert (R - p) * (R - p) == R * R - 2 * (p * R) + p * p;
  }

  lemma FlooredProduct(K: int, a: int, o: int, T: int)
    requires 0 < K
    ensures var o' := o * T / K; var s := o * T % K;
      (a * o) * (2 * K * T) == 2 * K * K * (a * o') + 2 * K * (a * s)
  {
    var o' := o * T / K; var s := o * T % K;
    assert o * T == K * o' + s;
    calc {
      (a * o) * (2 * K * T);
      2 * K * (a * (o * T));
      2 * K * (a * (K * o' + s));
      2 * K * (a * (K * o')) + 2 * K * (a * s);
      { assert a * (K * o') == K * (a * o'); }
      2 * K * K * (a * o') + 2 * K * (a * s);
    }
  }

  // The shifted product is below 2K, so the correction factor is not negative.
  lemma CorrectionInRange(K: int, a: int, o: int)
    requires 1 <= K && 0 <= a < 2 * K && 0 <= o < 2 * K
    ensures 0 <= a * o && 0 <= a * o / (2 * K) < 2 * K
  {
    MulMono(a, 0, o, 2 * K - 1);
    MulMono(2 * K - 1, 0, a, 2 * K - 1);
    FloorBounds(a * o, 2 * K, 2 * K);
  }

  // The corrected product never reaches the target.
  lemma Overshoot(R: int, D: int, u: int, p: int, p': int, e: int, r: int)
    requires 0 < R && 0 < D && 0 <= u && 0 <= p && r < 0 && e == R - p
    requires R * p' + D * u == R * R - e * e + p * r
    ensures p' < R
  {
    MulMono(D, 0, u, u);
    MulMono(p, r, r, -1);
    SquareNonNeg(e);
    if R <= p' {
      MulMono(R, R, p', p');
      assert p == 0;
      assert e * e == R * R;
      MulMono(R, 1, R, R);
    }
  }

  // The residual bound, scaled by the target R.
  lemma ResidualBound(K: int, a: int, o: int, s: int, p: int, p': int, e: int, r: int)
    requires 1 <= K && 0 < a && 0 <= o < 2 * K && 0 <= s < K && p == a * o && -2 * K <= r
    requires 2 * K * K * p' + 2 * K * (a * s) == 2 * K * K * (2 * K * K) - e * e + p * r
    requires 0 <= p
    ensures 2 * K * K * (2 * K * K - p') < e * e + 2 * K * K * (3 * a)
  {
    var D, R, u := 2 * K, 2 * K * K, a * s;
    MulMono(p, -D, r, r);
    assert p + u == a * (o + s);
    MulMono(a, o + s, o + s, 3 * K - 1);
    ScaledBound(K, a, p + u);
    Rearrange(R, D, p, p', u, e * e, p * r);
  }

  lemma ScaledBound(K: int, a: int, x: int)
    requires 1 <= K && 0 < a && x <= a * (3 * K - 1)
    ensures 2 * K * x < 2 * K * K * (3 * a)
  {
    MulMono(2 * K, x, x, a * (3 * K) - 1);
    assert 2 * K * (a * (3 * K)) == 2 * K * K * (3 * a);
  }

  lemma Rearrange(R: int, D: int, p: int, p': int, u: int, e2: int, pr: int)
    requires R * p' + D * u == R * R - e2 + pr
    requires p * -D <= pr
    ensures R * (R - p') <= e2 + D * (p + u)
  {
    assert R * (R - p') == R * R - R * p';
    assert D * (p + u) == D * p + D * u;
  }

  /** One step from any estimate: the product stays strictly below the target, and the
    * residual shrinks quadratically up to the rounding term 3a. */
  lemma NewtonStep(K: int, a: int, o: int)
    requires 1 <= K <= a < 2 * K && 0 <= o < 2 * K
    ensures 0 <= a * o / (2 * K) < 2 * K
    ensures 0 <= NewtonNext(K, a, o) < 2 * K
    ensures var e, e' := Residual(K, a, o), Residual(K, a, NewtonNext(K, a, o));
      0 < e' && 2 * K * K * e' < e * e + 2 * K * K * (3 * a)
  {
    CorrectionInRange(K, a, o);
    var D, R, p := 2 * K, 2 * K * K, a * o;
    var t, rho := p / D, p % D;
    var T, r := D - 1 - t, rho - D;
    Correction(K, D, R, p, t, rho);
    NewtonIdentity(R, D, p, T, r);
    FlooredProduct(K, a, o, T);
    var o', s := o * T / K, o * T % K;
    MulMono(a, 0, s, s);
    Overshoot(R, D, a * s, p, a * o', R - p, r);
    ResidualBound(K, a, o, s, p, a * o', R - p, r);
    MulMono(o, 0, T, T);
    EstimateInRange(K, a, o', R);
  }

  lemma Correction(K: int, D: int, R: int, p: int, t: int, rho: int)
    requires D == 2 * K && R == 2 * K * K && p == D * t + rho
    ensures 2 * R == D * D && D * (D - 1 - t) == 2 * R - p + (rho - D)
  {
    assert D * D == 4 * (K * K);
    assert R == 2 * (K * K);
    assert D * (D - 1 - t) == D * D - D - D * t;
  }

  lemma EstimateInRange(K: int, a: int, o': int, R: int)
    requires 1 <= K <= a && R == 2 * K * K && a * o' < R
    ensures o' < 2 * K
  {
    if 2 * K <= o' {
      MulMono(a, 2 * K, o', o');
      MulMono(2 * K, K, a, a);
    }
  }

  // ---- arm_recip_q31 ----

  // `tempVal = max - (uint32_t) t` in 32-bit unsigned arithmetic.
  function UnsignedFrom(max: U32, t: int): U32 {
    (max - t % 0x1_0000_0000) % 0x1_0000_0000
  }

  lemma UnsignedFromInRange(max: U32, t: int)
    requires 0 <= t <= max
    ensures UnsignedFrom(max, t) == max - t
  {
  }

  // One pass of the loop, casts included.
  function StepQ31(a: Q31, out: Q31): Q31 {
    var correction := UnsignedFrom(0x7FFF_FFFF, a * out / 0x8000_0000);
    ProductBound(out, 0x8000_0000, correction, 0xFFFF_FFFF);
    ClipQ63ToQ31(out * correction / 0x4000_0000)
  }

  function SignBitsQ31(input: Q31): nat
    requires -0x8000_0000 < input
  {
    var m := if input > 0 then input else -input;
    ClzOf31Bits(m);
    Clz(m) - 1
  }

  function NormalQ31(input: Q31): Q31
    requires -0x8000_0000 < input
  {
    Wrap32(input * Pow2(SignBitsQ31(input)))
  }

  // Position in the seed table of the six bits below the leading one.
  function SeedIndexQ31(a: Q31): nat {
    a / 0x100_0000 % 64
  }

  // A positive input is shifted, without loss, to [2^30, 2^31).
  lemma NormalQ31Range(input: Q31)
    requires 0 < input
    ensures NormalQ31(input) == input * Pow2(SignBitsQ31(input))
    ensures 0x4000_0000 <= NormalQ31(input)
  {
    var s := SignBitsQ31(input);
    Pow2Values();
    ClzIff(input, s + 1);
    ShiftTopBit(input, 30 - s, s);
    assert 30 - s + s == 30 && 31 - s + s == 31;
    Wrap32Id(input * Pow2(s));
  }

  // While a * out >> 31 stays in 31 bits, the unsigned detour changes nothing.
  lemma StepQ31InRange(a: Q31, out: Q31)
    requires 0 <= a * out / 0x8000_0000 <= 0x7FFF_FFFF
    ensures StepQ31(a, out) == Sat31(out * (0x7FFF_FFFF - a * out / 0x8000_0000) / 0x4000_0000)
  {
    var t := a * out / 0x8000_0000;
    UnsignedFromInRange(0x7FFF_FFFF, t);
    var c := 0x7FFF_FFFF - t;
    ProductBound(out, 0x8000_0000, c, 0xFFFF_FFFF);
    ClipQ63ToQ31Saturates(out * c / 0x4000_0000);
  }

  /** One pass is the Newton step in exact arithmetic, clamped once, for every estimate and
    * every operand a shifted input can be. */
  lemma StepQ31Exact(a: Q31, out: Q31)
    requires -0x8000_0000 < a
    ensures StepQ31(a, out) == Sat31(out * (0x7FFF_FFFF - a * out / 0x8000_0000) / 0x4000_0000)
    ensures StepQ31(a, out) == Sat31(NewtonNext(0x4000_0000, a, out))
  {
    ProductBound(a, 0x7FFF_FFFF, out, 0x8000_0000);
    CorrectionQ31(a * out / 0x8000_0000);
    var c := UnsignedFrom(0x7FFF_FFFF, a * out / 0x8000_0000);
    hide UnsignedFrom;
    ProductBound(out, 0x8000_0000, c, 0xFFFF_FFFF);
    ClipQ63ToQ31Saturates(out * c / 0x4000_0000);
  }

  lemma CorrectionQ31(t: int)
    requires -0x8000_0000 <= t <= 0x7FFF_FFFF
    ensures UnsignedFrom(0x7FFF_FFFF, t) == 0x7FFF_FFFF - t
  {
  }

  // On a normalised operand no cast loses anything and the clip never fires.
  lemma StepQ31IsNewton(a: Q31, out: Q31)
    requires 0x4000_0000 <= a && 0 <= out
    ensures StepQ31(a, out) == NewtonNext(0x4000_0000, a, out)
    ensures 0 <= StepQ31(a, out) && a * StepQ31(a, out) < 0x2000_0000_0000_0000
  {
    NewtonStep(0x4000_0000, a, out);
    StepQ31InRange(a, out);
  }

  ghost predicate SeedOkQ31(a: Q31, seed: Q31) {
    0 <= seed && -0x80_0000_0000_0000 <= 0x2000_0000_0000_0000 - a * seed <= 0x80_0000_0000_0000
  }

  // A seed table good to six bits: every entry serves its whole segment of operands.
  ghost predicate GoodSeedsQ31(table: seq<Q31>) {
    && |table| == 64
    && forall a: Q31 :: 0x4000_0000 <= a ==> SeedOkQ31(a, table[SeedIndexQ31(a)])
  }

  // From a six-bit seed two steps leave a residual below 2^38 of 2^61.
  lemma TwoStepsQ31(a: Q31, seed: Q31)
    requires 0x4000_0000 <= a && SeedOkQ31(a, seed)
    ensures var out := StepQ31(a, StepQ31(a, seed));
      0 < 0x2000_0000_0000_0000 - a * out < 0x40_0000_0000
  {
    var K := 0x4000_0000;
    StepQ31IsNewton(a, seed);
    NewtonStep(K, a, seed);
    var out := StepQ31(a, seed);
    var e0, e1 := Residual(K, a, seed), Residual(K, a, out);
    ProductBound(e0, 0x80_0000_0000_0000, e0, 0x80_0000_0000_0000);
    assert 0 < e1 < 0x2_0000_0000_0000 + 3 * a;
    StepQ31IsNewton(a, out);
    NewtonStep(K, a, out);
    ProductBound(e1, 0x2_0002_0000_0000, e1, 0x2_0002_0000_0000);
  }

  // input * dst * 2^ret against 2^62: dst is 1/input in 1.31 format with exponent ret.
  ghost predicate NotAboveReciprocalQ31(input: Q31, dst: Q31, ret: nat) {
    0 <= dst && input * dst * Pow2(ret) < 0x4000_0000_0000_0000
  }

  ghost predicate CloseToReciprocalQ31(input: Q31, dst: Q31, ret: nat) {
    0x4000_0000_0000_0000 - 0x80_0000_0000 < input * dst * Pow2(ret) < 0x4000_0000_0000_0000
  }

  function RecipQ31(input: Q31, table: seq<Q31>): Q31
    requires -0x8000_0000 < input && |table| == 64
  {
    var a := NormalQ31(input);
    StepQ31(a, StepQ31(a, table[SeedIndexQ31(a)]))
  }

  /** One-sided for every positive input and any non-negative table, and within 2^-23 of the
    * reciprocal when the table is good to six bits. */
  lemma RecipQ31Accurate(input: Q31, table: seq<Q31>)
    requires 0 < input && |table| == 64
    ensures (forall s :: s in table ==> 0 <= s)
      ==> NotAboveReciprocalQ31(input, RecipQ31(input, table), SignBitsQ31(input) + 1)
    ensures GoodSeedsQ31(table)
      ==> CloseToReciprocalQ31(input, RecipQ31(input, table), SignBitsQ31(input) + 1)
  {
    var a := NormalQ31(input);
    var seed := table[SeedIndexQ31(a)];
    assert seed in table;
    NormalQ31Range(input);
    ScaleBack(input, RecipQ31(input, table), SignBitsQ31(input));
    if 0 <= seed {
      StepQ31IsNewton(a, seed);
      StepQ31IsNewton(a, StepQ31(a, seed));
    }
    if GoodSeedsQ31(table) {
      assert SeedOkQ31(a, table[SeedIndexQ31(a)]);
      TwoStepsQ31(a, seed);
    }
  }

  // The shift is lossless for every input; zero stays zero.
  lemma NormalQ31Exact(input: Q31)
    requires -0x8000_0000 < input
    ensures NormalQ31(input) == input * Pow2(SignBitsQ31(input)) && -0x8000_0000 < NormalQ31(input)
    ensures input > 0 ==> 0x4000_0000 <= NormalQ31(input)
    ensures input < 0 ==> NormalQ31(input) <= -0x4000_0000
    ensures input == 0 ==> SignBitsQ31(input) == 31
  {
    if 0 < input {
      NormalQ31Range(input);
    } else if input < 0 {
      NormalNegativeQ31(input);
    } else {
      NormalZeroQ31();
    }
    hide NormalQ31, SignBitsQ31, Pow2;
  }

  lemma NormalNegativeQ31(input: Q31)
    requires -0x8000_0000 < input < 0
    ensures NormalQ31(input) == input * Pow2(SignBitsQ31(input))
    ensures -0x8000_0000 < NormalQ31(input) <= -0x4000_0000
  {
    hide Pow2, SignBitsQ31, Wrap32;
    SignBitsOfOppositeQ31(input);
    NormalQ31Range(-input);
    NormalOpposite(input, Pow2(SignBitsQ31(input)), NormalQ31(-input));
  }

  lemma SignBitsOfOppositeQ31(input: Q31)
    requires -0x8000_0000 < input < 0
    ensures SignBitsQ31(-input) == SignBitsQ31(input)
  {
  }

  lemma NormalZeroQ31()
    ensures SignBitsQ31(0) == 31 && NormalQ31(0) == 0
  {
    assert Width(0) == 0;
    hide Pow2, Width;
  }

  /** The result is two clamped Newton steps in exact arithmetic, from the table entry the six
    * bits below the leading one select, on the input shifted into the top binade. */
  lemma RecipQ31IsTwoSteps(input: Q31, table: seq<Q31>)
    requires -0x8000_0000 < input && |table| == 64
    ensures TwoClampedSteps(input, table, SignBitsQ31(input), RecipQ31(input, table))
    ensures 0 < input && (forall s :: s in table ==> 0 <= s) ==>
      TwoNewtonSteps(input, table, SignBitsQ31(input), RecipQ31(input, table))
  {
    hide StepQ31, NormalQ31, NewtonNext, SignBitsQ31, Pow2, Sat31, Clamp;
    NormalQ31Exact(input);
    var a := NormalQ31(input);
    var seed := table[SeedIndexQ31(a)];
    StepQ31Exact(a, seed);
    StepQ31Exact(a, StepQ31(a, seed));
    if 0 < input && (forall s :: s in table ==> 0 <= s) {
      assert seed in table;
      StepQ31IsNewton(a, seed);
      StepQ31IsNewton(a, StepQ31(a, seed));
      LeadingBitQ31(a);
    }
  }

  lemma LeadingBitQ31(a: Q31)
    requires 0x4000_0000 <= a
    ensures SeedIndexQ31(a) == a / 0x100_0000 - 64
  {
  }

  ghost predicate TwoClampedSteps(input: Q31, table: seq<Q31>, shift: nat, dst: Q31)
    requires |table| == 64
  {
    var a := input * Pow2(shift);
    && -0x8000_0000 < a < 0x8000_0000
    && (if input > 0 then 0x4000_0000 <= a else if input < 0 then a <= -0x4000_0000 else shift == 31)
    && var o := Sat31(NewtonNext(0x4000_0000, a, table[a / 0x100_0000 % 64]));
    dst == Sat31(NewtonNext(0x4000_0000, a, o))
  }

  ghost predicate TwoNewtonSteps(input: Q31, table: seq<Q31>, shift: nat, dst: Q31)
    requires |table| == 64
  {
    var a := input * Pow2(shift);
    && 0x4000_0000 <= a < 0x8000_0000
    && dst == NewtonNext(0x4000_0000, a, NewtonNext(0x4000_0000, a, table[a / 0x100_0000 - 64]))
  }

  method ArmRecipQ31(input: Q31, table: seq<Q31>) returns (ret: nat, dst: Q31)
    requires -0x8000_0000 < input && |table| == 64
    ensures 1 <= ret && TwoClampedSteps(input, table, ret - 1, dst)
    ensures input > 0 && (forall s :: s in table ==> 0 <= s) ==> TwoNewtonSteps(input, table, ret - 1, dst)
    ensures ret == SignBitsQ31(input) + 1 && dst == RecipQ31(input, table)
    ensures input > 0 && (forall s :: s in table ==> 0 <= s) ==> NotAboveReciprocalQ31(input, dst, ret)
    ensures input > 0 && GoodSeedsQ31(table) ==> CloseToReciprocalQ31(input, dst, ret)
  {
    hide ClipQ63ToQ31, UnsignedFrom, Pow2, Width, GoodSeedsQ31, NotAboveReciprocalQ31, CloseToReciprocalQ31;
    hide TwoClampedSteps, TwoNewtonSteps;
    RecipQ31IsTwoSteps(input, table);
    var clz := CountLeadingZeros(if input > 0 then input else -input);
    ClzOf31Bits(if input > 0 then input else -input);
    var signBits := clz - 1;
    var a: Q31 := Wrap32(input * Pow2(signBits));
    var index := a / 0x100_0000 % 64;
    var out: Q31 := table[index];
    ghost var seed := out;
    for i := 0 to 2
      invariant i == 0 ==> out == seed
      invariant i == 1 ==> out == StepQ31(a, seed)
      invariant i == 2 ==> out == StepQ31(a, StepQ31(a, seed))
    {
      var shifted: int := a * out / 0x8000_0000;
      var tempVal := UnsignedFrom(0x7FFF_FFFF, shifted);
      ProductBound(out, 0x8000_0000, tempVal, 0xFFFF_FFFF);
      out := ClipQ63ToQ31(out * tempVal / 0x4000_0000);
    }
    dst := out;
    ret := signBits + 1;
    if input > 0 { RecipQ31Accurate(input, table); }
  }

  lemma ScaleBack(input: int, dst: int, s: nat)
    ensures input * dst * Pow2(s + 1) == 2 * (input * Pow2(s) * dst)
  {
    assert input * dst * (2 * Pow2(s)) == 2 * (input * Pow2(s) * dst);
  }

  // For inputs that are not positive the correction factor exceeds one on every step and
  // the estimate runs into the clip: the result says nothing about the input.
  lemma NonPositiveSaturatesQ31(input: Q31, table: seq<Q31>)
    requires -0x8000_0000 < input <= 0
    requires |table| == 64 && forall s :: s in table ==> 0x4000_0000 <= s
    ensures RecipQ31(input, table) == 0x7FFF_FFFF
  {
    NormalQ31Exact(input);
    assert table[SeedIndexQ31(NormalQ31(input))] in table;
    StepClips(NormalQ31(input), table[SeedIndexQ31(NormalQ31(input))]);
    StepClips(NormalQ31(input), 0x7FFF_FFFF);
  }

  lemma NormalOpposite(input: int, p: int, n: int)
    requires -input * p == n && 0 <= n < 0x8000_0000
    ensures Wrap32(input * p) == -n
  {
    assert input * p == -n;
    Wrap32Id(-n);
  }

  lemma StepClips(a: Q31, out: Q31)
    requires a <= 0 && 0x4000_0000 <= out
    ensures StepQ31(a, out) == 0x7FFF_FFFF
  {
    MulMono(out, -0x8000_0000, a, 0);
    var k := -(a * out / 0x8000_0000);
    assert 0 <= k <= out;
    var c := UnsignedFrom(0x7FFF_FFFF, a * out / 0x8000_0000);
    assert c == 0x7FFF_FFFF + k;
    MulMono(out, 0x7FFF_FFFF, c, c);
    ProductBound(out, 0x8000_0000, c, 0xFFFF_FFFF);
    ClipQ63ToQ31Saturates(out * c / 0x4000_0000);
  }

  // The hypothesis on the table can be met: take the reciprocal of each segment's midpoint.
  function Midpoint(i: nat): int { 0x4000_0000 + i * 0x100_0000 + 0x80_0000 }

  function MidpointSeedsQ31(): (t: seq<Q31>)
  {
    seq(64, i requires 0 <= i < 64 => 0x2000_0000_0000_0000 / Midpoint(i))
  }

  lemma MidpointSeedsAreGood()
    ensures GoodSeedsQ31(MidpointSeedsQ31())
  {
    forall a: Q31 | 0x4000_0000 <= a ensures SeedOkQ31(a, MidpointSeedsQ31()[SeedIndexQ31(a)]) {
      var i := SeedIndexQ31(a);
      assert a / 0x100_0000 == 64 + i;
      var m := Midpoint(i);
      var seed := 0x2000_0000_0000_0000 / m;
      assert m * seed == 0x2000_0000_0000_0000 - 0x2000_0000_0000_0000 % m;
      if 0x8000_0000 <= seed { MulMono(m, 0x8000_0000, seed, seed); }
      if seed < 0 { MulMono(m, seed, seed, -1); }
      ProductBound(a - m, 0x80_0000, seed, 0x8000_0000);
      assert a * seed == m * seed + (a - m) * seed;
    }
  }

  // ---- arm_recip_q15: the same scheme in 16 bits, without the clip ----

  function StepQ15(a: Q15, out: Q15): Q15 {
    UnsignedProduct(out, UnsignedFrom(0x7FFF, a * out / 0x8000))
  }

  // `(q15_t) (((q31_t) out * tempVal) >> 14)`: out becomes unsigned before the product.
  function UnsignedProduct(out: Q15, tempVal: U32): Q15 {
    Wrap16((out % 0x1_0000_0000) * tempVal % 0x1_0000_0000 / 0x4000)
  }

  // Only 30 bits of the product reach the result, so neither unsigned detour changes it.
  lemma UnsignedProductIs(out: Q15, c: int)
    ensures UnsignedProduct(out, c % 0x1_0000_0000) == Wrap16(out * c / 0x4000)
  {
    var M := 0x1_0000_0000;
    var i, j := out / M, c / M;
    var p := (out % M) * (c % M);
    assert out * c == p + M * (out % M * j + i * c) by {
      assert out == out % M + i * M && c == c % M + j * M;
      assert (out % M + i * M) * c == out % M * c + M * (i * c);
      assert out % M * (c % M + j * M) == p + M * (out % M * j);
    }
    LowBitsOnly(p, out % M * j + i * c);
  }

  lemma LowBitsOnly(p: int, k: int)
    ensures Wrap16(p % 0x1_0000_0000 / 0x4000) == Wrap16((p + 0x1_0000_0000 * k) / 0x4000)
  {
    var q := p / 0x1_0000_0000;
    assert p == p % 0x1_0000_0000 + 0x1_0000_0000 * q;
    assert (p + 0x1_0000_0000 * k) / 0x4000 == p % 0x1_0000_0000 / 0x4000 + 0x4_0000 * (q + k);
    Wrap16Shift(p % 0x1_0000_0000 / 0x4000, 4 * (q + k));
  }

  lemma Wrap16Shift(x: int, k: int)
    ensures Wrap16(x + 0x1_0000 * k) == Wrap16(x)
  {
  }

  /** One pass is the Newton step in exact arithmetic reduced to 16 bits once, for every
    * operand and every estimate. */
  lemma StepQ15Exact(a: Q15, out: Q15)
    ensures StepQ15(a, out) == Wrap16(out * (0x7FFF - a * out / 0x8000) / 0x4000)
    ensures StepQ15(a, out) == Wrap16(NewtonNext(0x4000, a, out))
  {
    hide UnsignedProduct, UnsignedFrom, Wrap16;
    var t := a * out / 0x8000;
    UnsignedFromIs(t);
    UnsignedProductIs(out, 0x7FFF - t);
  }

  lemma UnsignedFromIs(t: int)
    ensures UnsignedFrom(0x7FFF, t) == (0x7FFF - t) % 0x1_0000_0000
  {
  }

  lemma UnsignedProductInRange(out: Q15, tempVal: U32)
    requires 0 <= out && tempVal <= 0x7FFF
    ensures UnsignedProduct(out, tempVal) == Wrap16(out * tempVal / 0x4000)
  {
    MulMono(out, 0, tempVal, 0x7FFF);
    assert out % 0x1_0000_0000 == out;
    ModSmall(out * tempVal, 0x1_0000_0000);
  }

  function SignBitsQ15(input: Q15): nat
    requires -0x8000 < input
  {
    var m := if input > 0 then input else -input;
    ClzOf15Bits(m);
    Clz(m) - 17
  }

  lemma ClzOf15Bits(v: nat)
    requires v < 0x8000
    ensures 17 <= Clz(v)
  {
    Pow2Values();
    WidthAtMost(v, 15);
  }

  function NormalQ15(input: Q15): Q15
    requires -0x8000 < input
  {
    Wrap16(input * Pow2(SignBitsQ15(input)))
  }

  function SeedIndexQ15(a: Q15): nat {
    a / 0x100 % 64
  }

  lemma NormalQ15Range(input: Q15)
    requires 0 < input
    ensures NormalQ15(input) == input * Pow2(SignBitsQ15(input))
    ensures 0x4000 <= NormalQ15(input)
  {
    var s := SignBitsQ15(input);
    Pow2Values();
    ClzIff(input, s + 17);
    ShiftTopBit(input, 14 - s, s);
    assert 14 - s + s == 14 && 15 - s + s == 15;
    assert Pow2(15) == 2 * Pow2(14);
  }

  // The commented-out clip is not missed: the narrowing cast never wraps.
  lemma StepQ15IsNewton(a: Q15, out: Q15)
    requires 0x4000 <= a && 0 <= out
    ensures StepQ15(a, out) == NewtonNext(0x4000, a, out)
    ensures 0 <= StepQ15(a, out) && a * StepQ15(a, out) < 0x2000_0000
  {
    hide UnsignedProduct, UnsignedFrom;
    NewtonStep(0x4000, a, out);
    hide Residual;
    var t := a * out / 0x8000;
    UnsignedFromInRange(0x7FFF, t);
    UnsignedProductInRange(out, 0x7FFF - t);
  }

  ghost predicate SeedOkQ15(a: Q15, seed: Q15) {
    0 <= seed && -0x80_0000 <= 0x2000_0000 - a * seed <= 0x80_0000
  }

  ghost predicate GoodSeedsQ15(table: seq<Q15>) {
    && |table| == 64
    && forall a: Q15 :: 0x4000 <= a ==> SeedOkQ15(a, table[SeedIndexQ15(a)])
  }

  // The hypothesis can be met in 16 bits too.
  function MidpointQ15(i: nat): int { 0x4000 + i * 0x100 + 0x80 }

  function MidpointSeedsQ15(): (t: seq<Q15>)
  {
    seq(64, i requires 0 <= i < 64 => 0x2000_0000 / MidpointQ15(i))
  }

  lemma MidpointSeedsAreGoodQ15()
    ensures GoodSeedsQ15(MidpointSeedsQ15())
  {
    forall a: Q15 | 0x4000 <= a ensures SeedOkQ15(a, MidpointSeedsQ15()[SeedIndexQ15(a)]) {
      var i := SeedIndexQ15(a);
      assert a / 0x100 == 64 + i;
      var m := MidpointQ15(i);
      var seed := 0x2000_0000 / m;
      assert m * seed == 0x2000_0000 - 0x2000_0000 % m;
      if 0x8000 <= seed { MulMono(m, 0x8000, seed, seed); }
      if seed < 0 { MulMono(m, seed, seed, -1); }
      ProductBound(a - m, 0x80, seed, 0x8000);
      assert a * seed == m * seed + (a - m) * seed;
    }
  }

  // In 16 bits two steps reach the rounding floor 3a; the seed contributes 98 at most.
  lemma TwoStepsQ15(a: Q15, seed: Q15)
    requires 0x4000 <= a && SeedOkQ15(a, seed)
    ensures var out := StepQ15(a, StepQ15(a, seed));
      0 < 0x2000_0000 - a * out < 3 * a + 98
  {
    var K := 0x4000;
    StepQ15IsNewton(a, seed);
    NewtonStep(K, a, seed);
    var out := StepQ15(a, seed);
    var e0, e1 := Residual(K, a, seed), Residual(K, a, out);
    ProductBound(e0, 0x80_0000, e0, 0x80_0000);
    assert 0 < e1 < 0x2_0000 + 3 * a;
    StepQ15IsNewton(a, out);
    NewtonStep(K, a, out);
    ProductBound(e1, 0x3_7FFF, e1, 0x3_7FFF);
  }

  ghost predicate NotAboveReciprocalQ15(input: Q15, dst: Q15, ret: nat) {
    0 <= dst && input * dst * Pow2(ret) < 0x4000_0000
  }

  // Within 3 units of 2^-15 and a little: the residual is 3a + 98 of 2^29, doubled.
  ghost predicate CloseToReciprocalQ15(input: Q15, dst: Q15, ret: nat) {
    0x4000_0000 - 0x3_00C4 < input * dst * Pow2(ret) < 0x4000_0000
  }

  function RecipQ15(input: Q15, table: seq<Q15>): Q15
    requires -0x8000 < input && |table| == 64
  {
    var a := NormalQ15(input);
    StepQ15(a, StepQ15(a, table[SeedIndexQ15(a)]))
  }

  /** The Q15 counterpart of RecipQ31Accurate. */
  lemma RecipQ15Accurate(input: Q15, table: seq<Q15>)
    requires 0 < input && |table| == 64
    ensures (forall s :: s in table ==> 0 <= s)
      ==> NotAboveReciprocalQ15(input, RecipQ15(input, table), SignBitsQ15(input) + 1)
    ensures GoodSeedsQ15(table)
      ==> CloseToReciprocalQ15(input, RecipQ15(input, table), SignBitsQ15(input) + 1)
  {
    var a := NormalQ15(input);
    var seed := table[SeedIndexQ15(a)];
    assert seed in table;
    NormalQ15Range(input);
    ScaleBack(input, RecipQ15(input, table), SignBitsQ15(input));
    if 0 <= seed {
      StepQ15IsNewton(a, seed);
      StepQ15IsNewton(a, StepQ15(a, seed));
    }
    if GoodSeedsQ15(table) {
      assert SeedOkQ15(a, table[SeedIndexQ15(a)]);
      TwoStepsQ15(a, seed);
    }
  }

  // ---- Inputs that are not positive ----

  lemma NormalOppositeQ15(input: int, p: int, n: int)
    requires -input * p == n && 0 <= n < 0x8000
    ensures Wrap16(input * p) == -n
  {
    assert input * p == -n;
  }

  lemma GoodSeedsAreLarge(table: seq<Q15>, i: nat)
    requires GoodSeedsQ15(table) && i < 64
    ensures 0x3F00 <= table[i] && (i == 0 ==> 0x7E00 <= table[i])
  {
    var a: Q15 := 0x4000 + 0x100 * i;
    assert SeedIndexQ15(a) == i;
    assert SeedOkQ15(a, table[SeedIndexQ15(a)]);
    if table[i] < 0x3F00 { MulMono(table[i], 0, a, 0x7F00); }
  }

  // The correction factor is above one and its product with the estimate is past 16 bits.
  lemma StepQ15Overflows(a: Q15, out: Q15)
    requires (a == 0 && 0x7E00 <= out) || (a <= -0x4000 && 0x3F00 <= out)
    ensures 0x8000 <= NewtonNext(0x4000, a, out)
  {
    var c := 0x7FFF - a * out / 0x8000;
    if a == 0 {
      assert c == 0x7FFF;
    } else {
      MulMono(out, -0x8000, a, -0x4000);
      MulMono(out, 0x9F7F, c, c);
    }
  }

  /** A positive input is what the unclipped narrowing needs: with six-bit seeds it already
    * loses bits in the first step for every input that is not positive. */
  lemma PositiveIffFitsQ15(input: Q15, table: seq<Q15>)
    requires -0x8000 < input && GoodSeedsQ15(table)
    ensures var a := NormalQ15(input);
      var seed := table[SeedIndexQ15(a)];
      StepQ15(a, seed) == NewtonNext(0x4000, a, seed) <==> 0 < input
  {
    hide StepQ15, NewtonNext, NormalQ15, SeedOkQ15;
    var a := NormalQ15(input);
    GoodSeedsAreLarge(table, SeedIndexQ15(a));
    hide GoodSeedsQ15;
    if 0 < input {
      NormalQ15Range(input);
      StepQ15IsNewton(a, table[SeedIndexQ15(a)]);
    } else {
      NormalQ15Exact(input);
      StepQ15Overflows(a, table[SeedIndexQ15(a)]);
    }
  }

  lemma NormalQ15Exact(input: Q15)
    requires -0x8000 < input
    ensures NormalQ15(input) == input * Pow2(SignBitsQ15(input)) && -0x8000 < NormalQ15(input)
    ensures input > 0 ==> 0x4000 <= NormalQ15(input)
    ensures input < 0 ==> NormalQ15(input) <= -0x4000
    ensures input == 0 ==> SignBitsQ15(input) == 15
  {
    if 0 < input {
      NormalQ15Range(input);
    } else if input < 0 {
      NormalNegativeQ15(input);
    } else {
      NormalZeroQ15();
    }
    hide NormalQ15, SignBitsQ15, Pow2;
  }

  lemma NormalNegativeQ15(input: Q15)
    requires -0x8000 < input < 0
    ensures NormalQ15(input) == input * Pow2(SignBitsQ15(input))
    ensures -0x8000 < NormalQ15(input) <= -0x4000
  {
    hide Pow2, SignBitsQ15, Wrap16;
    SignBitsOfOppositeQ15(input);
    NormalQ15Range(-input);
    NormalOppositeQ15(input, Pow2(SignBitsQ15(input)), NormalQ15(-input));
  }

  lemma SignBitsOfOppositeQ15(input: Q15)
    requires -0x8000 < input < 0
    ensures SignBitsQ15(-input) == SignBitsQ15(input)
  {
  }

  lemma NormalZeroQ15()
    ensures SignBitsQ15(0) == 15 && NormalQ15(0) == 0
  {
    assert Width(0) == 0;
    hide Pow2, Width;
  }

  /** The Q15 counterpart of RecipQ31IsTwoSteps, with narrowing in place of clamping. */
  lemma RecipQ15IsTwoSteps(input: Q15, table: seq<Q15>)
    requires -0x8000 < input && |table| == 64
    ensures TwoNarrowedSteps(input, table, SignBitsQ15(input), RecipQ15(input, table))
    ensures 0 < input && (forall s :: s in table ==> 0 <= s) ==>
      TwoNewtonStepsQ15(input, table, SignBitsQ15(input), RecipQ15(input, table))
  {
    hide StepQ15, NormalQ15, NewtonNext, SignBitsQ15, Pow2, Wrap16;
    NormalQ15Exact(input);
    var a := NormalQ15(input);
    var seed := table[SeedIndexQ15(a)];
    StepQ15Exact(a, seed);
    StepQ15Exact(a, StepQ15(a, seed));
    if 0 < input && (forall s :: s in table ==> 0 <= s) {
      assert seed in table;
      StepQ15IsNewton(a, seed);
      StepQ15IsNewton(a, StepQ15(a, seed));
      LeadingBitQ15(a);
    }
  }

  lemma LeadingBitQ15(a: Q15)
    requires 0x4000 <= a
    ensures SeedIndexQ15(a) == a / 0x100 - 64
  {
  }

  ghost predicate TwoNarrowedSteps(input: Q15, table: seq<Q15>, shift: nat, dst: Q15)
    requires |table| == 64
  {
    var a := input * Pow2(shift);
    && -0x8000 < a < 0x8000
    && (if input > 0 then 0x4000 <= a else if input < 0 then a <= -0x4000 else shift == 15)
    && var o := Wrap16(NewtonNext(0x4000, a, table[a / 0x100 % 64]));
    dst == Wrap16(NewtonNext(0x4000, a, o))
  }

  ghost predicate TwoNewtonStepsQ15(input: Q15, table: seq<Q15>, shift: nat, dst: Q15)
    requires |table| == 64
  {
    var a := input * Pow2(shift);
    && 0x4000 <= a < 0x8000
    && dst == NewtonNext(0x4000, a, NewtonNext(0x4000, a, table[a / 0x100 - 64]))
  }

  method ArmRecipQ15(input: Q15, table: seq<Q15>) returns (ret: nat, dst: Q15)
    requires -0x8000 < input && |table| == 64
    ensures 1 <= ret && TwoNarrowedSteps(input, table, ret - 1, dst)
    ensures input > 0 && (forall s :: s in table ==> 0 <= s) ==> TwoNewtonStepsQ15(input, table, ret - 1, dst)
    ensures ret == SignBitsQ15(input) + 1 && dst == RecipQ15(input, table)
    ensures input > 0 && (forall s :: s in table ==> 0 <= s) ==> NotAboveReciprocalQ15(input, dst, ret)
    ensures input > 0 && GoodSeedsQ15(table) ==> CloseToReciprocalQ15(input, dst, ret)
  {
    hide UnsignedProduct, UnsignedFrom, Pow2, Width, GoodSeedsQ15, NotAboveReciprocalQ15, CloseToReciprocalQ15;
    hide TwoNarrowedSteps, TwoNewtonStepsQ15;
    RecipQ15IsTwoSteps(input, table);
    var clz := CountLeadingZeros(if input > 0 then input else -input);
    ClzOf15Bits(if input > 0 then input else -input);
    var signBits := clz - 17;
    var a: Q15 := Wrap16(input * Pow2(signBits));
    var index := a / 0x100 % 64;
    var out: Q15 := table[index];
    ghost var seed := out;
    for i := 0 to 2
      invariant i == 0 ==> out == seed
      invariant i == 1 ==> out == StepQ15(a, seed)
      invariant i == 2 ==> out == StepQ15(a, StepQ15(a, seed))
    {
      var shifted: int := a * out / 0x8000;
      var tempVal := UnsignedFrom(0x7FFF, shifted);
      out := UnsignedProduct(out, tempVal);
    }
    dst := out;
    ret := signBits + 1;
    if input > 0 { RecipQ15Accurate(input, table); }
  }
}
