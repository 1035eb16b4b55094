/** arm_pid_q15: the scalar build and the packed dual-multiply build, compared over runs. */
module PidQ15 {
  import opened Bits
  import opened FixedPoint

  datatype Gains = Gains(a0: Q15, a1: Q15, a2: Q15)

  // x[n-1], x[n-2], y[n-1]
  datatype State = State(x1: Q15, x2: Q15, y: Q15)

  // ---- Packed halfwords ----

  // Two Q15 values in one word, `lo` in the low half, as a little-endian read of two
  // adjacent samples or as the packed gains A1 | A2.
  function Pack(lo: Q15, hi: Q15): Q31 {
    lo % 0x1_0000 + hi * 0x1_0000
  }

  function AsUnsigned(x: Q31): U32 { x % 0x1_0000_0000 }

  // `((q31_t) x << 16) >> 16` and `((q31_t) x) >> 16`
  function Low(x: U32): Q15 { Wrap32(x * 0x1_0000) / 0x1_0000 }
  function High(x: U32): Q15 { Wrap32(x) / 0x1_0000 }

  lemma LowHighOfPack(lo: Q15, hi: Q15)
    ensures Low(AsUnsigned(Pack(lo, hi))) == lo && High(AsUnsigned(Pack(lo, hi))) == hi
  {
    hide Low, High;
    var l, h := lo % 0x1_0000, if hi < 0 then hi + 0x1_0000 else hi;
    assert AsUnsigned(Pack(lo, hi)) == l + h * 0x1_0000;
    LowOfHalves(l, h);
    HighOfHalves(l, h);
  }

  lemma LowOfHalves(l: int, h: int)
    requires 0 <= l < 0x1_0000 && 0 <= h < 0x1_0000
    ensures Low(l + h * 0x1_0000) == if l < 0x8000 then l else l - 0x1_0000
  {
    Wrap32Shift(l * 0x1_0000, h);
  }

  lemma HighOfHalves(l: int, h: int)
    requires 0 <= l < 0x1_0000 && 0 <= h < 0x1_0000
    ensures High(l + h * 0x1_0000) == if h < 0x8000 then h else h - 0x1_0000
  {
  }

  // A lone sample sign-extends into the high half.
  lemma LowHighOfSample(x: Q15)
    ensures Low(AsUnsigned(x)) == x && High(AsUnsigned(x)) == if x < 0 then -1 else 0
  {
    assert x == Pack(x, if x < 0 then -1 else 0);
    LowHighOfPack(x, if x < 0 then -1 else 0);
  }

  function TwoProducts(x: U32, y: U32): int { Low(x) * Low(y) + High(x) * High(y) }

  // SMUAD adds the two products in 32 bits.
  function Smuad(x: U32, y: U32): U32 { AsUnsigned(Wrap32(TwoProducts(x, y))) }

  // SMLALD adds both products to the accumulator in 64 bits.
  function Smlald(x: U32, y: U32, sum: Q63): Q63 { Wrap64(TwoProducts(x, y) + sum) }

  // What arm_math.h substitutes for it on cores without the instruction: the products are
  // added in 32 bits first.
  function SmlaldEmulated(x: U32, y: U32, sum: Q63): Q63 { Wrap64(Wrap32(TwoProducts(x, y)) + sum) }

  // ---- One sample ----

  function Finish(acc: Q63, y: Q15): Q15 {
    Wrap16(Ssat(Wrap32(Wrap64(acc + y * 0x8000) / 0x8000), 16))
  }

  function AccScalar(g: Gains, s: State, x: Q15): Q63 {
    ProductBound(g.a0, 0x8000, x, 0x8000);
    ProductBound(g.a1, 0x8000, s.x1, 0x8000);
    ProductBound(g.a2, 0x8000, s.x2, 0x8000);
    g.a0 * x + g.a1 * s.x1 + g.a2 * s.x2
  }

  function AccDual(g: Gains, s: State, x: Q15): Q63 {
    var acc := Wrap32(Smuad(AsUnsigned(g.a0), AsUnsigned(x)));
    Smlald(AsUnsigned(Pack(g.a1, g.a2)), AsUnsigned(Pack(s.x1, s.x2)), acc)
  }

  function StepScalar(g: Gains, s: State, x: Q15): State {
    State(x, s.x1, Finish(AccScalar(g, s, x), s.y))
  }

  function StepDual(g: Gains, s: State, x: Q15): State {
    State(x, s.x1, Finish(AccDual(g, s, x), s.y))
  }

  // The two sign-extended high halves multiply to one.
  predicate SignProduct(g: Gains, x: Q15) { g.a0 < 0 && x < 0 }

  lemma SquareIsMax(x: Q15, y: Q15)
    ensures x * y == 0x4000_0000 <==> x == -0x8000 && y == -0x8000
    ensures -0x3FFF_8000 <= x * y <= 0x4000_0000
  {
    if x == -0x8000 {
    } else if y == -0x8000 {
    } else {
      ProductBound(x, 0x7FFF, y, 0x7FFF);
    }
  }

  /** The emulation of SMLALD is the instruction on every input but one: both operands
    * (-1.0, -1.0), where the 32-bit sum of the products overflows. */
  lemma EmulationAgreesIff(x: U32, y: U32, sum: Q63)
    ensures SmlaldEmulated(x, y, sum) == Smlald(x, y, sum) <==> !(x == y == 0x8000_8000)
    ensures x == y == 0x8000_8000 ==> SmlaldEmulated(x, y, sum) == Wrap64(sum - 0x8000_0000)
  {
    MinimalHalves(x);
    MinimalHalves(y);
    SquareIsMax(Low(x), Low(y));
    SquareIsMax(High(x), High(y));
    hide Low, High;
    var p, q := Low(x) * Low(y), High(x) * High(y);
    WrapOfTwoProducts(p, q);
    Wrap64Differs(p + q, sum);
  }

  /** Both dual multiplies on packed operands, for every accumulator. */
  lemma DualMultiplies(a: Q15, b: Q15, c: Q15, d: Q15, sum: Q63)
    ensures Wrap32(Smuad(AsUnsigned(Pack(a, b)), AsUnsigned(Pack(c, d)))) == Wrap32(a * c + b * d)
    ensures Smlald(AsUnsigned(Pack(a, b)), AsUnsigned(Pack(c, d)), sum) == Wrap64(a * c + b * d + sum)
  {
    LowHighOfPack(a, b);
    LowHighOfPack(c, d);
    hide Low, High, Pack;
    SignedAgain(Wrap32(a * c + b * d));
  }

  lemma MinimalHalves(x: U32)
    ensures Low(x) == -0x8000 && High(x) == -0x8000 <==> x == 0x8000_8000
  {
    LowOfHalves(x % 0x1_0000, x / 0x1_0000);
    HighOfHalves(x % 0x1_0000, x / 0x1_0000);
  }

  lemma Wrap64Differs(t: int, sum: Q63)
    ensures Wrap64(t - 0x1_0000_0000 + sum) != Wrap64(t + sum)
  {
  }

  lemma WrapOfTwoProducts(p: int, q: int)
    requires -0x3FFF_8000 <= p <= 0x4000_0000 && -0x3FFF_8000 <= q <= 0x4000_0000
    ensures Wrap32(p + q) == p + q - if p == 0x4000_0000 && q == 0x4000_0000 then 0x1_0000_0000 else 0
  {
  }

  lemma SmuadOfSamples(a: Q15, x: Q15)
    ensures Wrap32(Smuad(AsUnsigned(a), AsUnsigned(x))) == a * x + if a < 0 && x < 0 then 1 else 0
  {
    LowHighOfSample(a);
    LowHighOfSample(x);
    SquareIsMax(a, x);
    var p := a * x;
    var c := if a < 0 && x < 0 then 1 else 0;
    assert High(AsUnsigned(a)) * High(AsUnsigned(x)) == c;
    Wrap32Id(p + c);
    SignedAgain(p + c);
  }

  lemma SignedAgain(x: Q31)
    ensures Wrap32(AsUnsigned(x)) == x
  {
  }

  /** The packed build accumulates what the scalar one does, plus one when gain and sample are
    * both negative; no sum of its own overflows. */
  lemma AccDualVsScalar(g: Gains, s: State, x: Q15)
    ensures AccDual(g, s, x) == AccScalar(g, s, x) + if SignProduct(g, x) then 1 else 0
  {
    SmuadOfSamples(g.a0, x);
    LowHighOfPack(g.a1, g.a2);
    LowHighOfPack(s.x1, s.x2);
    AccScalarBounds(g, s, x);
    hide Low, High, Pack, Smuad;
    Wrap64Id(AccScalar(g, s, x) + if SignProduct(g, x) then 1 else 0);
  }

  // No accumulator of either build loses bits before the saturation.
  lemma FinishSaturates(acc: Q63, y: Q15)
    requires -0x1_8000_0000 <= acc <= 0x1_8000_0000
    ensures Finish(acc, y) == Sat15(acc / 0x8000 + y)
  {
    Wrap64Id(acc + y * 0x8000);
    Wrap32Id((acc + y * 0x8000) / 0x8000);
    Pow2Values();
    assert 16 - 1 == 15;
    assert Ssat((acc + y * 0x8000) / 0x8000, 16) == Sat15((acc + y * 0x8000) / 0x8000);
  }

  // One instance as either build of the library sees it. With the DSP extension the gains
  // A1 and A2 are one packed word and both old samples are fetched in one read.
  class Pid {
    const gains: Gains
    const state: array<Q15>

    ghost predicate Valid() reads this { state.Length == 3 }

    function View(): State
      requires Valid()
      reads this, state
    {
      State(state[0], state[1], state[2])
    }

    constructor (g: Gains)
      ensures Valid() && fresh(state) && gains == g && View() == State(0, 0, 0)
    {
      gains := g;
      state := new Q15[3](_ => 0);
    }

    method ProcessScalar(input: Q15) returns (out: Q15)
      requires Valid()
      modifies state
      ensures Valid() && View() == StepScalar(gains, old(View()), input) && out == View().y
      ensures state[0] == input && state[1] == old(state[0]) && state[2] == out
      ensures out == Sat15((gains.a0 * input + gains.a1 * old(state[0]) + gains.a2 * old(state[1])) / 0x8000
                           + old(state[2]))
    {
      ScalarOutput(gains, View(), input);
      ghost var sum := AccScalar(gains, View(), input);
      var acc := gains.a0 * input;
      acc := acc + gains.a1 * state[0];
      acc := acc + gains.a2 * state[1];
      assert acc == sum;
      out := Finish(acc, state[2]);
      state[1] := state[0];
      state[0] := input;
      state[2] := out;
    }

    method ProcessDual(input: Q15) returns (out: Q15)
      requires Valid()
      modifies state
      ensures Valid() && View() == StepDual(gains, old(View()), input) && out == View().y
      ensures state[0] == input && state[1] == old(state[0]) && state[2] == out
      ensures out == Sat15((gains.a0 * input + gains.a1 * old(state[0]) + gains.a2 * old(state[1])
                            + if gains.a0 < 0 && input < 0 then 1 else 0) / 0x8000 + old(state[2]))
    {
      hide Low, High, Smuad, Smlald, Finish;
      DualOutput(gains, View(), input);
      var acc: Q63 := Wrap32(Smuad(AsUnsigned(gains.a0), AsUnsigned(input)));
      acc := Smlald(AsUnsigned(Pack(gains.a1, gains.a2)), AsUnsigned(Pack(state[0], state[1])), acc);
      out := Finish(acc, state[2]);
      state[1] := state[0];
      state[0] := input;
      state[2] := out;
    }
  }

  // ---- Runs from the zero state ----

  function RunScalar(g: Gains, xs: seq<Q15>): State {
    if xs == [] then State(0, 0, 0)
    else StepScalar(g, RunScalar(g, xs[..|xs| - 1]), xs[|xs| - 1])
  }

  function RunDual(g: Gains, xs: seq<Q15>): State {
    if xs == [] then State(0, 0, 0)
    else StepDual(g, RunDual(g, xs[..|xs| - 1]), xs[|xs| - 1])
  }

  // How often the two negative signs meet.
  function SignProducts(g: Gains, xs: seq<Q15>): nat {
    if xs == [] then 0
    else SignProducts(g, xs[..|xs| - 1]) + if SignProduct(g, xs[|xs| - 1]) then 1 else 0
  }

  lemma {:induction false} RunsRemember(g: Gains, xs: seq<Q15>)
    ensures RunScalar(g, xs).x1 == RunDual(g, xs).x1 == Sample(xs, 1)
    ensures RunScalar(g, xs).x2 == RunDual(g, xs).x2 == Sample(xs, 2)
  {
    if xs == [] {
    } else {
      RunsRemember(g, xs[..|xs| - 1]);
    }
  }

  lemma AccScalarBounds(g: Gains, s: State, x: Q15)
    ensures -0xBFFE_8000 <= AccScalar(g, s, x) <= 0xC000_0000
  {
    SquareIsMax(g.a0, x);
    SquareIsMax(g.a1, s.x1);
    SquareIsMax(g.a2, s.x2);
  }

  /** What the scalar build computes: nothing wraps before the one saturation. */
  lemma ScalarOutput(g: Gains, s: State, x: Q15)
    ensures StepScalar(g, s, x).y == Sat15((g.a0 * x + g.a1 * s.x1 + g.a2 * s.x2) / 0x8000 + s.y)
  {
    AccScalarBounds(g, s, x);
    FinishSaturates(AccScalar(g, s, x), s.y);
  }

  /** And the packed build: the sum is one larger when gain and sample are both negative. */
  lemma DualOutput(g: Gains, s: State, x: Q15)
    ensures StepDual(g, s, x).y
         == Sat15((g.a0 * x + g.a1 * s.x1 + g.a2 * s.x2 + if SignProduct(g, x) then 1 else 0) / 0x8000 + s.y)
  {
    hide AccDual, Finish;
    AccScalarBounds(g, s, x);
    AccDualVsScalar(g, s, x);
    FinishSaturates(AccDual(g, s, x), s.y);
  }

  lemma SameAccumulator(g: Gains, s: State, d: State, x: Q15)
    requires s.x1 == d.x1 && s.x2 == d.x2
    ensures AccScalar(g, s, x) == AccScalar(g, d, x)
  {
  }

  // One sample, started from outputs at most apart: the gap grows by the sign product only.
  lemma StepKeepsOrder(g: Gains, s: State, d: State, x: Q15)
    requires s.x1 == d.x1 && s.x2 == d.x2 && s.y <= d.y
    ensures 0 <= StepDual(g, d, x).y - StepScalar(g, s, x).y
         <= d.y - s.y + if SignProduct(g, x) then 1 else 0
  {
    hide AccDual, AccScalar, Finish;
    AccDualVsScalar(g, d, x);
    AccScalarBounds(g, s, x);
    var c := if SignProduct(g, x) then 1 else 0;
    var acc := AccScalar(g, s, x);
    SameAccumulator(g, s, d, x);
    FinishSaturates(acc, s.y);
    FinishSaturates(acc + c, d.y);
    ClampMonotoneLipschitz(-0x8000, 0x7FFF, acc / 0x8000 + s.y, (acc + c) / 0x8000 + d.y);
  }

  /** Over every run the packed build stays at or above the scalar one, by at most the number
    * of samples at which the two negative signs met. */
  lemma {:induction false} DualTracksScalar(g: Gains, xs: seq<Q15>)
    ensures 0 <= RunDual(g, xs).y - RunScalar(g, xs).y <= SignProducts(g, xs) <= |xs|
  {
    if xs == [] {
    } else {
      var pre := xs[..|xs| - 1];
      DualTracksScalar(g, pre);
      RunsRemember(g, pre);
      StepKeepsOrder(g, RunScalar(g, pre), RunDual(g, pre), xs[|xs| - 1]);
    }
  }

  // The smallest gain, and the sample on which it leaves a full fraction.
  const CREEPING_GAINS := Gains(-1, 0, 0)

  function CreepingRun(n: nat): (xs: seq<Q15>)
    ensures |xs| == n
  {
    if n == 0 then [] else CreepingRun(n - 1) + [-0x7FFF]
  }

  ghost predicate Drifted(xs: seq<Q15>) {
    && SignProducts(CREEPING_GAINS, xs) == |xs|
    && RunScalar(CREEPING_GAINS, xs).y == 0
    && RunDual(CREEPING_GAINS, xs).y == if |xs| <= 0x7FFF then |xs| else 0x7FFF
  }

  /** That bound is reached, at every length of run: the scalar output stays at zero and the
    * packed one climbs by one a sample, up to full scale. */
  lemma {:induction false} DriftIsReached(n: nat)
    ensures Drifted(CreepingRun(n))
  {
    if n == 0 {
    } else {
      DriftIsReached(n - 1);
      DriftSnoc(CreepingRun(n - 1));
    }
  }

  lemma DriftSnoc(pre: seq<Q15>)
    requires Drifted(pre)
    ensures Drifted(pre + [-0x7FFF])
  {
    hide StepScalar, StepDual;
    assert (pre + [-0x7FFF])[..|pre|] == pre;
    CreepingStep(RunScalar(CREEPING_GAINS, pre));
    CreepingStep(RunDual(CREEPING_GAINS, pre));
  }

  lemma CreepingStep(s: State)
    ensures StepScalar(CREEPING_GAINS, s, -0x7FFF).y == s.y
    ensures StepDual(CREEPING_GAINS, s, -0x7FFF).y == if s.y < 0x7FFF then s.y + 1 else 0x7FFF
  {
    hide StepScalar, StepDual;
    ScalarOutput(CREEPING_GAINS, s, -0x7FFF);
    DualOutput(CREEPING_GAINS, s, -0x7FFF);
    assert -1 * -0x7FFF + 0 * s.x1 + 0 * s.x2 == 0x7FFF;
  }

  // The extra one carries into the output: the fraction is full and the output not at a limit.
  predicate Carries(g: Gains, s: State, x: Q15) {
    var acc := AccScalar(g, s, x);
    SignProduct(g, x) && acc % 0x8000 == 0x7FFF && -0x8000 <= acc / 0x8000 + s.y < 0x7FFF
  }

  lemma StepsAgreeIff(g: Gains, s: State, x: Q15)
    ensures StepDual(g, s, x) == StepScalar(g, s, x) <==> !Carries(g, s, x)
  {
    hide AccDual, Finish;
    AccDualVsScalar(g, s, x);
    AccScalarBounds(g, s, x);
    hide AccScalar;
    var acc := AccScalar(g, s, x);
    FinishSaturates(acc, s.y);
    FinishSaturates(acc + 1, s.y);
  }

  // No sample of the scalar build's run meets that condition.
  predicate NeverCarries(g: Gains, xs: seq<Q15>) {
    if xs == [] then true
    else
      var n := |xs| - 1;
      NeverCarries(g, xs[..n]) && !Carries(g, RunScalar(g, xs[..n]), xs[n])
  }

  ghost predicate AgreeAfter(g: Gains, xs: seq<Q15>, n: nat)
    requires n <= |xs|
  {
    RunDual(g, xs[..n]) == RunScalar(g, xs[..n])
  }

  /** The two builds are interchangeable on a run, at every moment of it, if and only if the
    * extra one never carries. */
  lemma {:induction false} BuildsAgreeIff(g: Gains, xs: seq<Q15>)
    ensures (forall n :: 0 <= n <= |xs| ==> AgreeAfter(g, xs, n)) <==> NeverCarries(g, xs)
  {
    if xs == [] {
    } else {
      var last := |xs| - 1;
      var pre := xs[..last];
      BuildsAgreeIff(g, pre);
      StepsAgreeIff(g, RunScalar(g, pre), xs[last]);
      hide StepScalar, StepDual, Carries;
      assert xs[..|xs|] == xs;
      forall n | 0 <= n <= last ensures AgreeAfter(g, xs, n) == AgreeAfter(g, pre, n) {
        assert xs[..n] == pre[..n];
      }
      assert pre[..last] == pre;
      assert AgreeAfter(g, xs, |xs|) || !AgreeAfter(g, xs, |xs|);
      assert AgreeAfter(g, pre, last) || !AgreeAfter(g, pre, last);
    }
  }

  // ---- Which gains make the builds interchangeable ----

  predicate AllEven(g: Gains) { g.a0 % 2 == 0 && g.a1 % 2 == 0 && g.a2 % 2 == 0 }

  // The extra one never appears, or the odd fraction it needs never does.
  lemma {:induction false} SafeGainsNeverCarry(g: Gains, xs: seq<Q15>)
    requires 0 <= g.a0 || AllEven(g)
    ensures NeverCarries(g, xs)
  {
    if xs == [] {
    } else {
      var n := |xs| - 1;
      SafeGainsNeverCarry(g, xs[..n]);
      EvenSum(g, RunScalar(g, xs[..n]), xs[n]);
    }
  }

  lemma EvenSum(g: Gains, s: State, x: Q15)
    requires 0 <= g.a0 || AllEven(g)
    ensures !Carries(g, s, x)
  {
    if AllEven(g) {
      EvenMultiple(g.a0, x);
      EvenMultiple(g.a1, s.x1);
      EvenMultiple(g.a2, s.x2);
      EvenFraction(g.a0 * x, g.a1 * s.x1, g.a2 * s.x2);
    }
  }

  lemma EvenFraction(p0: int, p1: int, p2: int)
    requires p0 % 2 == 0 && p1 % 2 == 0 && p2 % 2 == 0
    ensures (p0 + p1 + p2) % 0x8000 != 0x7FFF
  {
  }

  lemma EvenMultiple(a: int, x: int)
    requires a % 2 == 0
    ensures a * x % 2 == 0
  {
    var h := a / 2;
    assert a * x == 2 * (h * x);
  }

  // A multiplier without a factor of two reaches every residue, one bit at a time.
  lemma {:induction false} SolveModPow2(a: int, r: int, k: nat) returns (u: int, m: int)
    requires a % 2 == 1
    ensures 0 <= u < Pow2(k) && a * u - r == m * Pow2(k)
  {
    if k == 0 {
      u, m := 0, -r;
    } else {
      u, m := SolveModPow2(a, r, k - 1);
      var p := Pow2(k - 1);
      if m % 2 == 0 {
        Regroup(a, u, r, m, p, m / 2, 0);
        m := m / 2;
      } else {
        Regroup(a, u, r, m, p, (m + a) / 2, 1);
        u, m := u + p, (m + a) / 2;
      }
    }
  }

  lemma Regroup(a: int, u: int, r: int, m: int, p: int, m': int, bit: int)
    requires a * u - r == m * p && (bit == 0 || bit == 1) && 2 * m' == m + a * bit
    ensures a * (u + bit * p) - r == m' * (2 * p)
  {
    assert m' * (2 * p) == (m + a * bit) * p;
    assert bit == 0 ==> a * (u + bit * p) == a * u;
    assert bit == 1 ==> a * (u + bit * p) == a * u + a * p;
  }

  // The solution nearest zero; it is odd when the residue is.
  lemma SolveNearZero(a: Q15, r: int) returns (u: Q15, m: int)
    requires a % 2 == 1 && r % 2 == 1
    ensures -0x4000 < u < 0x4000 && u != 0 && a * u == r + m * 0x8000
  {
    var v, n := SolveModPow2(a, r, 15);
    Pow2Values();
    hide Pow2;
    u, m := v, n;
    if 0x4000 <= v {
      u, m := v - 0x8000, n - a;
      assert a * (v - 0x8000) == a * v - a * 0x8000;
    }
  }

  // One sample of the scalar build, with its saturation only.
  function NextScalar(g: Gains, s: State, x: Q15): State {
    State(x, s.x1, Sat15((g.a0 * x + g.a1 * s.x1 + g.a2 * s.x2) / 0x8000 + s.y))
  }

  lemma RunSnoc(g: Gains, xs: seq<Q15>, x: Q15)
    ensures RunScalar(g, xs + [x]) == NextScalar(g, RunScalar(g, xs), x)
    ensures Carries(g, RunScalar(g, xs), x) ==> !NeverCarries(g, xs + [x])
  {
    assert (xs + [x])[..|xs|] == xs;
    ScalarOutput(g, RunScalar(g, xs), x);
  }

  // A full fraction above q whole units.
  lemma CarriesWhen(g: Gains, s: State, x: Q15, p0: int, p1: int, p2: int, q: int)
    requires g.a0 < 0 && x < 0 && p0 == g.a0 * x && p1 == g.a1 * s.x1 && p2 == g.a2 * s.x2
    requires p0 + p1 + p2 == 0x7FFF + q * 0x8000 && -0x8000 <= q + s.y < 0x7FFF
    ensures Carries(g, s, x)
  {
  }

  // An odd first gain carries on the first sample.
  lemma OddFirstGain(g: Gains) returns (xs: seq<Q15>)
    requires g.a0 < 0 && g.a0 % 2 == 1
    ensures !NeverCarries(g, xs)
  {
    var x, q := NegativeSample(g.a0);
    hide RunScalar, Carries, NeverCarries;
    xs := [] + [x];
    RunSnoc(g, [], x);
    RunOfNone(g);
    CarriesWhen(g, State(0, 0, 0), x, g.a0 * x, 0, 0, q);
  }

  lemma RunOfNone(g: Gains)
    ensures RunScalar(g, []) == State(0, 0, 0)
  {
  }

  lemma NegativeSample(a: Q15) returns (x: Q15, q: int)
    requires a < 0 && a % 2 == 1
    ensures x < 0 && a * x == 0x7FFF + q * 0x8000 && 0 <= q < 0x7FFF
  {
    var u, m := SolveNearZero(a, 0x7FFF);
    x, q := u, m;
    if 0 < u {
      x, q := u - 0x8000, m - a;
      assert a * (u - 0x8000) == a * u - a * 0x8000;
    }
    ProductBound(a, 0x7FFF, x, 0x7FFF);
    MulMono(-a, 1, -x, -x);
    assert a * x == -a * -x;
  }

  // An even first and an odd second gain carry on the second sample.
  lemma OddSecondGain(g: Gains) returns (xs: seq<Q15>)
    requires g.a0 < 0 && g.a0 % 2 == 0 && g.a1 % 2 == 1
    ensures !NeverCarries(g, xs)
  {
    var u, m := SolveNearZero(g.a1, 0x7FFF + g.a0);
    hide RunScalar, Carries, NeverCarries, NextScalar, Sat15;
    SecondCarries(g, u, m);
    FirstOutput(g, u);
    RunSnoc(g, [u], -1);
    xs := [u] + [-1];
  }

  lemma SecondCarries(g: Gains, u: Q15, m: int)
    requires g.a0 < 0 && g.a1 % 2 == 1 && -0x4000 < u < 0x4000
    requires g.a1 * u == 0x7FFF + g.a0 + m * 0x8000
    ensures Carries(g, State(u, 0, Sat15(g.a0 * u / 0x8000)), -1)
  {
    hide Carries, Sat15;
    ProductBound(g.a0, 0x8000, u, 0x3FFF);
    ProductBound(g.a1, 0x7FFF, u, 0x3FFF);
    SecondFits(g.a0, g.a0 * u, g.a1 * u, m);
    var p0: int := -1 * g.a0;
    CarriesWhen(g, State(u, 0, Sat15(g.a0 * u / 0x8000)), -1, p0, g.a1 * u, 0, m);
  }

  lemma FirstOutput(g: Gains, u: Q15)
    ensures RunScalar(g, [u]) == State(u, 0, Sat15(g.a0 * u / 0x8000))
  {
    hide RunScalar;
    RunOfNone(g);
    assert [] + [u] == [u];
    RunSnoc(g, [], u);
  }

  lemma SecondFits(a0: int, t0: int, t1: int, m: int)
    requires -0x8000 <= a0 < 0 && -0x1FFF_8000 <= t0 <= 0x1FFF_8000 && -0x1FFF_4001 <= t1 <= 0x1FFF_4001
    requires t1 == 0x7FFF + a0 + m * 0x8000
    ensures -0x8000 <= m + Sat15(t0 / 0x8000) < 0x7FFF
  {
  }

  // What one sample among zeros does to the output, over the next two samples.
  lemma Pulse(g: Gains, pre: seq<Q15>, u: Q15)
    requires RunScalar(g, pre).x1 == RunScalar(g, pre).x2 == 0
    ensures var z := PulseOutput(g.a0 * u, g.a1 * u, RunScalar(g, pre).y);
      && RunScalar(g, pre + [u] + [0]) == State(0, u, z)
      && RunScalar(g, pre + [u] + [0] + [0]) == State(0, 0, Sat15(g.a2 * u / 0x8000 + z))
  {
    hide RunScalar;
    RunSnoc(g, pre, u);
    RunSnoc(g, pre + [u], 0);
    RunSnoc(g, pre + [u] + [0], 0);
  }

  function PulseOutput(t0: int, t1: int, y: int): Q15 {
    Sat15(t1 / 0x8000 + Sat15(t0 / 0x8000 + y))
  }

  predicate SameSigns(t0: int, t1: int, t2: int) {
    (0 <= t0 && 0 <= t1 && 0 <= t2) || (t0 <= 0 && t1 <= 0 && t2 <= 0)
  }

  // From the zero state the three terms keep the output in range unless their signs agree ...
  lemma DirectFits(a0: int, t0: int, t1: int, t2: int)
    requires -0x8000 <= a0 < 0 && !SameSigns(t0, t1, t2)
    requires -0x1FFF_8000 <= t0 <= 0x1FFF_8000 && -0x1FFF_8000 <= t1 <= 0x1FFF_8000
    requires -0x1FFF_4001 <= t2 <= 0x1FFF_4001
    ensures -0x8000 <= (t2 - a0) / 0x8000 + PulseOutput(t0, t1, 0) < 0x7FFF
  {
  }

  // ... and after the opposite pulse they do when the signs agree.
  lemma OppositeFits(a0: int, t0: int, t1: int, t2: int)
    requires -0x8000 <= a0 < 0 && t0 != 0 && t2 != 0 && SameSigns(t0, t1, t2)
    requires -0x1FFF_8000 <= t0 <= 0x1FFF_8000 && -0x1FFF_8000 <= t1 <= 0x1FFF_8000
    requires -0x1FFF_4001 <= t2 <= 0x1FFF_4001
    ensures var y := Sat15(-t2 / 0x8000 + PulseOutput(-t0, -t1, 0));
      -0x8000 <= (t2 - a0) / 0x8000 + PulseOutput(t0, t1, y) < 0x7FFF
  {
  }

  // With both first gains even and an odd third one the third sample carries, if need be
  // after a pulse of the opposite sign that keeps the output from saturating.
  lemma OddThirdGain(g: Gains) returns (xs: seq<Q15>)
    requires g.a0 < 0 && g.a0 % 2 == 0 && g.a1 % 2 == 0 && g.a2 % 2 == 1
    ensures !NeverCarries(g, xs)
  {
    var u, m := SolveNearZero(g.a2, 0x7FFF + g.a0);
    hide RunScalar, Carries, NeverCarries, NextScalar, PulseOutput;
    TermsOf(g, u);
    var pre := Approach(g, u);
    Pulse(g, pre, u);
    ThirdCarries(g, u, m, PulseOutput(g.a0 * u, g.a1 * u, RunScalar(g, pre).y));
    RunSnoc(g, pre + [u] + [0], -1);
    xs := pre + [u] + [0] + [-1];
  }

  lemma TermsOf(g: Gains, u: Q15)
    requires g.a0 < 0 && g.a2 % 2 == 1 && -0x4000 < u < 0x4000 && u != 0
    ensures g.a0 * u != 0 && g.a2 * u != 0
    ensures -0x1FFF_8000 <= g.a0 * u <= 0x1FFF_8000 && -0x1FFF_8000 <= g.a1 * u <= 0x1FFF_8000
    ensures -0x1FFF_4001 <= g.a2 * u <= 0x1FFF_4001
  {
    NonZeroProduct(g.a0, u);
    NonZeroProduct(g.a2, u);
    ProductBound(g.a0, 0x8000, u, 0x3FFF);
    ProductBound(g.a1, 0x8000, u, 0x3FFF);
    ProductBound(g.a2, 0x7FFF, u, 0x3FFF);
  }

  lemma ThirdCarries(g: Gains, u: Q15, m: int, z: Q15)
    requires g.a0 < 0 && g.a2 * u == 0x7FFF + g.a0 + m * 0x8000
    requires -0x8000 <= (g.a2 * u - g.a0) / 0x8000 + z < 0x7FFF
    ensures Carries(g, State(0, u, z), -1)
  {
    hide Carries;
    var p0: int := -1 * g.a0;
    CarriesWhen(g, State(0, u, z), -1, p0, 0, g.a2 * u, m);
  }

  lemma NonZeroProduct(a: int, u: int)
    requires a != 0 && u != 0
    ensures a * u != 0
  {
  }

  // The run before the pulse u: none, or the opposite pulse.
  lemma Approach(g: Gains, u: Q15) returns (pre: seq<Q15>)
    requires g.a0 < 0 && -0x8000 < u && g.a0 * u != 0 && g.a2 * u != 0
    requires -0x1FFF_8000 <= g.a0 * u <= 0x1FFF_8000 && -0x1FFF_8000 <= g.a1 * u <= 0x1FFF_8000
    requires -0x1FFF_4001 <= g.a2 * u <= 0x1FFF_4001
    ensures RunScalar(g, pre).x1 == RunScalar(g, pre).x2 == 0
    ensures -0x8000
      <= (g.a2 * u - g.a0) / 0x8000 + PulseOutput(g.a0 * u, g.a1 * u, RunScalar(g, pre).y) < 0x7FFF
  {
    hide RunScalar, PulseOutput;
    RunOfNone(g);
    var t0: int, t1: int, t2: int := g.a0 * u, g.a1 * u, g.a2 * u;
    if SameSigns(t0, t1, t2) {
      OppositeFits(g.a0, t0, t1, t2);
      assert g.a0 * -u == -t0 && g.a1 * -u == -t1 && g.a2 * -u == -t2;
      Pulse(g, [], -u);
      pre := [] + [-u] + [0] + [0];
    } else {
      DirectFits(g.a0, t0, t1, t2);
      pre := [];
    }
  }

  ghost predicate Agree(g: Gains, xs: seq<Q15>) { RunDual(g, xs) == RunScalar(g, xs) }

  /** The two builds agree on every run if and only if the first gain is not negative or all
    * three gains are even. */
  lemma GainsAgreeIff(g: Gains)
    ensures (forall xs :: Agree(g, xs)) <==> 0 <= g.a0 || AllEven(g)
  {
    hide RunDual, RunScalar, NeverCarries;
    if 0 <= g.a0 || AllEven(g) {
      forall xs ensures Agree(g, xs) {
        SafeGainsNeverCarry(g, xs);
        BuildsAgreeIff(g, xs);
        assert AgreeAfter(g, xs, |xs|) && xs[..|xs|] == xs;
      }
    } else {
      var xs: seq<Q15>;
      if g.a0 % 2 == 1 {
        xs := OddFirstGain(g);
      } else if g.a1 % 2 == 1 {
        xs := OddSecondGain(g);
      } else {
        xs := OddThirdGain(g);
      }
      BuildsAgreeIff(g, xs);
      var n :| 0 <= n <= |xs| && !AgreeAfter(g, xs, n);
      assert !Agree(g, xs[..n]);
    }
  }
}
