/** arm_pid_q31: the incremental PID controller with a 64-bit accumulator.
  *
  * Signed overflow of the accumulator and of `out += y[n-1]` wraps, as the function's own
  * documentation says it does.
  */
module PidQ31 {
  import opened FixedPoint

  datatype Gains = Gains(a0: Q31, a1: Q31, a2: Q31) {
    // Any three coefficients are Kp + Ki + Kd, -Kp - 2Kd, Kd of some controller.
    function Kd(): int { a2 }
    function Kp(): int { 0 - a1 - 2 * a2 }
    function Ki(): int { a0 + a1 + a2 }
  }

  // x[n-1], x[n-2], y[n-1]
  datatype State = State(x1: Q31, x2: Q31, y: Q31)

  function Accumulate(g: Gains, s: State, x: Q31): Q63 {
    Wrap64(Wrap64(Wrap64(g.a0 * x) + g.a1 * s.x1) + g.a2 * s.x2)
  }

  function Step(g: Gains, s: State, x: Q31): State {
    State(x, s.x1, Wrap32(Wrap32(Accumulate(g, s, x) / 0x8000_0000) + s.y))
  }

  // A0 x[n] + A1 x[n-1] + A2 x[n-2]
  function Weighted(g: Gains, s: State, x: Q31): int { g.a0 * x + g.a1 * s.x1 + g.a2 * s.x2 }

  class Pid {
    const gains: Gains
    const state: array<Q31>

    ghost predicate Valid() reads this { state.Length == 3 }

    function View(): State
      requires Valid()
      reads this, state
    {
      State(state[0], state[1], state[2])
    }

    constructor (g: Gains)
      ensures Valid() && fresh(state) && gains == g && View() == State(0, 0, 0)
    {
      gains := g;
      state := new Q31[3](_ => 0);
    }

    method Process(input: Q31) returns (out: Q31)
      requires Valid()
      modifies state
      ensures Valid() && View() == Step(gains, old(View()), input) && out == View().y
      ensures state[0] == input && state[1] == old(state[0]) && state[2] == out
      // the exact sum, floored, plus the old output, reduced to 32 bits once
      ensures out == Wrap32((gains.a0 * input + gains.a1 * old(state[0]) + gains.a2 * old(state[1])) / 0x8000_0000
                            + old(state[2]))
    {
      hide Wrap32, Wrap64;
      StepOutput(gains, View(), input);
      var acc: Q63 := Wrap64(gains.a0 * input);
      acc := Wrap64(acc + gains.a1 * state[0]);
      acc := Wrap64(acc + gains.a2 * state[1]);
      out := Wrap32(acc / 0x8000_0000);
      out := Wrap32(out + state[2]);
      state[1] := state[0];
      state[0] := input;
      state[2] := out;
    }
  }

  // ---- Runs from the zero state ----

  function Run(g: Gains, xs: seq<Q31>): State {
    if xs == [] then State(0, 0, 0)
    else Step(g, Run(g, xs[..|xs| - 1]), xs[|xs| - 1])
  }

  // The controller without overflow: only the floor of each increment is kept.
  function IdealY(g: Gains, xs: seq<Q31>): int {
    if xs == [] then 0
    else IdealY(g, xs[..|xs| - 1]) + Increment(g, xs) / 0x8000_0000
  }

  function Increment(g: Gains, xs: seq<Q31>): int {
    g.a0 * Sample(xs, 1) + g.a1 * Sample(xs, 2) + g.a2 * Sample(xs, 3)
  }

  // The positional PID law, scaled by 2^31.
  function Positional(g: Gains, xs: seq<Q31>): int {
    g.Kp() * Sample(xs, 1) + g.Ki() * Sum(xs) + g.Kd() * (Sample(xs, 1) - Sample(xs, 2))
  }

  function Sum(xs: seq<Q31>): int {
    if xs == [] then 0 else Sum(xs[..|xs| - 1]) + xs[|xs| - 1]
  }

  // ---- Wrapping ----

  lemma Wrap32OfSum(x: int, y: int)
    ensures Wrap32(Wrap32(x) + Wrap32(y)) == Wrap32(x + y)
  {
    var k := (x + 0x8000_0000) / 0x1_0000_0000 + (y + 0x8000_0000) / 0x1_0000_0000;
    assert Wrap32(x) + Wrap32(y) == x + y + (-k) * 0x1_0000_0000;
    Wrap32Shift(x + y, -k);
  }

  lemma Wrap64OfSum(x: int, y: int)
    ensures Wrap64(Wrap64(x) + y) == Wrap64(x + y)
  {
    var k := (x + 0x8000_0000_0000_0000) / 0x1_0000_0000_0000_0000;
    assert Wrap64(x) == x - k * 0x1_0000_0000_0000_0000;
  }

  // A wrap of the accumulator is invisible in the 32 bits taken from it: 2^64 / 2^31 is a
  // multiple of 2^32.
  lemma AccumulatorWrapInvisible(v: int)
    ensures Wrap32(Wrap64(v) / 0x8000_0000) == Wrap32(v / 0x8000_0000)
  {
    var k := (v + 0x8000_0000_0000_0000) / 0x1_0000_0000_0000_0000;
    assert Wrap64(v) == v - k * 0x1_0000_0000_0000_0000;
    assert Wrap64(v) / 0x8000_0000 == v / 0x8000_0000 + (-2 * k) * 0x1_0000_0000;
    Wrap32Shift(v / 0x8000_0000, -2 * k);
  }

  /** One step's output: the exact sum floored, added to the old output, and reduced once. */
  lemma StepOutput(g: Gains, s: State, x: Q31)
    ensures Step(g, s, x).y == Wrap32(Weighted(g, s, x) / 0x8000_0000 + s.y)
  {
    hide Wrap32, Wrap64;
    var p0, p1, p2 := g.a0 * x, g.a1 * s.x1, g.a2 * s.x2;
    Wrap64OfSum(p0, p1);
    Wrap64OfSum(p0 + p1, p2);
    AccumulatorWrapInvisible(p0 + p1 + p2);
    Wrap32OfSum((p0 + p1 + p2) / 0x8000_0000, s.y);
    Wrap32Id(s.y);
  }

  // ---- What every run computes ----

  /** Over every run the stored output is the ideal one reduced to 32 bits; intermediate
    * wraps never matter. */
  lemma {:induction false} RunIsWrappedIdeal(g: Gains, xs: seq<Q31>)
    ensures Run(g, xs) == State(Sample(xs, 1), Sample(xs, 2), Wrap32(IdealY(g, xs)))
  {
    hide Wrap32, Wrap64;
    if xs == [] {
      Wrap32Id(0);
    } else {
      var pre := xs[..|xs| - 1];
      RunIsWrappedIdeal(g, pre);
      var s := Run(g, pre);
      var x := xs[|xs| - 1];
      assert Sample(pre, 1) == Sample(xs, 2) && Sample(pre, 2) == Sample(xs, 3);
      StepOutput(g, s, x);
      Wrap32OfSum(Increment(g, xs) / 0x8000_0000, IdealY(g, pre));
      Wrap32OfSum(Increment(g, xs) / 0x8000_0000, s.y);
      Wrap32Id(s.y);
    }
  }

  lemma PositionalGrows(g: Gains, xs: seq<Q31>)
    requires xs != []
    ensures Positional(g, xs) == Positional(g, xs[..|xs| - 1]) + Increment(g, xs)
  {
    var pre := xs[..|xs| - 1];
    assert Sample(pre, 1) == Sample(xs, 2) && Sample(pre, 2) == Sample(xs, 3);
    Telescope(g.a0, g.a1, g.a2, Sample(xs, 1), Sample(xs, 2), Sample(xs, 3), Sum(pre));
  }

  lemma Telescope(a0: int, a1: int, a2: int, x: int, x1: int, x2: int, sum: int)
    ensures (-a1 - 2 * a2) * x + (a0 + a1 + a2) * (sum + x) + a2 * (x - x1)
         == (-a1 - 2 * a2) * x1 + (a0 + a1 + a2) * sum + a2 * (x1 - x2) + (a0 * x + a1 * x1 + a2 * x2)
  {
  }

  /** The increments telescope to the positional law, losing less than one unit per sample. */
  lemma {:induction false} IdealTracksPositional(g: Gains, xs: seq<Q31>)
    ensures Positional(g, xs) - |xs| * 0x7FFF_FFFF <= 0x8000_0000 * IdealY(g, xs) <= Positional(g, xs)
  {
    if xs == [] {
    } else {
      IdealTracksPositional(g, xs[..|xs| - 1]);
      PositionalGrows(g, xs);
    }
  }

  /** The controller's output is the ideal one exactly when that is representable, and then
    * it is the positional PID with a downward drift below one LSB per sample. */
  lemma PidQ31Correct(g: Gains, xs: seq<Q31>)
    ensures Run(g, xs).y == IdealY(g, xs) <==> -0x8000_0000 <= IdealY(g, xs) < 0x8000_0000
    ensures -0x4000_0000_0000_0000 + |xs| * 0x7FFF_FFFF <= Positional(g, xs) < 0x4000_0000_0000_0000
      ==> Positional(g, xs) - |xs| * 0x7FFF_FFFF <= 0x8000_0000 * Run(g, xs).y <= Positional(g, xs)
  {
    hide Run, IdealY, Positional;
    RunIsWrappedIdeal(g, xs);
    IdealTracksPositional(g, xs);
    if -0x8000_0000 <= IdealY(g, xs) < 0x8000_0000 { Wrap32Id(IdealY(g, xs)); }
  }

  // ---- The overflow advice in the documentation ----

  // Inputs scaled down by two bits do keep the 64-bit accumulator from overflowing ...
  lemma ScaledInputFitsAccumulator(g: Gains, s: State, x: Q31)
    requires -0x2000_0000 <= x <= 0x2000_0000
    requires -0x2000_0000 <= s.x1 <= 0x2000_0000 && -0x2000_0000 <= s.x2 <= 0x2000_0000
    ensures Accumulate(g, s, x) == g.a0 * x + g.a1 * s.x1 + g.a2 * s.x2
  {
    hide Wrap64;
    ProductBound(g.a0, 0x8000_0000, x, 0x2000_0000);
    ProductBound(g.a1, 0x8000_0000, s.x1, 0x2000_0000);
    ProductBound(g.a2, 0x8000_0000, s.x2, 0x2000_0000);
    var p0, p1, p2 := g.a0 * x, g.a1 * s.x1, g.a2 * s.x2;
    AccumulatorId(p0, p1, p2);
  }

  lemma AccumulatorId(p0: int, p1: int, p2: int)
    requires -0x1000_0000_0000_0000 <= p0 <= 0x1000_0000_0000_0000
    requires -0x1000_0000_0000_0000 <= p1 <= 0x1000_0000_0000_0000
    requires -0x1000_0000_0000_0000 <= p2 <= 0x1000_0000_0000_0000
    ensures Wrap64(Wrap64(Wrap64(p0) + p1) + p2) == p0 + p1 + p2
  {
    hide Wrap64;
    Wrap64Id(p0);
    Wrap64Id(p0 + p1);
    Wrap64Id(p0 + p1 + p2);
  }

  // ... but the output is added without saturation, so a pure integrator fed such an input
  // turns negative on the fifth sample.
  lemma ScaledInputStillWraps()
    ensures var g, xs := Gains(0x7FFF_FFFF, 0, 0), Constant(0x1FFF_FFFF, 5); Run(g, xs).y < 0 < IdealY(g, xs)
  {
    hide Run, IdealY;
    IntegratorRun(5);
    RunIsWrappedIdeal(Gains(0x7FFF_FFFF, 0, 0), Constant(0x1FFF_FFFF, 5));
  }

  function Constant(x: Q31, n: nat): seq<Q31> { seq(n, i => x) }

  lemma {:induction false} IntegratorRun(n: nat)
    ensures IdealY(Gains(0x7FFF_FFFF, 0, 0), Constant(0x1FFF_FFFF, n)) == n * 0x1FFF_FFFE
  {
    if n == 0 {
    } else {
      IntegratorRun(n - 1);
      assert Constant(0x1FFF_FFFF, n)[..n - 1] == Constant(0x1FFF_FFFF, n - 1);
    }
  }
}
