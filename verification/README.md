# Verified model of the hopper firmware's numeric and register core

This project models the parts of the TVC hopper flight software that do arithmetic in
fixed point, move samples and bytes through circular buffers, pack interrupt priorities
and set memory up before `main`, and proves what those parts compute.

Integers of C are mathematical integers in a subset type (`Q7`, `Q15`, `Q31`, `Q63`, `U32`);
`>>` on a signed value is floor division, and every cast that could lose bits is a `Wrap`
function. Signed overflow and left shifts of negative numbers are taken to wrap in two's
complement. A left shift is multiplication by
`Pow2`, `&` and `|` are the recursive functions `And` and `Or` (masks `2^k - 1` are also
written `% 2^k`).

| file | models |
|---|---|
| `Bits.dfy`, `Numbers.dfy` | powers of two, bit fields, `And`/`Or`, gcd (supporting) |
| `FixedPoint.dfy` | clips, saturating arithmetic, `mult32x64`, `__SSAT` |
| `BitLoops.dfy` | software `__RBIT` and `__CLZ` |
| `Reciprocal.dfy` | `arm_recip_q31`, `arm_recip_q15` |
| `PidQ31.dfy`, `PidQ15.dfy` | `arm_pid_q31`, both builds of `arm_pid_q15` |
| `Transforms.dfy` | Clarke, Park and their inverses |
| `Interpolation.dfy`, `Bilinear.dfy` | table interpolation in one and two dimensions |
| `Circular.dfy` | `arm_circularWrite_*`, `arm_circularRead_*` |
| `CircBuf.dfy` | the byte ring buffer |
| `Nvic.dfy` | priority encoding and the two priority register layouts |
| `Startup.dfy` | the copy and zero loops of `__cmsis_start` |

`hide` statements in proofs keep irrelevant definitions away from the solver; they do not
change what is proved.

## Where the code differs from what is said of it

- `arm_pid_q31` is documented as saturating, and as free of overflow when the input is scaled
  by two bits. The 64-bit accumulator is then safe (`ScaledInputFitsAccumulator`), but the
  output is added without saturation and can wrap (`ScaledInputStillWraps`). The exact
  condition for a correct output is in `PidQ31Correct`.
- The two builds of `arm_pid_q15` differ: sign extension makes the accumulator of the packed
  build one larger whenever gain and sample are both negative. `DualTracksScalar` bounds the
  drift over every run and `DriftIsReached` shows the bound is met. `BuildsAgreeIff` says
  exactly on which runs the two agree, and `GainsAgreeIff` with which gains on all of them.
- The C replacement of `SMLALD` adds its two products in 32 bits and so differs from the
  instruction on one pair of operands (`EmulationAgreesIff`). No build of `arm_pid_q15` uses it.
- `clip_q63_to_q15` and `clip_q31_to_q7` do not saturate on some inputs; the `...Iff` lemmas
  say which.
- `arm_clarke_q31` says there is no risk of overflow; a cast before the saturating addition
  wraps for |Ib| above 0x6ED9EBA1, and the round trip is then lost (`ClarkeWrapBreaks`).
- Linear interpolation in Q15 and Q7 follows a nondecreasing table exactly if and only if its
  first entry is not positive or it has one entry (`MonotoneIff`).
- The boundary test of the bilinear routines is meant to keep them inside the table. It does
  so exactly for the shapes in `TestKeepsInsideIff` and `InputsKeepInsideIff`, never for a non-empty
  table at least as wide as it is long (`WideTableOverruns`), and it never confines them to
  the cells of the grid the documentation describes (`TestNeverKeepsOnGrid`).
- The circular transfers say they watch out for negative increments; they do not wrap them
  (`StepSafeIff`). The write offset is handed back in 16 bits, so writing in blocks is not
  writing in one go once an offset passes 65535 (`WriteBlocksIff`, `LongDelayLineFails`).
- `arm_recip_q15` narrows without the clip that is commented out: harmless for positive inputs and,
  with six-bit seeds, lossy for all others (`PositiveIffFitsQ15`).
- `CircBufPeek` reads the head, not the tail: it is a delay line (`PeekIsDelayLine`) and sees
  the next byte to be popped exactly when the buffer is full (`PeekSeesNextPopIff`).
- `CircBufPop` does not test for an empty buffer (`PopConsistentIff`).

## How tight the Park bounds are

Inverse Park of Park loses less than 4.25 units of beta at every angle (`ParkRoundTrip`), and
4.06 units in one example (`FourUnitsAreNotEnough`). `BetaErrorByAngle` gives the bound for
each angle: 2 + 2 max(sin, 0) + |cos| units at the low end, 2 max(-sin, 0) + |cos| at the high
end. So the loss stays below four units wherever 2 max(sin, 0) + |cos| <= 2
(`FourUnitsSuffice`), a condition that the example's angle, with 2.24, does not meet. Past it
the low bits of the products decide, and no condition on the angle is proved.

## Model

| member | source | states |
|---|---|---|
| FixedPoint.WrapsKeepLowBits | CMSIS/arm_math.h:670-705 | a narrowing cast keeps the low bits exactly, in all four widths |
| FixedPoint.ClipQ63ToQ31Saturates | CMSIS/arm_math.h:670-675 | the sign-bit test clamps every 64-bit value to the 32-bit range |
| FixedPoint.ClipQ31ToQ15Saturates | CMSIS/arm_math.h:700-705 | clamps every 32-bit value to the 16-bit range |
| FixedPoint.ClipQ63ToQ15SaturatesIff | CMSIS/arm_math.h:680-685 | the result is the clamped x >> 15 exactly outside [2^30, 2^31) and [-2^31, -2^30); in those bands it is off by 2^16 |
| FixedPoint.ClipQ31ToQ7SaturatesIff | CMSIS/arm_math.h:690-695 | exactly which values are clamped to the 8-bit range; inside [-2^23, 2^23) the result is the signed low byte |
| FixedPoint.QAddQSubSaturate | CMSIS/arm_math.h:1055-1071 | `__QADD` and `__QSUB` clamp the exact sum and difference |
| FixedPoint.SsatClamps | CMSIS/arm_math.h:605-621 | `__SSAT` clamps to `sat` bits for every width 1 to 32 and returns the value for any other |
| FixedPoint.Mult32x64IsFloor | CMSIS/arm_math.h:710-716 | the split product is floor(x * y / 2^32), with nothing overflowing |
| BitLoops.Rbit | CMSIS/cmsis_gcc.h:1048-1069 | the early-exit loop ends, and bit i of the result is bit 31 - i of the value |
| BitLoops.ReverseInvolution | CMSIS/cmsis_iccarm.h:540-551 | reversing twice returns the value, at any width |
| BitLoops.CountLeadingZeros | CMSIS/cmsis_iccarm.h:525-538 | the mask loop ends; the count n satisfies 2^(31-n) <= v < 2^(32-n), and is 32 for zero |
| BitLoops.ClzIff | CMSIS/cmsis_iccarm.h:525-538 | CLZ(v) = n if and only if 2^(31-n) <= v < 2^(32-n) |
| BitLoops.ClzOfReverseCountsTrailingZeros | CMSIS/cmsis_iccarm.h:525-551 | n = CLZ(RBIT(v)) is the number of trailing zeros: 2^n divides v and bit n is set |
| Reciprocal.NewtonStep | CMSIS/arm_math.h:752-759 | one doubly-floored step from any estimate keeps the product strictly below the target and takes the residual e to less than e^2 / 2^61 + 3a (generic in the width) |
| Reciprocal.StepQ31Exact | CMSIS/arm_math.h:752-759 | for every estimate one pass is out * (2^31 - 1 - floor(in * out / 2^31)) / 2^30 in exact arithmetic, clamped once |
| Reciprocal.StepQ31IsNewton | CMSIS/arm_math.h:752-759 | on a normalised operand no cast loses bits, the clip never fires and in * out stays below 2^61 |
| Reciprocal.NormalQ31Range | CMSIS/arm_math.h:731-741 | the shift by CLZ - 1 brings every positive input to [2^30, 2^31) without loss |
| Reciprocal.TwoStepsQ31 | CMSIS/arm_math.h:748-759 | from a six-bit seed two steps leave a residual between 0 and 2^38 of 2^61 |
| Reciprocal.RecipQ31Accurate | CMSIS/arm_math.h:721-766 | for every positive input, never above the reciprocal for any non-negative table and within 2^-23 of it for a six-bit one |
| Reciprocal.RecipQ31IsTwoSteps | CMSIS/arm_math.h:731-763 | for every input the result is exactly two clamped Newton steps on the input shifted into [2^30, 2^31), from the entry its next six bits select; for positive inputs nothing is clamped |
| Reciprocal.ArmRecipQ31 | CMSIS/arm_math.h:721-766 | the routine with its loop: the shift returned plus one, exactly those two steps as the result, and the two bounds of RecipQ31Accurate |
| Reciprocal.NonPositiveSaturatesQ31 | CMSIS/arm_math.h:731-759 | for input <= 0 and any normalised table the result is always the largest q31, so positivity is exactly what the caller must provide |
| Reciprocal.MidpointSeedsAreGood | CMSIS/arm_math.h:743-749 | the six-bit hypothesis on the table can be met: segment midpoints satisfy it for all 2^30 operands |
| Reciprocal.StepQ15Exact | CMSIS/arm_math.h:802-810 | for every operand and estimate one pass is the exact Newton step reduced to 16 bits once; neither unsigned conversion matters |
| Reciprocal.StepQ15IsNewton | CMSIS/arm_math.h:802-810 | the unclipped 16-bit narrowing never wraps and in * out stays below 2^29 |
| Reciprocal.TwoStepsQ15 | CMSIS/arm_math.h:799-810 | two steps reach a residual below 3a + 98 of 2^29 |
| Reciprocal.RecipQ15Accurate | CMSIS/arm_math.h:772-817 | one-sided for any non-negative table and close for a six-bit one, for every positive input |
| Reciprocal.MidpointSeedsAreGoodQ15 | CMSIS/arm_math.h:793-799 | the six-bit hypothesis can be met in 16 bits: segment midpoints satisfy it for all operands |
| Reciprocal.PositiveIffFitsQ15 | CMSIS/arm_math.h:782-810 | with a six-bit table the first narrowing keeps the Newton step if and only if the input is positive |
| Reciprocal.RecipQ15IsTwoSteps | CMSIS/arm_math.h:782-814 | for every input the result is exactly two Newton steps, narrowed, on the input shifted into [2^14, 2^15) |
| Reciprocal.ArmRecipQ15 | CMSIS/arm_math.h:772-817 | the routine with its loop: the shift returned plus one, exactly those two steps as the result, and the bounds of RecipQ15Accurate |
| PidQ31.StepOutput | CMSIS/arm_math.h:4984-4997 | one step's output is the exact sum floored, added to the old output and reduced to 32 bits once, whatever wrapped on the way |
| PidQ31.Pid.Process | CMSIS/arm_math.h:4977-5006 | one call shifts the state array, stores that output and returns it |
| PidQ31.RunIsWrappedIdeal | CMSIS/arm_math.h:4977-5006 | over every run the output is the overflow-free output reduced to 32 bits; wraps of the accumulator never matter |
| PidQ31.IdealTracksPositional | CMSIS/arm_math.h:4889-4895 | after n samples the increments telescope to Kp x + Ki sum x + Kd (x - x'), less at most n (2^31 - 1) of 2^31 |
| PidQ31.PidQ31Correct | CMSIS/arm_math.h:4977-5006 | the output is right if and only if it is representable, and is then the positional PID within n units below |
| PidQ31.ScaledInputFitsAccumulator | CMSIS/arm_math.h:4970-4975 | an input scaled down by two bits never overflows the 64-bit accumulator |
| PidQ31.ScaledInputStillWraps | CMSIS/arm_math.h:4970-4975 | yet the output wraps: five samples into a pure integrator turn it negative |
| PidQ15.ScalarOutput | CMSIS/arm_math.h:5038-5051 | the scalar build computes the exact sum, floored and clamped once |
| PidQ15.DualMultiplies | CMSIS/arm_math.h:5034-5037 | the two dual multiplies on packed operands, for every accumulator |
| PidQ15.AccDualVsScalar | CMSIS/arm_math.h:5030-5045 | the packed accumulator is the scalar one, plus 1 exactly when gain and sample are both negative; none of its sums overflows |
| PidQ15.DualTracksScalar | CMSIS/arm_math.h:5023-5060 | over every run of any gains the packed output is at or above the scalar one, by at most the number of sign meetings |
| PidQ15.DriftIsReached | CMSIS/arm_math.h:5023-5060 | at every length there is a run on which that bound is met, up to full scale |
| PidQ15.BuildsAgreeIff | CMSIS/arm_math.h:5023-5060 | the two builds agree at every moment of a run if and only if no sample of it carries the extra one into an output below full scale |
| PidQ15.GainsAgreeIff | CMSIS/arm_math.h:5023-5060 | the two builds agree on every run if and only if A0 is not negative or all three gains are even |
| PidQ15.EmulationAgreesIff | CMSIS/arm_math.h:1119-1128 | the C body adds the products in 32 bits: it is the 64-bit dual multiply-accumulate if and only if the operands are not both (-1.0, -1.0), where it subtracts 2^31 instead of adding it |
| PidQ15.Pid.ProcessScalar | CMSIS/arm_math.h:5038-5059 | the scalar build shifts the state and returns the exact sum floored and clamped once |
| PidQ15.DualOutput | CMSIS/arm_math.h:5030-5051 | the packed build computes the exact sum plus the sign product, floored and clamped once |
| PidQ15.Pid.ProcessDual | CMSIS/arm_math.h:5030-5059 | the packed build shifts the state and returns that output |
| Transforms.ProductFitsIff | CMSIS/arm_math.h:5361-5362 | the cast of a q31 product loses bits only for (-1.0) * (-1.0) |
| Transforms.ArmClarkeQ31 | CMSIS/arm_math.h:5159-5178 | Ia passes through; Ibeta is the clamped sum of the two exact floored products for every input, the second less or plus 2^32 where its cast wraps |
| Transforms.ArmInvClarkeQ31 | CMSIS/arm_math.h:5245-5264 | Ialpha passes through; Ib is the clamped difference, with no cast losing bits for any input |
| Transforms.ClarkeFitsIff | CMSIS/arm_math.h:5173-5174 | the 2/sqrt(3) product fits if and only if abs(Ib) <= 0x6ED9EBA1 |
| Transforms.ClarkeRoundTripError | CMSIS/arm_math.h:5159-5264 | the round trip returns Ib up to rounding plus sqrt(3)/2 of what saturation removed |
| Transforms.ClarkeRoundTrip | CMSIS/arm_math.h:5159-5264 | without saturation the round trip is within [-3, 1] of Ib |
| Transforms.ClarkeWrapBreaks | CMSIS/arm_math.h:5173-5177 | past that bound on Ib the round trip is off by more than 2^31, whatever Ia is |
| Transforms.SaturatedProducts | CMSIS/arm_math.h:5361-5377 | the saturating sum and difference of any two products, as clamped integers |
| Transforms.ArmParkQ31 | CMSIS/arm_math.h:5349-5378 | both outputs as clamped sums of floored products for every input; inside the circle the exact rotation within the rounding of ParkForward |
| Transforms.ArmInvParkQ31 | CMSIS/arm_math.h:5452-5481 | both outputs as clamped sums of floored products for every input; a pair that close to a rotation of a current inside the circle returns the current within the bounds of ParkRoundTrip |
| Transforms.CauchySchwarz | CMSIS/arm_math.h:5373-5377 | a rotation keeps both coordinates inside the circle |
| Transforms.ParkForward | CMSIS/arm_math.h:5349-5378 | inside the circle nothing wraps or saturates; Id is exact rounded down by less than 2, Iq within 1 |
| Transforms.ParkRoundTrip | CMSIS/arm_math.h:5452-5481 | inverse Park of Park returns alpha within 3.25 units and beta between 4.25 below and 2.25 above coordinate * N / 2^62 |
| Transforms.BetaErrorByAngle | CMSIS/arm_math.h:5349-5481 | for each angle, beta comes back between 2 + 2 max(sin, 0) + abs(cos) units below and 2 max(-sin, 0) + abs(cos) above |
| Transforms.FourUnitsSuffice | CMSIS/arm_math.h:5349-5481 | beta loses less than four units at every angle with 2 max(sin, 0) + abs(cos) <= 2 |
| Transforms.FourUnitsAreNotEnough | CMSIS/arm_math.h:5452-5481 | an input, at an angle outside that condition, on which beta loses more than four units |
| Interpolation.LinearQ31Exact | CMSIS/arm_math.h:5593-5635 | at i + f / 2^20: the end entries themselves outside the table, otherwise twice the two floored products with weights 2^31 - 1 - 2^11 f and 2^11 f |
| Interpolation.LinearQ31Accurate | CMSIS/arm_math.h:5593-5635 | for every x and non-empty table all reads are in bounds, the final doubling does not overflow and E - 5 < R <= E + 1 |
| Interpolation.LinearQ15IsInterpolate | CMSIS/arm_math.h:5651-5693 | the final cast never wraps |
| Interpolation.LinearQ7IsInterpolate | CMSIS/arm_math.h:5708-5750 | the Q7 version, with its sign test and unsigned index, computes the same function and never wraps |
| Interpolation.LinearQ15Exact | CMSIS/arm_math.h:5651-5693 | at i + f / 2^20: the end entries outside the table, otherwise one floor of the sum weighted with 2^20 - 1 - f and f |
| Interpolation.LinearQ7Exact | CMSIS/arm_math.h:5708-5750 | the same value for Q7 |
| Interpolation.BlendInHull | CMSIS/arm_math.h:5684-5691 | a result lies in the hull of the two entries, extended by one below |
| Interpolation.InterpolateAccurate | CMSIS/arm_math.h:5684-5691 | E - 33/32 < R <= E + 1/32 against the exact clamped piecewise-linear value |
| Interpolation.BlendMonotone | CMSIS/arm_math.h:5684-5691 | within one segment of a nondecreasing table the result is monotone |
| Interpolation.MonotoneUpToOne | CMSIS/arm_math.h:5651-5693 | over the whole axis, knots and clamps included, x <= x' gives R(x) <= R(x') + 1 |
| Interpolation.MonotoneIff | CMSIS/arm_math.h:5651-5693 | exact monotonicity holds if and only if the first entry is not positive or is the only one |
| Bilinear.TestKeepsInsideIff | CMSIS/arm_math.h:7100-7119 | every cell the boundary test admits is inside the table if and only if numRows + numCols^2 < numRows * numCols or the table is empty |
| Bilinear.InputsKeepInsideIff | CMSIS/arm_math.h:7090-7119 | the same for all coordinates X and Y, whose indices reach 2047: no read is outside the table if and only if the shape satisfies that bound cut to 2048 |
| Bilinear.WideTableOverruns | CMSIS/arm_math.h:7100-7119 | if numRows <= numCols the last admitted cell is read past the end of the table |
| Bilinear.CellInTableIff | CMSIS/arm_math.h:7100-7119 | in a square table, exactly which admitted cells have all four corners inside |
| Bilinear.OnGridIsInside | CMSIS/arm_math.h:6895-6899 | every cell of the documented grid has its four corners inside the table |
| Bilinear.TestNeverKeepsOnGrid | CMSIS/arm_math.h:6895-6899 | in every non-empty table the test admits a cell whose corners are not those of the documented grid |
| Bilinear.TestTurnsAwayIff | CMSIS/arm_math.h:6895-6899 | some cell of the grid is answered with zero if and only if both dimensions are at least 2 and they differ by more than one |
| Bilinear.OutsideIsZero | CMSIS/arm_math.h:7098-7103 | with X or Y negative or past the last index the result is zero, in Q15 and Q7, whatever the table holds |
| Bilinear.SumQ7IsNested | CMSIS/arm_math.h:7199-7212 | the four Q7 products are exactly the nested two-step linear numerator |
| Bilinear.SumQ15NearNested | CMSIS/arm_math.h:7125-7138 | in Q15 sixteen times the sum is that numerator less at most 45 * 2^20 |
| Bilinear.BilinearQ15Exact | CMSIS/arm_math.h:7105-7142 | inside, one floor of the sum of the four products at table elements (i, j) to (i + 1, j + 1), each floored by 16 once, with no cast left |
| Bilinear.BilinearQ7Exact | CMSIS/arm_math.h:7181-7215 | inside, one floor of the nested interpolation of those four elements |
| Bilinear.BilinearQ15Correct | CMSIS/arm_math.h:7075-7143 | no cast overflows; the result is the nested value floored, and in the hull of the corners extended by one below |
| Bilinear.BilinearQ7Correct | CMSIS/arm_math.h:7153-7216 | the result is exactly the nested value floored, and in that hull |
| Circular.StepSafeIff | CMSIS/arm_math.h:5966-5969 | offsets stay in [0, L) exactly for increments from 0 to L whose sum with L does not exceed 2^31 |
| Circular.StepIs | CMSIS/arm_math.h:5966-5969 | one step from inside the buffer for every increment, with overflow of the 32-bit sum |
| Circular.OffsetIsMod | CMSIS/arm_math.h:5966-5969 | after k samples the offset is (w0 + k * inc) mod L |
| Circular.NegativeStepsFall | CMSIS/arm_math.h:5966-5969 | a negative increment is never wrapped: after k samples the offset is w0 + k * inc, below zero too |
| Circular.LongStepsRise | CMSIS/arm_math.h:5966-5969 | an increment above L leaves the buffer upwards, by inc - L a sample |
| Circular.ArmCircularWrite | CMSIS/arm_math.h:6040-6078 | the loop stores the strided samples at the successive offsets, in order, and hands back the offset in 16 bits |
| Circular.ArmCircularRead | CMSIS/arm_math.h:6084-6135 | the loop copies the samples at the successive offsets to the wrapping destination, and returns the offset after them, untruncated |
| Circular.WrittenSlot | CMSIS/arm_math.h:6040-6078 | slot (w0 + k * inc) mod L holds sample k if k is the last sample to fall there |
| Circular.UnwrittenSlot | CMSIS/arm_math.h:6040-6078 | every other slot is unchanged |
| Circular.HandedBackIff | CMSIS/arm_math.h:6077 | the 16-bit offset handed back is the true one for every block size if and only if L - g + w0 mod g < 2^16 with g = gcd(inc, L); always so for L <= 2^16 |
| Circular.WriteBlocks | CMSIS/arm_math.h:6040-6078 | then writing n and, from the offset handed back, m samples is writing n + m, buffer and offset |
| Circular.WriteBlocksIff | CMSIS/arm_math.h:6040-6078 | and only then: that condition is exactly when every two blocks equal the one |
| Circular.LongDelayLineFails | CMSIS/arm_math.h:6040-6078 | with increment one, every ring longer than 2^16 has two blocks that do not |
| Circular.RoundTripIff | CMSIS/arm_math.h:6040-6135 | every block of n samples reads back if and only if n <= L / gcd(inc, L) |
| Circular.DstRunsOn | CMSIS/arm_math.h:6114-6119 | the destination index runs on linearly while it does not land exactly on the end |
| Circular.DstRestarts | CMSIS/arm_math.h:6114-6119 | and starts over from the base when it does |
| Circular.DstWrapsExactly | CMSIS/arm_math.h:6114-6119 | an aligned destination whose stride divides its length wraps exactly and stays in bounds |
| Circular.RoundTripIntoDestination | CMSIS/arm_math.h:6040-6135 | while neither ring repeats, every destination slot receives its sample, wrap-around included |
| Numbers.MultipleIff | CMSIS/arm_math.h:5966-5969 | L divides k * inc exactly when L / gcd(inc, L) divides k: the period of the offsets |
| CircBuf.CircBuf.constructor | circbuf/src/cbuf.c:8-15 | a consistent, empty buffer over the caller's array |
| CircBuf.CircBuf.Push | circbuf/src/cbuf.c:17-37 | every field after a push; accepted exactly when there is room, then appended, else nothing changes |
| CircBuf.CircBuf.Pop | circbuf/src/cbuf.c:39-51 | every field after a pop, of an empty buffer too; otherwise the oldest byte is removed and returned |
| CircBuf.CircBuf.Peek | circbuf/src/cbuf.c:53-55 | returns the byte at the head, which is the oldest one when the buffer is full |
| CircBuf.CircBuf.GetSize | circbuf/src/cbuf.c:57-59 | the number of queued bytes |
| CircBuf.CircBuf.IsFull | circbuf/src/cbuf.c:61-63 | true exactly when the queue is at capacity |
| CircBuf.PushIsEnqueue | circbuf/src/cbuf.c:17-37 | one push against the queue the buffer stands for |
| CircBuf.PopIsDequeue | circbuf/src/cbuf.c:39-51 | one pop against that queue |
| CircBuf.PopConsistentIff | circbuf/src/cbuf.c:39-51 | a pop keeps the buffer consistent if and only if it was not empty |
| CircBuf.RunRefinesFifo | circbuf/src/cbuf.c:8-51 | over every legal run the buffer and a bounded FIFO agree on queue, accepted pushes and popped bytes |
| CircBuf.Conservation | circbuf/src/cbuf.c:8-51 | accepted bytes = popped bytes followed by the contents |
| CircBuf.PeekIsDelayLine | circbuf/src/cbuf.c:17-55 | after max_size accepted pushes and any pops, peek returns the byte accepted max_size pushes ago |
| CircBuf.PeekSeesNextPopIff | circbuf/src/cbuf.c:39-55 | for a non-empty buffer, peek returns what the next pop would for all contents if and only if the buffer is full |
| Nvic.EncodePriorityIs | CMSIS/core_armv8mbl.h:1498-1512 | with s = max(0, group % 8 + PRIO_BITS - 7) the code is preempt * 2^s + sub, each cut to its field |
| Nvic.DecodePriorityIs | CMSIS/core_armv8mbl.h:1526-1536 | decode divides by 2^s and takes the remainder |
| Nvic.FieldsFillPriority | CMSIS/core_armv8mbl.h:1504-1505 | in every group the two field widths sum to the implemented bits |
| Nvic.DecodeOfEncode | CMSIS/core_armv8mbl.h:1498-1536 | decode returns both arguments, cut to their fields, and the code is below 2^PRIO_BITS |
| Nvic.EncodeOfDecode | CMSIS/core_armv8mbl.h:1498-1536 | encode undoes decode on all of [0, 2^PRIO_BITS): a bijection |
| Nvic.EncodeOrder | CMSIS/core_armv81mml.h:2429-2442 | codes compare as the pairs do, preemption first |
| Nvic.FieldByteIs | CMSIS/core_armv8mbl.h:1453-1454 | the stored byte is the implemented bits of the priority times 2^(8 - PRIO_BITS) |
| Nvic.SetByteReplacesLane | CMSIS/core_armv8mbl.h:1453-1459 | the read-modify-write replaces one byte lane of a word and keeps the other three |
| Nvic.SetWordsIs | CMSIS/core_armv8mbl.h:1449-1461 | which word of which register changes, by how much, and that no other word does |
| Nvic.GetWordsIs | CMSIS/core_armv8mbl.h:1473-1484 | the byte read back, as a quotient of the word in register numbers |
| Nvic.SetBytesIs | CMSIS/core_armv81mml.h:2382-2415 | which byte register is written and read, system handlers included |
| Nvic.SetWordsFrame | CMSIS/core_armv8mbl.h:1449-1461 | setting one interrupt or exception changes its byte and no other's |
| Nvic.WordRegisters.SetPriority | CMSIS/core_armv8mbl.h:1449-1461 | afterwards the interrupt reads back the implemented bits of the priority and every other reads what it did |
| Nvic.WordRegisters.GetPriority | CMSIS/core_armv8mbl.h:1473-1484 | the top bits of the interrupt's own byte lane, below 2^PRIO_BITS |
| Nvic.ByteRegisters.SetPriority | CMSIS/core_armv81mml.h:2382-2392 | the same read-back and frame for the byte registers |
| Nvic.ByteRegisters.GetPriority | CMSIS/core_armv81mml.h:2404-2415 | the top bits of the interrupt's own byte, below 2^PRIO_BITS |
| Nvic.RunsAgree | CMSIS/core_armv81mml.h:2382-2415 | over every run of settings the packed words and the bytes agree, byte for byte, exceptions -8 to -1 included |
| Nvic.GetsAgree | CMSIS/core_armv81mml.h:2404-2415 | agreeing stores return the same priority |
| Nvic.RunReadsBack | CMSIS/core_armv8mbl.h:1449-1484 | every interrupt reads back the priority last set for it, in the implemented bits |
| Nvic.PriorityRoundTrip | CMSIS/core_armv8mbl.h:1449-1536 | encode, set, get, decode returns the pair |
| Startup.CmsisStart | CMSIS/cmsis_gcc.h:151-161 | the nested loops leave the memory the entry-by-entry functions describe, overlaps included |
| Startup.EntryCopiedIff | CMSIS/cmsis_gcc.h:151-155 | an entry delivers its source for every memory if and only if its destination does not start inside its source |
| Startup.SmearEffect | CMSIS/cmsis_gcc.h:151-155 | a destination g words inside its source is filled with the first g source words repeated |
| Startup.StartupImage | CMSIS/cmsis_gcc.h:151-161 | for any number of well-placed entries: copied regions hold their initial sources, zero regions are zero, the rest is unchanged |

## Left out

- Floating-point variants of every routine: IEEE rounding is not modelled.
- Routines that are declared without a body here (filters, transforms, matrices, `arm_pid_init_*`): gains and tables are parameters of the model.
- The reciprocal seed tables' values: a hypothesis on the table (`GoodSeedsQ31`, `GoodSeedsQ15`) and shown satisfiable.
- The most negative reciprocal input (-2^31, -2^15): its negation or shift count is undefined in C.
- Transforms.FourUnitsSuffice: one direction only; at steeper angles whether a current loses four units turns on the low bits of the products, not on the angle.
- The `SMUAD` and `SMLALD` instructions of the packed PID build are modelled by their arithmetic (a 32-bit sum of two products; two products added to 64 bits), not by their assembly (CMSIS/cmsis_gcc.h:1973-2019); halfwords are packed as on a little-endian core.
- `arm_bilinear_interp_q31`: its last shift can overflow; no property is claimed.
- Aliasing of source and ring, or of ring and destination, in the circular transfers: the buffers are distinct.
- Circular increments that overflow the 32-bit offset more than once: `StepIs`, `NegativeStepsFall` and `LongStepsRise` go up to the first overflow, the two methods cover any increment whose offsets stay in bounds.
- Nvic.WordRegisters.SetPriority: exception numbers -12 to -9, whose word index underflows, and non-secure aliases of the registers are not modelled.
- Startup.CmsisStart: memory is one array of words and the tables are sequences; byte addresses, the call of `_start` and the tables' own storage are not modelled.
- Concurrent use of the ring buffer from an interrupt: pushes and pops are atomic steps.
- STCP, SPP, drivers, RTOS, MATLAB and server code.
