/** arm_circularWrite and arm_circularRead: strided block transfers through a circular buffer.
  * The f32, q15 and q7 versions differ in the element type only.
  */
module Circular {
  import opened Bits
  import opened Numbers
  import opened FixedPoint

  // ---- Offsets ----

  // Offset, length and increment are 32-bit: the sum can wrap.
  function Next(w: Q31, L: Q31, inc: Q31): Q31 {
    var t := Wrap32(w + inc);
    if t >= L then Wrap32(t - L) else t
  }

  // The offset after k samples.
  function Offset(w0: Q31, L: Q31, inc: Q31, k: nat): Q31 {
    if k == 0 then w0 else Next(Offset(w0, L, inc, k - 1), L, inc)
  }

  function Offsets(w0: Q31, L: Q31, inc: Q31, n: nat): (p: seq<Q31>)
    ensures |p| == n && forall k :: 0 <= k < n ==> p[k] == Offset(w0, L, inc, k)
  {
    seq(n, k requires 0 <= k => Offset(w0, L, inc, k))
  }

  predicate SafeStep(L: Q31, inc: Q31) {
    0 <= inc <= L && L + inc <= 0x8000_0000
  }

  /** One conditional subtraction keeps every offset inside [0, L) exactly for increments from
    * 0 to L whose sum with L - 1 is below 2^31; a negative one is not wrapped, despite the
    * comment in the loop. */
  lemma StepSafeIff(L: Q31, inc: Q31)
    requires 0 < L
    ensures (forall w: Q31 :: 0 <= w < L ==> 0 <= Next(w, L, inc) < L) <==> SafeStep(L, inc)
  {
    hide Next, SafeStep;
    if SafeStep(L, inc) {
      forall w: Q31 | 0 <= w < L ensures 0 <= Next(w, L, inc) < L { NextInRing(w, L, inc); }
    } else if inc < 0 {
      NegativeStepEscapes(L, inc);
    } else {
      LastOffsetEscapes(L, inc);
    }
  }

  lemma NegativeStepEscapes(L: Q31, inc: Q31)
    requires 0 < L && inc < 0
    ensures Next(0, L, inc) < 0
  {
    Wrap32Id(inc);
  }

  lemma LastOffsetEscapes(L: Q31, inc: Q31)
    requires 0 < L && 0 <= inc && !SafeStep(L, inc)
    ensures !(0 <= Next(L - 1, L, inc) < L)
  {
  }

  // The slot of sample k.
  function Slot(L: int, w0: int, inc: int, k: nat): int
    requires 0 < L
  {
    (w0 + k * inc) % L
  }

  lemma {:induction false} OffsetIsMod(w0: Q31, L: Q31, inc: Q31, k: nat)
    requires 0 <= w0 < L && SafeStep(L, inc)
    ensures 0 <= Offset(w0, L, inc, k) < L
    ensures Offset(w0, L, inc, k) == Slot(L, w0, inc, k)
  {
    if k == 0 {
      DivModUnique(w0, L, 0, w0);
    } else {
      hide Next, Slot;
      OffsetIsMod(w0, L, inc, k - 1);
      NextInRing(Offset(w0, L, inc, k - 1), L, inc);
      SlotStep(L, w0, inc, k - 1);
    }
  }

  lemma NextInRing(w: Q31, L: Q31, inc: Q31)
    requires 0 <= w < L && SafeStep(L, inc)
    ensures Next(w, L, inc) == if w + inc >= L then w + inc - L else w + inc
    ensures 0 <= Next(w, L, inc) < L
  {
    hide Wrap32;
    Wrap32Id(w + inc);
    if w + inc >= L { Wrap32Id(w + inc - L); }
  }

  /** Negative increments run straight down, past zero, until they overflow. */
  lemma {:induction false} NegativeStepsFall(w0: Q31, L: Q31, inc: Q31, k: nat)
    requires 0 <= w0 < L && inc < 0 && -0x8000_0000 <= w0 + k * inc
    ensures Offset(w0, L, inc, k) == w0 + k * inc
  {
    if k == 0 {
    } else {
      assert w0 + k * inc == w0 + (k - 1) * inc + inc;
      NegativeStepsFall(w0, L, inc, k - 1);
      MulMono(k - 1, inc, inc, 0);
      Wrap32Id(w0 + k * inc);
    }
  }

  /** Increments above L run straight up by what one subtraction of L leaves of them. */
  lemma {:induction false} LongStepsRise(w0: Q31, L: Q31, inc: Q31, k: nat)
    requires 0 <= w0 < L < inc && w0 + k * (inc - L) + L < 0x8000_0000
    ensures Offset(w0, L, inc, k) == w0 + k * (inc - L)
  {
    if k == 0 {
    } else {
      assert w0 + k * (inc - L) == w0 + (k - 1) * (inc - L) + (inc - L);
      LongStepsRise(w0, L, inc, k - 1);
      MulMono(k - 1, 0, inc - L, inc - L);
      Wrap32Id(w0 + k * (inc - L) + L);
      Wrap32Id(w0 + k * (inc - L));
    }
  }

  /** One step from inside the buffer, for every increment: as it is, less L, or, when the sum
    * overflows, less 2^32. */
  lemma StepIs(w: Q31, L: Q31, inc: Q31)
    requires 0 <= w < L
    ensures Offset(w, L, inc, 1) ==
      if w + inc < L then w + inc else if w + inc < 0x8000_0000 then w + inc - L else w + inc - 0x1_0000_0000
  {
    assert Offset(w, L, inc, 0) == w;
    OverflowedSum(w, inc);
    hide Wrap32;
    if w + inc < 0x8000_0000 { Wrap32Id(w + inc); }
    if L <= w + inc < 0x8000_0000 { Wrap32Id(w + inc - L); }
  }

  lemma OverflowedSum(w: Q31, inc: Q31)
    requires 0 <= w
    ensures 0x8000_0000 <= w + inc ==> Wrap32(w + inc) == w + inc - 0x1_0000_0000 < 0
  {
  }

  lemma SlotStep(L: int, w0: int, inc: int, k: nat)
    requires 0 < L && 0 <= inc <= L
    ensures 0 <= Slot(L, w0, inc, k) < L
    ensures var next := Slot(L, w0, inc, k) + inc;
      Slot(L, w0, inc, k + 1) == if next >= L then next - L else next
  {
    var a := w0 + k * inc;
    assert w0 + (k + 1) * inc == a + inc;
    var q, r := a / L, a % L + inc;
    assert a == q * L + a % L;
    if r < L { DivModUnique(a + inc, L, q, r); } else { DivModUnique(a + inc, L, q + 1, r - L); }
  }

  lemma {:induction false} OffsetsAdd(w0: Q31, L: Q31, inc: Q31, n: nat, k: nat)
    ensures Offset(Offset(w0, L, inc, n), L, inc, k) == Offset(w0, L, inc, n + k)
  {
    if k == 0 {
    } else {
      OffsetsAdd(w0, L, inc, n, k - 1);
    }
  }

  // ---- Writing and reading at a list of positions ----

  ghost predicate Inside(pos: seq<int>, n: nat) {
    forall k :: 0 <= k < |pos| ==> 0 <= pos[k] < n
  }

  // vals[0], vals[1], ... stored at pos[0], pos[1], ... in that order.
  ghost function Scatter<T>(buf: seq<T>, pos: seq<int>, vals: seq<T>): (r: seq<T>)
    requires |pos| == |vals| && Inside(pos, |buf|)
    ensures |r| == |buf|
    decreases |pos|
  {
    var n := |pos| - 1;
    if pos == [] then buf else Scatter(buf, pos[..n], vals[..n])[pos[n] := vals[n]]
  }

  ghost function Gather<T>(buf: seq<T>, pos: seq<int>): seq<T>
    requires Inside(pos, |buf|)
  {
    seq(|pos|, k requires 0 <= k < |pos| => buf[pos[k]])
  }

  /** A slot keeps the last value stored there ... */
  lemma {:induction false} ScatterLast<T>(buf: seq<T>, pos: seq<int>, vals: seq<T>, k: nat)
    requires |pos| == |vals| && Inside(pos, |buf|) && k < |pos|
    requires forall m :: k < m < |pos| ==> pos[m] != pos[k]
    ensures Scatter(buf, pos, vals)[pos[k]] == vals[k]
    decreases |pos|
  {
    var n := |pos| - 1;
    if k == n {
    } else {
      ScatterLast(buf, pos[..n], vals[..n], k);
    }
  }

  /** ... and a slot never stored to keeps what it had. */
  lemma {:induction false} ScatterUntouched<T>(buf: seq<T>, pos: seq<int>, vals: seq<T>, j: nat)
    requires |pos| == |vals| && Inside(pos, |buf|) && j < |buf| && j !in pos
    ensures Scatter(buf, pos, vals)[j] == buf[j]
    decreases |pos|
  {
    if pos == [] {
    } else {
      ScatterUntouched(buf, pos[..|pos| - 1], vals[..|pos| - 1], j);
    }
  }

  lemma {:induction false} ScatterAppend<T>(buf: seq<T>, p: seq<int>, v: seq<T>, p': seq<int>, v': seq<T>)
    requires |p| == |v| && |p'| == |v'| && Inside(p, |buf|) && Inside(p', |buf|)
    ensures Inside(p + p', |buf|)
    ensures Scatter(Scatter(buf, p, v), p', v') == Scatter(buf, p + p', v + v')
    decreases |p'|
  {
    if p' == [] {
      assert p + p' == p && v + v' == v;
    } else {
      var n := |p'| - 1;
      ScatterAppend(buf, p, v, p'[..n], v'[..n]);
      assert (p + p')[..|p| + n] == p + p'[..n] && (v + v')[..|p| + n] == v + v'[..n];
    }
  }

  ghost predicate Distinct(pos: seq<int>) {
    forall k, m :: 0 <= k < m < |pos| ==> pos[k] != pos[m]
  }

  // Reading back at the same positions.
  lemma ReadBackDistinct<T>(buf: seq<T>, pos: seq<int>, vals: seq<T>)
    requires |pos| == |vals| && Inside(pos, |buf|) && Distinct(pos)
    ensures Gather(Scatter(buf, pos, vals), pos) == vals
  {
    forall k | 0 <= k < |pos| ensures Gather(Scatter(buf, pos, vals), pos)[k] == vals[k] {
      ScatterLast(buf, pos, vals, k);
    }
  }

  // Storing one value at a time.
  lemma ScatterNext<T>(buf: seq<T>, pos: seq<int>, vals: seq<T>, k: nat)
    requires |pos| == |vals| && Inside(pos, |buf|) && k < |pos|
    ensures Scatter(buf, pos[..k + 1], vals[..k + 1]) == Scatter(buf, pos[..k], vals[..k])[pos[k] := vals[k]]
  {
    var p, v := pos[..k + 1], vals[..k + 1];
    assert p[..k] == pos[..k] && v[..k] == vals[..k];
  }

  lemma ScatterNone<T>(buf: seq<T>, pos: seq<int>, vals: seq<T>)
    ensures Scatter(buf, pos[..0], vals[..0]) == buf
  {
  }

  // ---- The two routines ----

  // Where the source pointer is after k increments.
  function Address(start: int, inc: int, k: nat): int { start + k * inc }

  ghost predicate SourceOk<T>(src: seq<T>, start: int, inc: int, n: nat) {
    forall k :: 0 <= k < n ==> 0 <= Address(start, inc, k) < |src|
  }

  // The block's n samples, srcInc apart.
  ghost function Strided<T>(src: seq<T>, start: int, inc: int, n: nat): (r: seq<T>)
    requires SourceOk(src, start, inc, n)
    ensures |r| == n && forall k :: 0 <= k < n ==> r[k] == src[Address(start, inc, k)]
  {
    seq(n, k requires 0 <= k < n => src[Address(start, inc, k)])
  }

  lemma AddressStep(start: int, inc: int, k: nat)
    ensures Address(start, inc, 0) == start && Address(start, inc, k + 1) == Address(start, inc, k) + inc
  {
  }

  // The write offset is kept in 16 bits between blocks.
  function HandedBack(w0: Q31, L: Q31, inc: Q31, n: nat): U16 { Offset(w0, L, inc, n) % 0x1_0000 }

  method ArmCircularWrite<T>(circBuffer: array<T>, L: Q31, writeOffset: U16, bufferInc: Q31,
                             src: seq<T>, start: int, srcInc: int, blockSize: nat)
    returns (newOffset: U16)
    requires Inside(Offsets(writeOffset, L, bufferInc, blockSize), circBuffer.Length)
    requires SourceOk(src, start, srcInc, blockSize)
    modifies circBuffer
    ensures circBuffer[..] == Scatter(old(circBuffer[..]), Offsets(writeOffset, L, bufferInc, blockSize),
                                      Strided(src, start, srcInc, blockSize))
    ensures newOffset == HandedBack(writeOffset, L, bufferInc, blockSize)
  {
    hide Address, Wrap32, Scatter;
    AddressStep(start, srcInc, 0);
    ghost var pos := Offsets(writeOffset, L, bufferInc, blockSize);
    ghost var vals := Strided(src, start, srcInc, blockSize);
    var i := blockSize;
    var wOffset: Q31 := writeOffset;
    var s := start;
    ScatterNone(circBuffer[..], pos, vals);
    while i > 0
      invariant 0 <= i <= blockSize
      invariant wOffset == Offset(writeOffset, L, bufferInc, blockSize - i)
      invariant s == Address(start, srcInc, blockSize - i)
      invariant circBuffer[..] == Scatter(old(circBuffer[..]), pos[..blockSize - i], vals[..blockSize - i])
    {
      ghost var k := blockSize - i;
      ScatterNext(old(circBuffer[..]), pos, vals, k);
      assert pos[k] == wOffset && vals[k] == src[s];
      AddressStep(start, srcInc, k);
      circBuffer[wOffset] := src[s];
      s := s + srcInc;
      wOffset := Wrap32(wOffset + bufferInc);
      if wOffset >= L { wOffset := Wrap32(wOffset - L); }
      i := i - 1;
    }
    assert pos[..blockSize] == pos && vals[..blockSize] == vals;
    newOffset := wOffset % 0x1_0000;
  }

  // The destination pointer restarts at its base when it lands exactly on the end.
  function DstNext(d: int, base: int, len: int, inc: int): int {
    if d + inc == base + len then base else d + inc
  }

  function DstIndex(d0: int, base: int, len: int, inc: int, k: nat): int {
    if k == 0 then d0 else DstNext(DstIndex(d0, base, len, inc, k - 1), base, len, inc)
  }

  function DstIndices(d0: int, base: int, len: int, inc: int, n: nat): (p: seq<int>)
    ensures |p| == n && forall k :: 0 <= k < n ==> p[k] == DstIndex(d0, base, len, inc, k)
  {
    seq(n, k requires 0 <= k => DstIndex(d0, base, len, inc, k))
  }

  method ArmCircularRead<T>(circBuffer: array<T>, L: Q31, readOffset: Q31, bufferInc: Q31,
                            dst: array<T>, start: int, base: int, dstLength: Q31, dstInc: Q31, blockSize: nat)
    returns (newOffset: Q31)
    requires dst != circBuffer
    requires Inside(Offsets(readOffset, L, bufferInc, blockSize), circBuffer.Length)
    requires Inside(DstIndices(start, base, dstLength, dstInc, blockSize), dst.Length)
    modifies dst
    ensures dst[..] == Scatter(old(dst[..]), DstIndices(start, base, dstLength, dstInc, blockSize),
                               Gather(circBuffer[..], Offsets(readOffset, L, bufferInc, blockSize)))
    ensures newOffset == Offset(readOffset, L, bufferInc, blockSize)
  {
    hide Wrap32, Scatter;
    ghost var from := Offsets(readOffset, L, bufferInc, blockSize);
    ghost var pos := DstIndices(start, base, dstLength, dstInc, blockSize);
    ghost var vals := Gather(circBuffer[..], from);
    var i := blockSize;
    var rOffset: Q31 := readOffset;
    var d := start;
    ScatterNone(dst[..], pos, vals);
    while i > 0
      invariant 0 <= i <= blockSize
      invariant rOffset == Offset(readOffset, L, bufferInc, blockSize - i)
      invariant d == DstIndex(start, base, dstLength, dstInc, blockSize - i)
      invariant dst[..] == Scatter(old(dst[..]), pos[..blockSize - i], vals[..blockSize - i])
    {
      ghost var k := blockSize - i;
      ScatterNext(old(dst[..]), pos, vals, k);
      assert from[k] == rOffset && pos[k] == d && vals[k] == circBuffer[rOffset];
      dst[d] := circBuffer[rOffset];
      d := d + dstInc;
      if d == base + dstLength { d := base; }
      rOffset := Wrap32(rOffset + bufferInc);
      if rOffset >= L { rOffset := Wrap32(rOffset - L); }
      i := i - 1;
    }
    assert pos[..blockSize] == pos && vals[..blockSize] == vals;
    newOffset := rOffset;
  }

  // ---- What a block write means ----

  // The circular parameters under which every block is safe.
  ghost predicate Ring(L: Q31, w0: Q31, inc: Q31, size: nat) {
    0 <= w0 < L <= size && SafeStep(L, inc)
  }

  ghost function Written<T>(buf: seq<T>, L: Q31, w0: Q31, inc: Q31, vals: seq<T>): (r: seq<T>)
    requires Ring(L, w0, inc, |buf|)
    ensures |r| == |buf|
  {
    OffsetsInside(L, w0, inc, |vals|, |buf|);
    Scatter(buf, Offsets(w0, L, inc, |vals|), vals)
  }

  lemma OffsetsInside(L: Q31, w0: Q31, inc: Q31, n: nat, size: nat)
    requires Ring(L, w0, inc, size)
    ensures Inside(Offsets(w0, L, inc, n), size)
  {
    forall k | 0 <= k < n ensures 0 <= Offsets(w0, L, inc, n)[k] < size {
      OffsetIsMod(w0, L, inc, k);
    }
  }

  function Slots(L: int, w0: int, inc: int, n: nat): (p: seq<int>)
    requires 0 < L
    ensures |p| == n && forall k :: 0 <= k < n ==> p[k] == Slot(L, w0, inc, k)
  {
    seq(n, k requires 0 <= k => Slot(L, w0, inc, k))
  }

  lemma OffsetsAreSlots(L: Q31, w0: Q31, inc: Q31, n: nat)
    requires 0 <= w0 < L && SafeStep(L, inc)
    ensures Offsets(w0, L, inc, n) == Slots(L, w0, inc, n)
    ensures forall k :: 0 <= k < n ==> 0 <= Slot(L, w0, inc, k) < L
  {
    forall k | 0 <= k < n ensures Offset(w0, L, inc, k) == Slot(L, w0, inc, k) { OffsetIsMod(w0, L, inc, k); }
  }

  /** Slot (w0 + k * inc) mod L holds sample k, if k is the last sample to fall there ... */
  lemma WrittenSlot<T>(buf: seq<T>, L: Q31, w0: Q31, inc: Q31, vals: seq<T>, k: nat)
    requires Ring(L, w0, inc, |buf|) && k < |vals|
    requires forall m :: k < m < |vals| ==> Slot(L, w0, inc, m) != Slot(L, w0, inc, k)
    ensures 0 <= Slot(L, w0, inc, k) < |buf|
    ensures Written(buf, L, w0, inc, vals)[Slot(L, w0, inc, k)] == vals[k]
  {
    hide Slot;
    OffsetsAreSlots(L, w0, inc, |vals|);
    OffsetsInside(L, w0, inc, |vals|, |buf|);
    ScatterLast(buf, Offsets(w0, L, inc, |vals|), vals, k);
  }

  /** ... and a slot no sample falls on, like everything from L on, is unchanged. */
  lemma UnwrittenSlot<T>(buf: seq<T>, L: Q31, w0: Q31, inc: Q31, vals: seq<T>, j: nat)
    requires Ring(L, w0, inc, |buf|) && j < |buf|
    requires forall m :: 0 <= m < |vals| ==> Slot(L, w0, inc, m) != j
    ensures Written(buf, L, w0, inc, vals)[j] == buf[j]
  {
    hide Slot;
    OffsetsAreSlots(L, w0, inc, |vals|);
    OffsetsInside(L, w0, inc, |vals|, |buf|);
    ScatterUntouched(buf, Offsets(w0, L, inc, |vals|), vals, j);
  }

  lemma OffsetInRing(L: Q31, w0: Q31, inc: Q31, k: nat, size: nat)
    requires Ring(L, w0, inc, size)
    ensures Ring(L, Offset(w0, L, inc, k), inc, size) && Ring(L, HandedBack(w0, L, inc, k), inc, size)
  {
    OffsetIsMod(w0, L, inc, k);
  }

  // The largest offset a run from w0 ever reaches: the last one congruent to w0 modulo the gcd.
  function MaxOffset(L: Q31, w0: Q31, inc: Q31): (r: int)
    requires 0 <= w0 < L && 0 <= inc <= L
    ensures 0 <= r < L
  {
    GcdAtMost(inc, L);
    L - Gcd(inc, L) + w0 % Gcd(inc, L)
  }

  lemma GcdAtMost(inc: nat, L: nat)
    requires 0 < L
    ensures 0 < Gcd(inc, L) <= L
  {
    GcdDivides(inc, L);
    MulLess(1, L / Gcd(inc, L), Gcd(inc, L));
  }

  lemma SlotAtMost(L: Q31, w0: Q31, inc: Q31, k: nat)
    requires 0 <= w0 < L && 0 <= inc <= L
    ensures Slot(L, w0, inc, k) <= MaxOffset(L, w0, inc)
  {
    var u, v, x, y := Bezout(inc, L);
    var g, a := Gcd(inc, L), w0 + k * inc;
    var s, q := Slot(L, w0, inc, k), w0 / g;
    LastCongruent(w0, k, x, y, g, q, w0 % g, a / L, s);
  }

  // s = r + c g below y g is at most r + (y - 1) g.
  lemma LastCongruent(w0: int, k: int, x: int, y: int, g: int, q: int, r: int, d: int, s: int)
    requires 0 < g && w0 == q * g + r && 0 <= r < g && w0 + k * (x * g) == d * (y * g) + s && s < y * g
    ensures s <= y * g - g + r
  {
    var c := q + k * x - d * y;
    assert s == c * g + r by {
      assert k * (x * g) == k * x * g && d * (y * g) == d * y * g;
      assert (q + k * x - d * y) * g == q * g + k * x * g - d * y * g;
    }
    MulLess(y, c, g);
    MulLess(c, y - 1, g);
    assert (y - 1) * g == y * g - g;
  }

  lemma MaxReached(L: Q31, w0: Q31, inc: Q31) returns (k: nat)
    requires 0 <= w0 < L && 0 <= inc <= L
    ensures Slot(L, w0, inc, k) == MaxOffset(L, w0, inc)
  {
    hide Slot, Gcd;
    var u, v, x, y := Bezout(inc, L);
    var q;
    k, q := ReachLast(w0, inc, L, Gcd(inc, L), u, v, y);
    SlotIs(L, w0, inc, k, q, MaxOffset(L, w0, inc));
  }

  // Enough steps of inc lead to L - g + w0 mod g, modulo L.
  lemma ReachLast(w0: int, inc: int, L: int, g: int, u: int, v: int, y: int) returns (k: nat, q: int)
    requires 0 < g && 0 < L && u * inc + v * L == g && L == y * g
    ensures w0 + k * inc == q * L + (L - g + w0 % g)
  {
    var c := y - 1 - w0 / g;
    var cu := c * u;
    k := cu % L;
    var t := cu / L;
    q := -(c * v + t * inc);
    assert k == cu - t * L;
    SolvesCongruence(w0, inc, L, g, u, v, y, w0 / g, w0 % g, c, k, t);
  }

  lemma SlotIs(L: int, w0: int, inc: int, k: nat, q: int, r: int)
    requires 0 <= r < L && w0 + k * inc == q * L + r
    ensures Slot(L, w0, inc, k) == r
  {
    DivModUnique(w0 + k * inc, L, q, r);
  }

  lemma SolvesCongruence(w0: int, inc: int, L: int, g: int, u: int, v: int, y: int,
                         q: int, r: int, c: int, k: int, t: int)
    requires u * inc + v * L == g && L == y * g && w0 == q * g + r
    requires c == y - 1 - q && k == c * u - t * L
    ensures w0 + k * inc == -(c * v + t * inc) * L + (L - g + r)
  {
    assert k * inc == c * (u * inc) - t * inc * L;
    assert c * (u * inc) == c * (g - v * L) == c * g - c * v * L;
    assert c * g == y * g - g - q * g;
    assert (c * v + t * inc) * L == c * v * L + t * inc * L;
  }

  /** The 16-bit offset handed back is the true one for every block size if and only if that
    * largest offset fits, as it does in every buffer of at most 2^16 slots. */
  lemma HandedBackIff(L: Q31, w0: Q31, inc: Q31)
    requires 0 <= w0 < L && SafeStep(L, inc)
    ensures (forall n: nat :: HandedBack(w0, L, inc, n) == Offset(w0, L, inc, n))
      <==> MaxOffset(L, w0, inc) < 0x1_0000
    ensures L <= 0x1_0000 ==> MaxOffset(L, w0, inc) < 0x1_0000
  {
    hide Offset, Slot, MaxOffset;
    var k := MaxReached(L, w0, inc);
    OffsetIsMod(w0, L, inc, k);
    if MaxOffset(L, w0, inc) < 0x1_0000 {
      forall n: nat ensures HandedBack(w0, L, inc, n) == Offset(w0, L, inc, n) {
        OffsetIsMod(w0, L, inc, n);
        SlotAtMost(L, w0, inc, n);
      }
    } else {
      assert HandedBack(w0, L, inc, k) != Offset(w0, L, inc, k);
    }
  }

  // Writing a and then b, from the offset handed back, leaves the buffer and the offset that
  // one block of both leaves.
  ghost predicate WritesSplit<T>(buf: seq<T>, L: Q31, w0: Q31, inc: Q31, a: seq<T>, b: seq<T>)
    requires Ring(L, w0, inc, |buf|)
  {
    var w1 := HandedBack(w0, L, inc, |a|);
    OffsetInRing(L, w0, inc, |a|, |buf|);
    && Written(Written(buf, L, w0, inc, a), L, w1, inc, b) == Written(buf, L, w0, inc, a + b)
    && HandedBack(w1, L, inc, |b|) == HandedBack(w0, L, inc, |a + b|)
  }

  /** Two blocks in a row are one longer block, while the largest offset fits in 16 bits ... */
  lemma WriteBlocks<T>(buf: seq<T>, L: Q31, w0: Q31, inc: Q31, a: seq<T>, b: seq<T>)
    requires Ring(L, w0, inc, |buf|) && MaxOffset(L, w0, inc) < 0x1_0000
    ensures WritesSplit(buf, L, w0, inc, a, b)
  {
    hide Offset, Offsets, Scatter, Written, Inside, MaxOffset;
    var w1 := Offset(w0, L, inc, |a|);
    HandedBackIff(L, w0, inc);
    assert HandedBack(w0, L, inc, |a|) == w1;
    OffsetInRing(L, w0, inc, |a|, |buf|);
    OffsetsAdd(w0, L, inc, |a|, |b|);
    OffsetsConcat(w0, L, inc, |a|, |b|);
    WrittenIs(buf, L, w0, inc, a);
    WrittenIs(Written(buf, L, w0, inc, a), L, w1, inc, b);
    WrittenIs(buf, L, w0, inc, a + b);
    ScatterAppend(buf, Offsets(w0, L, inc, |a|), a, Offsets(w1, L, inc, |b|), b);
  }

  /** ... and only then: otherwise some block ends past 2^16 and the next one starts elsewhere. */
  lemma WriteBlocksIff(buf: seq<int>, L: Q31, w0: Q31, inc: Q31)
    requires Ring(L, w0, inc, |buf|)
    ensures (forall a: seq<int>, b: seq<int> :: WritesSplit(buf, L, w0, inc, a, b))
      <==> MaxOffset(L, w0, inc) < 0x1_0000
  {
    if MaxOffset(L, w0, inc) < 0x1_0000 {
      forall a: seq<int>, b: seq<int> ensures WritesSplit(buf, L, w0, inc, a, b) {
        WriteBlocks(buf, L, w0, inc, a, b);
      }
    } else {
      var k := MaxReached(L, w0, inc);
      var a := seq(k, _ => 0);
      OffsetIsMod(w0, L, inc, k);
      var x := Written(buf, L, w0, inc, a)[Offset(w0, L, inc, k)] + 1;
      LostBlock(buf, L, w0, inc, a, x);
    }
  }

  /** A plain delay line of more than 2^16 slots is too long for the routine's offset. */
  lemma LongDelayLineFails(buf: seq<int>, L: Q31)
    requires 0x1_0000 < L <= |buf|
    ensures exists a: seq<int>, b: seq<int> :: !WritesSplit(buf, L, 0, 1, a, b)
  {
    GcdOfOne(L);
    WriteBlocksIff(buf, L, 0, 1);
    hide WritesSplit, Gcd;
  }

  lemma GcdOfOne(L: nat)
    requires 1 < L
    ensures Gcd(1, L) == 1
  {
    assert Gcd(L, 1) == Gcd(1, 0);
  }

  // A sample that should land on a slot past 2^16 and change it, does not.
  lemma LostBlock(buf: seq<int>, L: Q31, w0: Q31, inc: Q31, a: seq<int>, x: int)
    requires Ring(L, w0, inc, |buf|)
    requires 0x1_0000 <= Offset(w0, L, inc, |a|) < L
    requires Written(buf, L, w0, inc, a)[Offset(w0, L, inc, |a|)] != x
    ensures !WritesSplit(buf, L, w0, inc, a, [x])
  {
    hide Offset, Written;
    var w, w1 := Offset(w0, L, inc, |a|), HandedBack(w0, L, inc, |a|);
    OffsetInRing(L, w0, inc, |a|, |buf|);
    LastSampleLands(buf, L, w0, inc, a, x);
    OneSampleElsewhere(Written(buf, L, w0, inc, a), L, w1, inc, x, w);
  }

  lemma LastSampleLands(buf: seq<int>, L: Q31, w0: Q31, inc: Q31, a: seq<int>, x: int)
    requires Ring(L, w0, inc, |buf|)
    ensures 0 <= Offset(w0, L, inc, |a|) < L
    ensures Written(buf, L, w0, inc, a + [x])[Offset(w0, L, inc, |a|)] == x
  {
    hide Offset, Written, Slot;
    OffsetIsMod(w0, L, inc, |a|);
    WrittenSlot(buf, L, w0, inc, a + [x], |a|);
  }

  lemma OneSampleElsewhere(buf: seq<int>, L: Q31, w1: Q31, inc: Q31, x: int, j: nat)
    requires Ring(L, w1, inc, |buf|) && j < |buf| && j != w1
    ensures Written(buf, L, w1, inc, [x])[j] == buf[j]
  {
    hide Written;
    OffsetIsMod(w1, L, inc, 0);
    assert Offset(w1, L, inc, 0) == w1;
    UnwrittenSlot(buf, L, w1, inc, [x], j);
  }

  lemma WrittenIs<T>(buf: seq<T>, L: Q31, w0: Q31, inc: Q31, vals: seq<T>)
    requires Ring(L, w0, inc, |buf|)
    ensures Inside(Offsets(w0, L, inc, |vals|), |buf|)
    ensures Written(buf, L, w0, inc, vals) == Scatter(buf, Offsets(w0, L, inc, |vals|), vals)
  {
    OffsetsInside(L, w0, inc, |vals|, |buf|);
  }

  lemma OffsetsConcat(w0: Q31, L: Q31, inc: Q31, n: nat, m: nat)
    ensures Offsets(w0, L, inc, n) + Offsets(Offset(w0, L, inc, n), L, inc, m) == Offsets(w0, L, inc, n + m)
  {
    var w1 := Offset(w0, L, inc, n);
    forall k | 0 <= k < m ensures Offset(w1, L, inc, k) == Offset(w0, L, inc, n + k) {
      OffsetsAdd(w0, L, inc, n, k);
    }
  }

  // ---- When a block can be read back ----

  // Number of samples before the offsets repeat.
  function Period(L: int, inc: int): (p: nat)
    requires 0 < L && 0 <= inc <= L
    ensures 0 < p
  {
    GcdDivides(inc, L);
    L / Gcd(inc, L)
  }

  // Two samples share a slot exactly when they are a multiple of the period apart.
  lemma SameSlotIff(L: int, w0: int, inc: int, k: nat, m: nat)
    requires 0 < L && 0 <= inc <= L && k <= m
    ensures Slot(L, w0, inc, k) == Slot(L, w0, inc, m) <==> (m - k) % Period(L, inc) == 0
  {
    assert (w0 + m * inc) - (w0 + k * inc) == (m - k) * inc;
    ModEqualIff(w0 + k * inc, w0 + m * inc, L);
    MultipleIff(m - k, inc, L);
  }

  lemma DistinctIff(L: int, w0: int, inc: int, n: nat)
    requires 0 < L && 0 <= inc <= L
    ensures Distinct(Slots(L, w0, inc, n)) <==> n <= Period(L, inc)
  {
    hide Slot;
    var pos, P := Slots(L, w0, inc, n), Period(L, inc);
    if n <= P {
      forall k, m | 0 <= k < m < n ensures pos[k] != pos[m] {
        SameSlotIff(L, w0, inc, k, m);
        DivModUnique(m - k, P, 0, m - k);
      }
    } else {
      SameSlotIff(L, w0, inc, 0, P);
      DivModUnique(P, P, 1, 0);
      assert pos[0] == pos[P];
    }
  }

  // Reading n samples from where writing started returns what was written.
  ghost predicate ReadsBack(buf: seq<int>, L: Q31, w0: Q31, inc: Q31, vals: seq<int>)
    requires Ring(L, w0, inc, |buf|)
  {
    OffsetsInside(L, w0, inc, |vals|, |buf|);
    Gather(Written(buf, L, w0, inc, vals), Offsets(w0, L, inc, |vals|)) == vals
  }

  /** Every block of n samples can be read back if and only if n <= L / gcd(inc, L). */
  lemma RoundTripIff(buf: seq<int>, L: Q31, w0: Q31, inc: Q31, n: nat)
    requires Ring(L, w0, inc, |buf|)
    ensures (forall vals: seq<int> :: |vals| == n ==> ReadsBack(buf, L, w0, inc, vals)) <==> n <= Period(L, inc)
  {
    var pos := Offsets(w0, L, inc, n);
    OffsetsInside(L, w0, inc, n, |buf|);
    OffsetsAreSlots(L, w0, inc, n);
    DistinctIff(L, w0, inc, n);
    if n <= Period(L, inc) {
      forall vals: seq<int> | |vals| == n ensures ReadsBack(buf, L, w0, inc, vals) {
        ReadBackDistinct(buf, pos, vals);
      }
    } else {
      var k, m :| 0 <= k < m < n && pos[k] == pos[m];
      var vals := seq(n, i => i);
      var read := Gather(Written(buf, L, w0, inc, vals), pos);
      assert read[k] == read[m] && vals[k] != vals[m];
      assert !ReadsBack(buf, L, w0, inc, vals);
    }
  }

  /** A destination that starts aligned, with dstInc dividing its length, wraps exactly and
    * stays in bounds: its index is the slot of a ring of that length. */
  lemma {:induction false} DstWrapsExactly(d0: int, base: int, len: int, inc: int, k: nat)
    requires 0 < inc && 0 <= d0 - base < len && len % inc == 0 && (d0 - base) % inc == 0
    ensures inc <= len && DstIndex(d0, base, len, inc, k) == base + Slot(len, d0 - base, inc, k)
    ensures 0 <= Slot(len, d0 - base, inc, k) < len && Slot(len, d0 - base, inc, k) % inc == 0
  {
    AlignedStep(0, len, inc);
    if k == 0 {
      DivModUnique(d0 - base, len, 0, d0 - base);
    } else {
      DstWrapsExactly(d0, base, len, inc, k - 1);
      AlignedStep(Slot(len, d0 - base, inc, k - 1), len, inc);
      SlotStep(len, d0 - base, inc, k - 1);
      hide Slot;
    }
  }

  /** In general the index runs straight on while it does not land on the end ... */
  lemma {:induction false} DstRunsOn(d0: int, base: int, len: int, inc: int, k: nat)
    requires forall j :: 1 <= j <= k ==> Address(d0, inc, j) != base + len
    ensures DstIndex(d0, base, len, inc, k) == d0 + k * inc
  {
    if k == 0 {
    } else {
      DstRunsOn(d0, base, len, inc, k - 1);
      assert Address(d0, inc, k) == d0 + (k - 1) * inc + inc;
    }
  }

  /** ... and starts over from the base when it does. */
  lemma {:induction false} DstRestarts(d0: int, base: int, len: int, inc: int, n: nat, k: nat)
    requires 1 <= n && Address(d0, inc, n) == base + len
    requires forall j :: 1 <= j < n ==> Address(d0, inc, j) != base + len
    ensures DstIndex(d0, base, len, inc, n + k) == DstIndex(base, base, len, inc, k)
  {
    if k == 0 {
      DstRunsOn(d0, base, len, inc, n - 1);
      assert Address(d0, inc, n) == d0 + (n - 1) * inc + inc;
    } else {
      DstRestarts(d0, base, len, inc, n, k - 1);
    }
  }

  lemma AlignedStep(o: int, len: int, inc: int)
    requires 0 < inc && 0 <= o < len && len % inc == 0 && o % inc == 0
    ensures o + inc <= len && (o + inc) % inc == 0
  {
    var a, b := o / inc, len / inc;
    assert o == a * inc && len == b * inc;
    if b <= a { MulLess(b, a, inc); }
    MulLess(a + 1, b, inc);
    DivModUnique(o + inc, inc, a + 1, 0);
  }

  ghost predicate AlignedDst(d0: int, base: int, len: int, inc: int, size: nat) {
    && 0 <= base && base + len <= size
    && 0 < inc <= len && 0 <= d0 - base < len && len % inc == 0 && (d0 - base) % inc == 0
  }

  lemma DstInside(d0: int, base: int, len: int, inc: int, n: nat, size: nat)
    requires AlignedDst(d0, base, len, inc, size)
    ensures Inside(DstIndices(d0, base, len, inc, n), size)
    ensures Distinct(DstIndices(d0, base, len, inc, n)) <==> n <= Period(len, inc)
  {
    var pos, ring := DstIndices(d0, base, len, inc, n), Slots(len, d0 - base, inc, n);
    forall k | 0 <= k < n ensures pos[k] == base + ring[k] && 0 <= pos[k] < size {
      DstWrapsExactly(d0, base, len, inc, k);
    }
    DistinctIff(len, d0 - base, inc, n);
  }

  /** Write a block, read it from the same offset: as long as neither ring repeats, every
    * destination slot receives its sample, wrap-around of both buffers included. */
  lemma RoundTripIntoDestination(buf: seq<int>, L: Q31, w0: Q31, inc: Q31, vals: seq<int>,
                                 dst: seq<int>, d0: int, base: int, len: int, dstInc: int, k: nat)
    requires Ring(L, w0, inc, |buf|) && AlignedDst(d0, base, len, dstInc, |dst|)
    requires |vals| <= Period(L, inc) && |vals| <= Period(len, dstInc) && k < |vals|
    ensures var from, to := Offsets(w0, L, inc, |vals|), DstIndices(d0, base, len, dstInc, |vals|);
      && Inside(from, |buf|) && Inside(to, |dst|)
      && Scatter(dst, to, Gather(Written(buf, L, w0, inc, vals), from))[to[k]] == vals[k]
  {
    hide Offset, Offsets, DstIndex, DstIndices, Scatter, Period;
    RoundTripIff(buf, L, w0, inc, |vals|);
    OffsetsInside(L, w0, inc, |vals|, |buf|);
    DstInside(d0, base, len, dstInc, |vals|, |dst|);
    assert ReadsBack(buf, L, w0, inc, vals);
    ScatterLast(dst, DstIndices(d0, base, len, dstInc, |vals|), vals, k);
  }
}
