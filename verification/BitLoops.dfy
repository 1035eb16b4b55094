/** The software bit loops that stand in for the RBIT and CLZ instructions
  * (cmsis_gcc.h and cmsis_iccarm.h).
  */
module BitLoops {
  import opened Bits
  import opened FixedPoint

  // In a number below 2^(k+1), bit k says whether it reaches 2^k.
  lemma BitOfTop(v: nat, k: nat)
    requires v < Pow2(k + 1)
    ensures Bit(v, k) == 1 <==> Pow2(k) <= v
  {
    if Pow2(k) <= v { DivModUnique(v, Pow2(k), 1, v - Pow2(k)); } else { DivModUnique(v, Pow2(k), 0, v); }
  }

  // The low n bits of v in the opposite order.
  function Reverse(v: nat, n: nat): nat {
    if n == 0 then 0
    else (if v % 2 == 1 then Pow2(n - 1) else 0) + Reverse(v / 2, n - 1)
  }

  lemma {:induction false} ReverseBound(v: nat, n: nat)
    ensures Reverse(v, n) < Pow2(n)
  {
    if n == 0 {
    } else {
      ReverseBound(v / 2, n - 1);
    }
  }

  // Reading the bits from the other end: the highest bit of v is the lowest of the result.
  lemma {:induction false} ReverseFromTop(v: nat, n: nat)
    ensures Reverse(v, n + 1) == 2 * Reverse(v, n) + Bit(v, n)
  {
    if n == 0 {
    } else {
      ReverseFromTop(v / 2, n - 1);
      BitOfHalf(v, n - 1);
    }
  }

  lemma {:induction false} ReverseBit(v: nat, n: nat, i: nat)
    requires i < n
    ensures Bit(Reverse(v, n), i) == Bit(v, n - 1 - i)
  {
    ReverseFromTop(v, n - 1);
    assert Reverse(v, n) / 2 == Reverse(v, n - 1);
    if i == 0 {
      BitZero(Reverse(v, n));
    } else {
      ReverseBit(v, n - 1, i - 1);
      BitOfHalf(Reverse(v, n), i - 1);
    }
  }

  lemma BitZero(v: nat)
    ensures Bit(v, 0) == v % 2
  {
  }

  // A bit above the n reversed ones does not matter.
  lemma {:induction false} ReverseIgnoresHigh(l: nat, n: nat, high: bool)
    ensures Reverse((if high then Pow2(n) else 0) + l, n) == Reverse(l, n)
  {
    if n == 0 {
    } else {
      ReverseIgnoresHigh(l / 2, n - 1, high);
    }
  }

  // Reversing more bits than v has shifts the result left.
  lemma {:induction false} ReverseShort(v: nat, n: nat, s: nat)
    requires v < Pow2(n)
    ensures Reverse(v, n + s) == Reverse(v, n) * Pow2(s)
  {
    if s == 0 {
    } else {
      ReverseShort(v, n, s - 1);
      ReverseFromTop(v, n + s - 1);
      Pow2Mono(n, n + s - 1);
      BitOfTop(v, n + s - 1);
      Doubled(Reverse(v, n), Pow2(s - 1));
    }
  }

  /** RBIT is an involution. */
  lemma {:induction false} ReverseInvolution(v: nat, n: nat)
    requires v < Pow2(n)
    ensures Reverse(Reverse(v, n), n) == v
  {
    if n == 0 {
    } else {
      var w := Reverse(v / 2, n - 1);
      ReverseInvolution(v / 2, n - 1);
      ReverseBound(v / 2, n - 1);
      ReverseFromTop(Reverse(v, n), n - 1);
      ReverseIgnoresHigh(w, n - 1, v % 2 == 1);
      BitOfTop(Reverse(v, n), n - 1);
    }
  }

  // One turn of the RBIT loop: with n bits of `value` already reversed at the bottom of
  // the 32-bit accumulator r, the next bit v % 2 is shifted in.
  lemma RbitStep(value: U32, n: nat, r: U32, v: nat)
    requires v == value / Pow2(n) && v != 0
    requires r % Pow2(n) == Reverse(value, n)
    ensures n < 32
    ensures Or(r * 2 % 0x1_0000_0000, And(v, 1)) < 0x1_0000_0000
    ensures Or(r * 2 % 0x1_0000_0000, And(v, 1)) % Pow2(n + 1) == Reverse(value, n + 1)
  {
    Pow2Values();
    if 32 <= n {
      Pow2Mono(32, n);
      DivModUnique(value, Pow2(n), 0, value);
      assert false;
    }
    AndLowMask(v, 1);
    ReverseFromTop(value, n);
    ShiftInBit(r, n, v % 2);
    assert Pow2(1) == 2;
  }

  // Shifting bit b in from the right; the bit lost at the top is above the n + 1 that matter.
  lemma ShiftInBit(r: U32, n: nat, b: nat)
    requires n <= 31 && b <= 1
    ensures var r' := Or(r * 2 % 0x1_0000_0000, b);
      r' < 0x1_0000_0000 && r' % Pow2(n + 1) == 2 * (r % Pow2(n)) + b
  {
    var low := r % 0x8000_0000;
    assert Pow2(1) == 2 && Pow2(n + 1) == 2 * Pow2(n);
    Pow2Values();
    hide Or, Pow2;
    ShiftedOut(r);
    OrFields(low, 1, b);
    ModOfMod(r, n, 31);
    ModOfShifted(low, b, Pow2(n));
  }

  lemma ModOfShifted(low: nat, b: nat, p: nat)
    requires 0 < p && b <= 1
    ensures (2 * low + b) % (2 * p) == 2 * (low % p) + b
  {
    ModDouble(2 * low + b, p);
    assert (2 * low + b) / 2 == low;
  }

  lemma ShiftedOut(r: U32)
    ensures r * 2 % 0x1_0000_0000 == 2 * (r % 0x8000_0000)
  {
    ModDouble(r * 2, 0x8000_0000);
  }

  // The last shift, once no bits of `value` are left above the n reversed ones.
  lemma RbitFinish(value: U32, n: nat, r: U32)
    requires n <= 32 && value / Pow2(n) == 0
    requires r % Pow2(n) == Reverse(value, n)
    ensures r * Pow2(32 - n) % 0x1_0000_0000 == Reverse(value, 32)
  {
    Pow2Values();
    ShiftLeftKeepsLow(r, 32 - n, n);
    SplitAt(value, n);
    ReverseShort(value, n, 32 - n);
    assert n + (32 - n) == 32;
  }

  // The early-exit loop: it stops at the highest set bit and shifts the rest in one go.
  method Rbit(value: U32) returns (result: U32)
    ensures result == Reverse(value, 32)
    ensures forall i :: 0 <= i < 32 ==> Bit(result, i) == Bit(value, 31 - i)
  {
    var s := 31;
    var v := value;
    result := v;
    v := v / 2;
    assert Pow2(1) == 2 && Reverse(value, 1) == value % 2;
    while v != 0
      invariant 0 <= s <= 31 && v == value / Pow2(32 - s)
      invariant result % Pow2(32 - s) == Reverse(value, 32 - s)
      decreases v
    {
      RbitStep(value, 32 - s, result, v);
      DivPow2Twice(value, 32 - s, 1);
      result := Or(result * 2 % 0x1_0000_0000, And(v, 1));
      v := v / 2;
      s := s - 1;
    }
    RbitFinish(value, 32 - s, result);
    result := result * Pow2(s) % 0x1_0000_0000;
    forall i | 0 <= i < 32 ensures Bit(result, i) == Bit(value, 31 - i) {
      ReverseBit(value, 32, i);
    }
  }

  // ---- Count leading zeros ----

  // Number of bits needed to write v.
  function Width(v: nat): nat {
    if v == 0 then 0 else 1 + Width(v / 2)
  }

  function Clz(v: U32): nat {
    if Width(v) <= 32 then 32 - Width(v) else 0
  }

  lemma {:induction false} WidthIff(v: nat, w: nat)
    requires 0 < v
    ensures Width(v) == w + 1 <==> Pow2(w) <= v < Pow2(w + 1)
  {
    if v == 1 {
      assert Width(1) == 1;
      if w > 0 { Pow2Mono(1, w); assert Pow2(1) == 2; }
    } else if w == 0 {
      assert Width(v / 2) >= 1;
    } else {
      WidthIff(v / 2, w - 1);
    }
  }

  /** CLZ(v) = n exactly when 2^(31-n) <= v < 2^(32-n). */
  lemma ClzIff(v: U32, n: nat)
    requires 0 < v
    ensures Clz(v) == n <==> n < 32 && Pow2(31 - n) <= v < Pow2(32 - n)
  {
    Pow2Values();
    WidthAtMost(v, 32);
    assert Width(v) >= 1;
    if n < 32 { WidthIff(v, 31 - n); }
  }

  lemma {:induction false} WidthAtMost(v: nat, w: nat)
    requires v < Pow2(w)
    ensures Width(v) <= w
  {
    if v == 0 {
    } else {
      WidthAtMost(v / 2, w - 1);
    }
  }

  lemma ClzOf31Bits(v: nat)
    requires v < 0x8000_0000
    ensures 1 <= Clz(v)
  {
    Pow2Values();
    WidthAtMost(v, 31);
  }

  // One turn of the CLZ loop: the bit the mask has reached is the top one or it is clear.
  lemma ClzStep(data: U32, count: nat)
    requires count < 32 && data < Pow2(32 - count)
    ensures And(data, Pow2(31 - count)) == 0 <==> data < Pow2(31 - count)
    ensures 0 < data && data < Pow2(31 - count) ==> count < 31 && Pow2(31 - count) / 2 == Pow2(30 - count)
  {
    AndOneBit(data, 31 - count);
    BitOfTop(data, 31 - count);
  }

  lemma ClzOfZero()
    ensures Clz(0) == 32
  {
  }

  method CountLeadingZeros(data: U32) returns (count: nat)
    ensures count == Clz(data)
    ensures data == 0 <==> count == 32
    ensures data != 0 ==> Pow2(31 - count) <= data < Pow2(32 - count)
  {
    hide Pow2, And, Width, Clz;
    Pow2Values();
    if data == 0 {
      ClzOfZero();
      return 32;
    }
    count := 0;
    var mask := 0x8000_0000;
    ClzStep(data, 0);
    while And(data, mask) == 0
      invariant count <= 31 && mask == Pow2(31 - count) && data < Pow2(32 - count)
      decreases 31 - count
    {
      ClzStep(data, count);
      count := count + 1;
      mask := mask / 2;
    }
    ClzStep(data, count);
    ClzIff(data, count);
  }

  // The lowest set bit of v becomes the highest set bit of its reversal.
  lemma {:induction false} LowestSetBit(v: nat, n: nat) returns (t: nat)
    requires 0 < v < Pow2(n)
    ensures t < n && Pow2(n - 1 - t) <= Reverse(v, n) < Pow2(n - t)
    ensures v % Pow2(t) == 0 && Bit(v, t) == 1
  {
    ReverseBound(v / 2, n - 1);
    if v % 2 == 1 {
      t := 0;
    } else {
      t := LowestSetBit(v / 2, n - 1);
      t := t + 1;
      BitOfHalf(v, t - 1);
      ModDouble(v, Pow2(t - 1));
    }
  }

  /** Reversing first turns CLZ into a count of trailing zeros. */
  lemma ClzOfReverseCountsTrailingZeros(v: U32)
    requires 0 < v
    ensures 0 < Reverse(v, 32) < 0x1_0000_0000
    ensures var n := Clz(Reverse(v, 32)); n < 32 && v % Pow2(n) == 0 && Bit(v, n) == 1
  {
    Pow2Values();
    var t := LowestSetBit(v, 32);
    ReverseBound(v, 32);
    ClzIff(Reverse(v, 32), t);
  }
}
