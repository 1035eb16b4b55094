/** Powers of two, single bits and bit-field arithmetic over natural numbers. */
module Bits {

  function Pow2(n: nat): (r: nat)
    ensures r > 0
  {
    if n == 0 then 1 else 2 * Pow2(n - 1)
  }

  lemma {:induction false} Pow2Add(m: nat, n: nat)
    ensures Pow2(m + n) == Pow2(m) * Pow2(n)
  {
    if m == 0 {
    } else {
      Pow2Add(m - 1, n);
      assert m - 1 + n == m + n - 1;
    }
  }

  lemma {:induction false} Pow2Mono(m: nat, n: nat)
    requires m <= n
    ensures Pow2(m) <= Pow2(n)
  {
    if m == n {
    } else {
      Pow2Mono(m, n - 1);
    }
  }

  lemma Pow2Values()
    ensures Pow2(7) == 0x80 && Pow2(8) == 0x100
    ensures Pow2(15) == 0x8000
    ensures Pow2(30) == 0x4000_0000 && Pow2(31) == 0x8000_0000 && Pow2(32) == 0x1_0000_0000
  {
    assert Pow2(8) == 0x100;
    assert Pow2(16) == 0x1_0000;
    assert Pow2(24) == 0x100_0000;
  }

  // Bit i of v.
  function Bit(v: nat, i: nat): (b: nat)
    ensures b <= 1
  {
    v / Pow2(i) % 2
  }

  function Quotient(v: nat, d: nat): (q: nat)
    requires 0 < d
    ensures q == v / d
  {
    v / d
  }

  function ShiftRight(v: nat, n: nat): nat { Quotient(v, Pow2(n)) }

  // Quotient and remainder are determined by their defining equation.
  lemma DivModUnique(x: int, d: int, q: int, r: int)
    requires 0 < d && x == q * d + r && 0 <= r < d
    ensures x / d == q && x % d == r
  {
    var q', r' := x / d, x % d;
    assert (q - q') * d == r' - r by { assert x == q' * d + r'; }
    assert (q' - q) * d == r - r';
    if q - q' >= 1 { MulAtLeast(q - q', d); }
    if q' - q >= 1 { MulAtLeast(q' - q, d); }
  }

  lemma ModSmall(a: int, P: int)
    requires 0 <= a < P
    ensures a % P == a
  {
    DivModUnique(a, P, 0, a);
  }

  lemma MulAtLeast(k: int, d: int)
    requires 1 <= k && 0 < d
    ensures k * d >= d
  {
  }

  // A number in mixed radix: r below a, then r' below b, then q'.
  lemma TwoDigits(q: int, r: int, q': int, r': int, a: int, b: int)
    requires 0 <= r < a && 0 <= r' < b && q == q' * b + r'
    ensures q * a + r == q' * (a * b) + (r' * a + r)
    ensures 0 <= r' * a + r < a * b
  {
    assert q * a == (q' * b) * a + r' * a;
    assert (q' * b) * a == q' * (a * b);
    assert (b - 1 - r') * a == a * b - a - r' * a;
    if r' < b - 1 { MulAtLeast(b - 1 - r', a); }
  }

  // Dropping n bits and then m bits drops m + n bits.
  lemma DivPow2Twice(v: nat, n: nat, m: nat)
    ensures v / Pow2(n) / Pow2(m) == v / Pow2(n + m)
  {
    Pow2Add(n, m);
    DivTwice(v, Pow2(n), Pow2(m));
  }

  lemma DivTwice(v: int, a: int, b: int)
    requires 0 < a && 0 < b
    ensures 0 < a * b && v / a / b == v / (a * b)
  {
    var q, r := v / a, v % a;
    var q', r' := q / b, q % b;
    TwoDigits(q, r, q', r', a, b);
    DivModUnique(v, a * b, q', r' * a + r);
  }

  // A number is its high part and its low part.
  lemma SplitAt(v: nat, n: nat)
    ensures v == v / Pow2(n) * Pow2(n) + v % Pow2(n) && v % Pow2(n) < Pow2(n)
  {
  }

  // Shifting left by s in a word of s + m bits keeps the low m bits.
  lemma ShiftLeftKeepsLow(x: nat, s: nat, m: nat)
    ensures x * Pow2(s) % Pow2(s + m) == x % Pow2(m) * Pow2(s)
  {
    Pow2Add(s, m);
    var a, b := Pow2(s), Pow2(m);
    TwoDigits(x, 0, x / b, x % b, a, b);
    DivModUnique(x * a, a * b, x / b, x % b * a);
  }

  lemma ModOfMod(r: nat, n: nat, m: nat)
    requires n <= m
    ensures r % Pow2(m) % Pow2(n) == r % Pow2(n)
  {
    Pow2Add(n, m - n);
    ModTwice(r, Pow2(n), Pow2(m - n));
  }

  lemma ModTwice(v: int, a: int, b: int)
    requires 0 < a && 0 < b
    ensures 0 < a * b && v % (a * b) % a == v % a
  {
    var q, r := v / a, v % a;
    var q', r' := q / b, q % b;
    TwoDigits(q, r, q', r', a, b);
    DivModUnique(v, a * b, q', r' * a + r);
    DivModUnique(r' * a + r, a, r', r);
  }

  // ---- Bitwise operators ----

  function And(a: nat, b: nat): nat {
    if a == 0 || b == 0 then 0
    else 2 * And(a / 2, b / 2) + (if a % 2 == 1 && b % 2 == 1 then 1 else 0)
  }

  function Or(a: nat, b: nat): nat
    decreases a + b
  {
    if a == 0 then b else if b == 0 then a
    else 2 * Or(a / 2, b / 2) + (if a % 2 == 1 || b % 2 == 1 then 1 else 0)
  }

  lemma ModDouble(v: int, p: int)
    requires 0 < p
    ensures v % (2 * p) == 2 * (v / 2 % p) + v % 2
  {
    var q, r := v / 2 / p, v / 2 % p;
    TwoDigits(v / 2, v % 2, q, r, 2, p);
    DivModUnique(v, 2 * p, q, r * 2 + v % 2);
  }

  // Bit i + 1 of v is bit i of v / 2.
  lemma BitOfHalf(v: nat, i: nat)
    ensures Bit(v, i + 1) == Bit(v / 2, i)
  {
    DivTwice(v, 2, Pow2(i));
  }

  // Masking with 2^k - 1 keeps the low k bits.
  lemma {:induction false} AndLowMask(v: nat, k: nat)
    ensures And(v, Pow2(k) - 1) == v % Pow2(k)
  {
    hide And;
    AndHalves(v, Pow2(k) - 1);
    if k == 0 {
      AndZero(v);
    } else {
      AndLowMask(v / 2, k - 1);
      ModDouble(v, Pow2(k - 1));
    }
  }

  lemma AndZero(v: nat)
    ensures And(v, 0) == 0 && And(0, v) == 0
  {
  }

  lemma AndHalves(a: nat, b: nat)
    ensures And(a, b) == 2 * And(a / 2, b / 2) + (if a % 2 == 1 && b % 2 == 1 then 1 else 0)
  {
  }

  // Bitwise and works on the high and the low parts separately.
  lemma {:induction false} AndParts(h: nat, l: nat, h': nat, l': nat, k: nat)
    requires l < Pow2(k) && l' < Pow2(k)
    ensures And(h * Pow2(k) + l, h' * Pow2(k) + l') == And(h, h') * Pow2(k) + And(l, l')
  {
    hide And;
    if k == 0 {
      AndHalves(0, 0);
    } else {
      var p := Pow2(k - 1);
      AndParts(h, l / 2, h', l' / 2, k - 1);
      Doubled(h, p);
      Doubled(h', p);
      Doubled(And(h, h'), p);
      AndHalvesOfSum(h * p, l, h' * p, l');
      AndHalves(l, l');
    }
  }

  lemma AndHalvesOfSum(a: nat, l: nat, b: nat, l': nat)
    ensures And(2 * a + l, 2 * b + l')
         == 2 * And(a + l / 2, b + l' / 2) + (if l % 2 == 1 && l' % 2 == 1 then 1 else 0)
  {
    AndHalves(2 * a + l, 2 * b + l');
  }

  // Masking with a power of two tests one bit.
  lemma {:induction false} AndOneBit(v: nat, k: nat)
    ensures And(v, Pow2(k)) == if Bit(v, k) == 1 then Pow2(k) else 0
  {
    if v == 0 {
      DivModUnique(0, Pow2(k), 0, 0);
    } else if k == 0 {
      assert And(v / 2, 0) == 0;
    } else {
      AndOneBit(v / 2, k - 1);
      BitOfHalf(v, k - 1);
    }
  }

  lemma OrHalves(a: nat, b: nat)
    ensures Or(a, b) == 2 * Or(a / 2, b / 2) + (if a % 2 == 1 || b % 2 == 1 then 1 else 0)
  {
    OrZero(a / 2);
    OrZero(b / 2);
  }

  lemma OrZero(v: nat)
    ensures Or(v, 0) == v && Or(0, v) == v
  {
  }

  lemma OrHalvesOfSum(a: nat, l: nat, b: nat, l': nat)
    ensures Or(2 * a + l, 2 * b + l')
         == 2 * Or(a + l / 2, b + l' / 2) + (if l % 2 == 1 || l' % 2 == 1 then 1 else 0)
  {
    OrHalves(2 * a + l, 2 * b + l');
  }

  // So does bitwise or.
  lemma {:induction false} OrParts(h: nat, l: nat, h': nat, l': nat, k: nat)
    requires l < Pow2(k) && l' < Pow2(k)
    ensures Or(h * Pow2(k) + l, h' * Pow2(k) + l') == Or(h, h') * Pow2(k) + Or(l, l')
  {
    hide Or;
    if k == 0 {
      OrZero(0);
    } else {
      var p := Pow2(k - 1);
      OrParts(h, l / 2, h', l' / 2, k - 1);
      Doubled(h, p);
      Doubled(h', p);
      Doubled(Or(h, h'), p);
      OrHalvesOfSum(h * p, l, h' * p, l');
      OrHalves(l, l');
    }
  }

  // Or-ing disjoint fields adds them.
  lemma OrFields(hi: nat, k: nat, lo: nat)
    requires lo < Pow2(k)
    ensures Or(hi * Pow2(k), lo) == hi * Pow2(k) + lo
  {
    hide Or;
    OrParts(hi, 0, 0, lo, k);
    OrZero(hi);
    OrZero(lo);
  }

  lemma Doubled(x: int, p: int)
    ensures x * (2 * p) == 2 * (x * p)
  {
  }

  // Shifting a value whose top bit is `top` left by s moves its top bit to top + s.
  lemma ShiftTopBit(v: nat, top: nat, s: nat)
    requires Pow2(top) <= v < Pow2(top + 1)
    ensures Pow2(top + s) <= v * Pow2(s) < Pow2(top + 1 + s)
  {
    Pow2Add(top, s);
    Pow2Add(top + 1, s);
    ScaleRange(Pow2(top), v, Pow2(top + 1), Pow2(s));
  }

  lemma ScaleRange(lo: int, v: int, hi: int, p: int)
    requires lo <= v < hi && 0 < p
    ensures lo * p <= v * p < hi * p
  {
  }
}
