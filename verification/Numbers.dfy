/** Greatest common divisors and divisibility. */
module Numbers {
  import opened Bits

  function Gcd(a: nat, b: nat): nat
    decreases b
  {
    if b == 0 then a else Gcd(b, a % b)
  }

  // g is a combination of a and b, and both are multiples of it.
  predicate BezoutFor(a: nat, b: nat, g: nat, u: int, v: int, x: nat, y: nat) {
    0 < g && u * a + v * b == g && a == x * g && b == y * g
  }

  lemma {:induction false} Bezout(a: nat, b: nat) returns (u: int, v: int, x: nat, y: nat)
    requires 0 < a || 0 < b
    ensures BezoutFor(a, b, Gcd(a, b), u, v, x, y)
    decreases b
  {
    if b == 0 {
      u, v, x, y := 1, 0, 1, 0;
    } else {
      var u', v', x', y' := Bezout(b, a % b);
      u, v, x, y := BezoutStep(a, b, Gcd(b, a % b), u', v', x', y');
    }
  }

  lemma BezoutStep(a: nat, b: nat, g: nat, u: int, v: int, x: nat, y: nat)
    returns (u': int, v': int, x': nat, y': nat)
    requires 0 < b && BezoutFor(b, a % b, g, u, v, x, y)
    ensures BezoutFor(a, b, g, u', v', x', y')
  {
    var q, r := a / b, a % b;
    u', v', x', y' := v, u - v * q, q * x + y, x;
    BezoutAlgebra(a, b, q, r, g, u, v, x, y);
  }

  lemma BezoutAlgebra(a: int, b: int, q: int, r: int, g: int, u: int, v: int, x: int, y: int)
    requires a == q * b + r && u * b + v * r == g && b == x * g && r == y * g
    ensures v * a + (u - v * q) * b == g && a == (q * x + y) * g
  {
    assert v * (q * b + r) == v * q * b + v * r;
    assert (u - v * q) * b == u * b - v * q * b;
    assert (q * x + y) * g == q * (x * g) + y * g;
  }

  lemma GcdDivides(a: nat, b: nat)
    requires 0 < a || 0 < b
    ensures 0 < Gcd(a, b)
    ensures b == b / Gcd(a, b) * Gcd(a, b) && (0 < b ==> 0 < b / Gcd(a, b))
  {
    var u, v, x, y := Bezout(a, b);
    DivModUnique(b, Gcd(a, b), y, 0);
    if y == 0 { assert b == 0; }
  }

  lemma MulLess(a: int, b: int, d: int)
    requires 0 < d
    ensures a <= b <==> a * d <= b * d
  {
  }

  /** L divides k * inc exactly when L / gcd(inc, L) divides k. */
  lemma MultipleIff(k: nat, inc: nat, L: nat)
    requires 0 < L
    ensures 0 < Gcd(inc, L) && 0 < L / Gcd(inc, L)
    ensures k * inc % L == 0 <==> k % (L / Gcd(inc, L)) == 0
  {
    var u, v, i, l := Bezout(inc, L);
    var g := Gcd(inc, L);
    DivModUnique(L, g, l, 0);
    Cancel(u, v, i, l, g);
    if k * inc % L == 0 { MultipleForward(k, i, l, g, u, v); }
    if k % l == 0 { MultipleBack(k, i, l, g); }
  }

  lemma MultipleForward(k: nat, i: nat, l: nat, g: nat, u: int, v: int)
    requires 0 < g && 0 < l && 0 < l * g && u * i + v * l == 1 && k * (i * g) % (l * g) == 0
    ensures k % l == 0
  {
    var c := k * (i * g) / (l * g);
    assert k * (i * g) == c * (l * g);
    CancelProducts(k, i, c, l, g);
    Divides(k, i, l, u, v, c);
    DivModUnique(k, l, u * c + v * k, 0);
  }

  lemma MultipleBack(k: nat, i: nat, l: nat, g: nat)
    requires 0 < g && 0 < l && 0 < l * g && k % l == 0
    ensures k * (i * g) % (l * g) == 0
  {
    var q := k / l;
    assert k == q * l;
    assert q * l * (i * g) == q * i * (l * g);
    DivModUnique(k * (i * g), l * g, q * i, 0);
  }

  lemma Cancel(u: int, v: int, i: int, l: int, g: int)
    requires 0 < g && u * (i * g) + v * (l * g) == g
    ensures u * i + v * l == 1
  {
    assert (u * i + v * l) * g == 1 * g;
    MulLess(u * i + v * l, 1, g);
    MulLess(1, u * i + v * l, g);
  }

  lemma CancelProducts(k: int, i: int, c: int, l: int, g: int)
    requires 0 < g && k * (i * g) == c * (l * g)
    ensures k * i == c * l
  {
    assert k * i * g == c * l * g;
    MulLess(k * i, c * l, g);
    MulLess(c * l, k * i, g);
  }

  lemma Divides(k: int, i: int, l: int, u: int, v: int, c: int)
    requires u * i + v * l == 1 && k * i == c * l
    ensures k == (u * c + v * k) * l
  {
    assert k * (u * i + v * l) == u * (k * i) + v * k * l;
    assert u * (c * l) == u * c * l;
  }

  lemma ModEqualIff(a: int, b: int, L: int)
    requires 0 < L
    ensures a % L == b % L <==> (b - a) % L == 0
  {
    var qa, qb, q := a / L, b / L, (b - a) / L;
    if a % L == b % L {
      assert (qb - qa) * L == qb * L - qa * L;
      DivModUnique(b - a, L, qb - qa, 0);
    }
    if (b - a) % L == 0 {
      assert b == a + q * L;
      assert (qa + q) * L == qa * L + q * L;
      DivModUnique(b, L, qa + q, a % L);
    }
  }
}
