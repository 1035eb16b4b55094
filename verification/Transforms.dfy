/** The Clarke and Park transforms and their inverses in Q31. */
module Transforms {
  import opened FixedPoint

  // `(q31_t) (((q63_t) x * y) >> 31)`
  function Product(x: Q31, y: Q31): Q31 { Wrap32(x * y / 0x8000_0000) }

  // The cast loses bits in one case only, (-1.0) * (-1.0).
  lemma ProductFitsIff(x: Q31, y: Q31)
    ensures Product(x, y) == x * y / 0x8000_0000 <==> !(x == -0x8000_0000 && y == -0x8000_0000)
  {
    if x == -0x8000_0000 && y == -0x8000_0000 {
    } else {
      if x == -0x8000_0000 { MulMono(0x8000_0000, -0x7FFF_FFFF, y, 0x7FFF_FFFF); }
      else if y == -0x8000_0000 { MulMono(0x8000_0000, -0x7FFF_FFFF, x, 0x7FFF_FFFF); }
      else { ProductBound(x, 0x7FFF_FFFF, y, 0x7FFF_FFFF); }
      Wrap32Id(x * y / 0x8000_0000);
    }
  }

  // The product as an integer: rounded down, and -1.0 for (-1.0) * (-1.0).
  function ExactProduct(x: Q31, y: Q31): int {
    if x == -0x8000_0000 && y == -0x8000_0000 then -0x8000_0000 else x * y / 0x8000_0000
  }

  lemma ProductIs(x: Q31, y: Q31)
    ensures Product(x, y) == ExactProduct(x, y)
  {
    ProductFitsIff(x, y);
  }

  // ---- Clarke ----

  // The two products of the forward transform before their casts: 1/sqrt(3) and 2/sqrt(3).
  function ClarkeA(Ia: Q31): int { Ia * 0x24F3_4E8B / 0x4000_0000 }
  function ClarkeB(Ib: Q31): int { Ib * 0x49E6_9D16 / 0x4000_0000 }

  function ClarkeBeta(Ia: Q31, Ib: Q31): Q31 { QAdd(Wrap32(ClarkeA(Ia)), Wrap32(ClarkeB(Ib))) }

  function InvClarkeB(Ialpha: Q31, Ibeta: Q31): Q31 {
    QSub(Wrap32(Ibeta * 0x6ED9_EBA1 / 0x8000_0000), Wrap32(Ialpha * 0x4000_0000 / 0x8000_0000))
  }

  method ArmClarkeQ31(Ia: Q31, Ib: Q31) returns (pIalpha: Q31, pIbeta: Q31)
    ensures pIalpha == Ia && pIbeta == ClarkeBeta(Ia, Ib)
    ensures ClarkeFits(Ib) ==> pIbeta == Sat31(ClarkeA(Ia) + ClarkeB(Ib))
    // for every input, with the second product's one possible wrap
    ensures pIbeta == Sat31(Ia * 0x24F3_4E8B / 0x4000_0000 + Ib * 0x49E6_9D16 / 0x4000_0000
      - if Ib > 0x6ED9_EBA1 then 0x1_0000_0000 else if Ib < -0x6ED9_EBA1 then -0x1_0000_0000 else 0)
  {
    hide QAdd, Wrap32;
    ClarkeBetaIs(Ia, Ib);
    pIalpha := Ia;
    var product1 := Wrap32(Ia * 0x24F3_4E8B / 0x4000_0000);
    var product2 := Wrap32(Ib * 0x49E6_9D16 / 0x4000_0000);
    pIbeta := QAdd(product1, product2);
  }

  method ArmInvClarkeQ31(Ialpha: Q31, Ibeta: Q31) returns (pIa: Q31, pIb: Q31)
    ensures pIa == Ialpha && pIb == InvClarkeB(Ialpha, Ibeta)
    ensures pIb == Sat31(Ibeta * 0x6ED9_EBA1 / 0x8000_0000 - Ialpha / 2)
  {
    hide QSub;
    InvClarkeIs(Ialpha, Ibeta);
    pIa := Ialpha;
    var product1 := Wrap32(Ialpha * 0x4000_0000 / 0x8000_0000);
    var product2 := Wrap32(Ibeta * 0x6ED9_EBA1 / 0x8000_0000);
    pIb := QSub(product2, product1);
  }

  // The largest |Ib| whose product with 2/sqrt(3) fits a q31: 2^31 * sqrt(3)/2, rounded down.
  predicate ClarkeFits(Ib: Q31) { -0x6ED9_EBA1 <= Ib <= 0x6ED9_EBA1 }

  lemma ClarkeFitsIff(Ib: Q31)
    ensures Wrap32(ClarkeB(Ib)) == ClarkeB(Ib) <==> ClarkeFits(Ib)
  {
  }

  lemma ClarkeBetaIs(Ia: Q31, Ib: Q31)
    ensures ClarkeFits(Ib) ==> ClarkeBeta(Ia, Ib) == Sat31(ClarkeA(Ia) + ClarkeB(Ib))
    ensures Ib > 0x6ED9_EBA1 ==> ClarkeBeta(Ia, Ib) == Sat31(ClarkeA(Ia) + ClarkeB(Ib) - 0x1_0000_0000)
    ensures Ib < -0x6ED9_EBA1 ==> ClarkeBeta(Ia, Ib) == Sat31(ClarkeA(Ia) + ClarkeB(Ib) + 0x1_0000_0000)
  {
    hide QAdd;
    QAddQSubSaturate(Wrap32(ClarkeA(Ia)), Wrap32(ClarkeB(Ib)));
    Wrap32Id(ClarkeA(Ia));
    ClarkeBWraps(Ib);
  }

  lemma ClarkeBWraps(Ib: Q31)
    ensures Wrap32(ClarkeB(Ib)) == ClarkeB(Ib)
      - if Ib > 0x6ED9_EBA1 then 0x1_0000_0000 else if Ib < -0x6ED9_EBA1 then -0x1_0000_0000 else 0
  {
  }

  lemma InvClarkeIs(Ialpha: Q31, Ibeta: Q31)
    ensures InvClarkeB(Ialpha, Ibeta) == Sat31(Ibeta * 0x6ED9_EBA1 / 0x8000_0000 - Ialpha / 2)
  {
    hide QSub;
    assert Ialpha * 0x4000_0000 / 0x8000_0000 == Ialpha / 2;
    Wrap32Id(Ialpha / 2);
    Wrap32Id(Ibeta * 0x6ED9_EBA1 / 0x8000_0000);
    QAddQSubSaturate(Wrap32(Ibeta * 0x6ED9_EBA1 / 0x8000_0000), Wrap32(Ialpha / 2));
  }

  // What saturating Ibeta cost.
  function ClarkeExcess(Ia: Q31, Ib: Q31): int {
    ClarkeA(Ia) + ClarkeB(Ib) - Sat31(ClarkeA(Ia) + ClarkeB(Ib))
  }

  /** While Ib * 2/sqrt(3) fits, inverse Clarke of Clarke returns Ib up to rounding plus
    * sqrt(3)/2 of whatever saturation removed. */
  lemma ClarkeRoundTripError(Ia: Q31, Ib: Q31)
    requires ClarkeFits(Ib)
    ensures var err := InvClarkeB(Ia, ClarkeBeta(Ia, Ib)) - Ib;
      -4 * 0x8000_0000 < 0x8000_0000 * err + 0x6ED9_EBA1 * ClarkeExcess(Ia, Ib) < 2 * 0x8000_0000
  {
    ClarkeBetaIs(Ia, Ib);
    InvClarkeIs(Ia, ClarkeBeta(Ia, Ib));
  }

  /** With no saturation the round trip is within [-3, 1] of Ib; Ia is returned unchanged. */
  lemma ClarkeRoundTrip(Ia: Q31, Ib: Q31)
    requires ClarkeFits(Ib) && -0x8000_0000 <= ClarkeA(Ia) + ClarkeB(Ib) < 0x8000_0000
    ensures -3 <= InvClarkeB(Ia, ClarkeBeta(Ia, Ib)) - Ib <= 1
  {
    ClarkeRoundTripError(Ia, Ib);
  }

  /** And the bound on Ib is exact: just past it the cast before __QADD wraps, and no value of
    * Ia brings the round trip back to within 2^31 of Ib. */
  lemma ClarkeWrapBreaks(Ia: Q31, Ib: Q31)
    requires !ClarkeFits(Ib)
    ensures var err := InvClarkeB(Ia, ClarkeBeta(Ia, Ib)) - Ib;
      err < -0x8000_0000 || 0x8000_0000 < err
  {
    ClarkeBetaIs(Ia, Ib);
    InvClarkeIs(Ia, ClarkeBeta(Ia, Ib));
  }

  // ---- Park ----

  function ParkD(Ialpha: Q31, Ibeta: Q31, sinVal: Q31, cosVal: Q31): Q31 {
    QAdd(Product(Ialpha, cosVal), Product(Ibeta, sinVal))
  }

  function ParkQ(Ialpha: Q31, Ibeta: Q31, sinVal: Q31, cosVal: Q31): Q31 {
    QSub(Product(Ibeta, cosVal), Product(Ialpha, sinVal))
  }

  function InvParkAlpha(Id: Q31, Iq: Q31, sinVal: Q31, cosVal: Q31): Q31 {
    QSub(Product(Id, cosVal), Product(Iq, sinVal))
  }

  function InvParkBeta(Id: Q31, Iq: Q31, sinVal: Q31, cosVal: Q31): Q31 {
    QAdd(Product(Iq, cosVal), Product(Id, sinVal))
  }

  // D is the exact rotated coordinate rounded down by less than two units, Q is within one
  // unit of it, and both stay inside full scale.
  predicate RotatedTo(x: Q31, y: Q31, s: Q31, c: Q31, D: Q31, Q: Q31) {
    && 0 <= x * c + y * s - 0x8000_0000 * D < 0x1_0000_0000
    && -0x8000_0000 < 0x8000_0000 * Q - (y * c - x * s) < 0x8000_0000
    && -0x7FFF_FFFA <= D <= 0x7FFF_FFFA && -0x7FFF_FFFA <= Q <= 0x7FFF_FFFA
  }

  // alpha within 3.25 units of x * N / 2^62, beta between 4.25 below and 2.25 above
  // y * N / 2^62, where N = sin^2 + cos^2.
  predicate RotatedBack(x: Q31, y: Q31, s: Q31, c: Q31, alpha: Q31, beta: Q31) {
    var N := s * s + c * c;
    && -0xD000_0000_0000_0000 < 0x4000_0000_0000_0000 * alpha - x * N < 0xD000_0000_0000_0000
    && -0x1_1000_0000_0000_0000 < 0x4000_0000_0000_0000 * beta - y * N <= 0x9000_0000_0000_0000
  }

  /** The saturating sum and difference of two products, for every input. */
  lemma SaturatedProducts(a: Q31, b: Q31, e: Q31, f: Q31)
    ensures QAdd(Product(a, b), Product(e, f)) == Sat31(ExactProduct(a, b) + ExactProduct(e, f))
    ensures QSub(Product(a, b), Product(e, f)) == Sat31(ExactProduct(a, b) - ExactProduct(e, f))
  {
    hide QAdd, QSub, Product, ExactProduct;
    ProductIs(a, b);
    ProductIs(e, f);
    QAddQSubSaturate(Product(a, b), Product(e, f));
  }

  method ArmParkQ31(Ialpha: Q31, Ibeta: Q31, sinVal: Q31, cosVal: Q31) returns (pId: Q31, pIq: Q31)
    ensures pId == ParkD(Ialpha, Ibeta, sinVal, cosVal)
    ensures pIq == ParkQ(Ialpha, Ibeta, sinVal, cosVal)
    ensures pId == Sat31(ExactProduct(Ialpha, cosVal) + ExactProduct(Ibeta, sinVal))
    ensures pIq == Sat31(ExactProduct(Ibeta, cosVal) - ExactProduct(Ialpha, sinVal))
    ensures ParkInput(Ialpha, Ibeta, sinVal, cosVal)
      ==> RotatedTo(Ialpha, Ibeta, sinVal, cosVal, pId, pIq)
  {
    hide QAdd, QSub, Product, ExactProduct, Sat31, ParkInput, RotatedTo;
    SaturatedProducts(Ialpha, cosVal, Ibeta, sinVal);
    SaturatedProducts(Ibeta, cosVal, Ialpha, sinVal);
    if ParkInput(Ialpha, Ibeta, sinVal, cosVal) { ParkForward(Ialpha, Ibeta, sinVal, cosVal); }
    var product1 := Product(Ialpha, cosVal);
    var product2 := Product(Ibeta, sinVal);
    var product3 := Product(Ialpha, sinVal);
    var product4 := Product(Ibeta, cosVal);
    pId := QAdd(product1, product2);
    pIq := QSub(product4, product3);
  }

  method ArmInvParkQ31(Id: Q31, Iq: Q31, sinVal: Q31, cosVal: Q31) returns (pIalpha: Q31, pIbeta: Q31)
    ensures pIalpha == InvParkAlpha(Id, Iq, sinVal, cosVal)
    ensures pIbeta == InvParkBeta(Id, Iq, sinVal, cosVal)
    ensures pIalpha == Sat31(ExactProduct(Id, cosVal) - ExactProduct(Iq, sinVal))
    ensures pIbeta == Sat31(ExactProduct(Iq, cosVal) + ExactProduct(Id, sinVal))
    // undoing any rotation of a current inside the circle
    ensures forall x: Q31, y: Q31 | ParkInput(x, y, sinVal, cosVal) && RotatedTo(x, y, sinVal, cosVal, Id, Iq) ::
      RotatedBack(x, y, sinVal, cosVal, pIalpha, pIbeta)
  {
    hide QAdd, QSub, Product, ExactProduct, Sat31, ParkInput, RotatedTo, RotatedBack;
    SaturatedProducts(Id, cosVal, Iq, sinVal);
    SaturatedProducts(Iq, cosVal, Id, sinVal);
    forall x: Q31, y: Q31 | ParkInput(x, y, sinVal, cosVal) && RotatedTo(x, y, sinVal, cosVal, Id, Iq)
      ensures RotatedBack(x, y, sinVal, cosVal, InvParkAlpha(Id, Iq, sinVal, cosVal),
                          InvParkBeta(Id, Iq, sinVal, cosVal))
    {
      ParkBackward(x, y, sinVal, cosVal, Id, Iq);
    }
    var product1 := Product(Id, cosVal);
    var product2 := Product(Iq, sinVal);
    var product3 := Product(Id, sinVal);
    var product4 := Product(Iq, cosVal);
    pIalpha := QSub(product1, product2);
    pIbeta := QAdd(product4, product3);
  }

  // (x, y) lies in the circle of radius r.
  predicate Within(x: int, y: int, r: int) { x * x + y * y <= r * r }

  // Lagrange's identity.
  lemma Lagrange(x: int, y: int, s: int, c: int)
    ensures (x * c + y * s) * (x * c + y * s) + (y * c - x * s) * (y * c - x * s)
         == (x * x + y * y) * (s * s + c * c)
  {
    var a, b, d, e := x * c, y * s, y * c, x * s;
    CrossTerms(x, y, s, c);
    SumsSquared(a, b, d, e);
    SquareOfProduct(x, c);
    SquareOfProduct(y, s);
    SquareOfProduct(y, c);
    SquareOfProduct(x, s);
    Expand(x * x, y * y, s * s, c * c);
  }

  lemma CrossTerms(x: int, y: int, s: int, c: int)
    ensures x * c * (y * s) == y * c * (x * s)
  {
  }

  lemma SumsSquared(a: int, b: int, d: int, e: int)
    requires a * b == d * e
    ensures (a + b) * (a + b) + (d - e) * (d - e) == a * a + b * b + d * d + e * e
  {
  }

  lemma SquareOfProduct(x: int, y: int)
    ensures x * y * (x * y) == x * x * (y * y)
  {
  }

  lemma Expand(a: int, b: int, s: int, c: int)
    ensures (a + b) * (s + c) == a * s + a * c + b * s + b * c
  {
  }

  /** Cauchy-Schwarz for a rotation: neither rotated coordinate leaves the circle. */
  lemma CauchySchwarz(x: int, y: int, s: int, c: int, r: int, u: int)
    requires 0 <= r && 0 <= u && Within(x, y, r) && Within(s, c, u)
    ensures -(r * u) <= x * c + y * s <= r * u
    ensures -(r * u) <= y * c - x * s <= r * u
  {
    var p, q := x * c + y * s, y * c - x * s;
    Lagrange(x, y, s, c);
    Squares(x * x + y * y, r * r, s * s + c * c, u * u, r, u);
    SquareNonNeg(p);
    SquareNonNeg(q);
    AbsFromSquares(p, r * u);
    AbsFromSquares(q, r * u);
  }

  lemma Squares(a: int, r2: int, b: int, u2: int, r: int, u: int)
    requires 0 <= a <= r2 && 0 <= b <= u2 && r2 == r * r && u2 == u * u && 0 <= r && 0 <= u
    ensures a * b <= (r * u) * (r * u) && 0 <= r * u
  {
    MulMono(b, 0, a, r2);
    MulMono(r2, 0, b, u2);
    assert (r * r) * (u * u) == (r * u) * (r * u);
  }

  // The current stays eight units inside full scale; sine and cosine are at most one.
  predicate ParkInput(x: Q31, y: Q31, s: Q31, c: Q31) {
    Within(x, y, 0x7FFF_FFF8) && Within(s, c, 0x8000_0000)
  }

  lemma WithinCoordinates(x: int, y: int, r: int)
    requires 0 <= r && Within(x, y, r)
    ensures -r <= x <= r && -r <= y <= r
  {
    SquareNonNeg(x);
    SquareNonNeg(y);
    AbsFromSquares(x, r);
    AbsFromSquares(y, r);
  }

  // Two in-range products added, or subtracted, with nothing saturating.
  lemma SumOfProducts(a: Q31, b: Q31, e: Q31, f: Q31)
    requires a != -0x8000_0000 && e != -0x8000_0000
    requires -0x7FFF_FFFB * 0x8000_0000 <= a * b + e * f <= 0x7FFF_FFFB * 0x8000_0000
    ensures 0 <= a * b + e * f - 0x8000_0000 * QAdd(Product(a, b), Product(e, f)) < 0x1_0000_0000
  {
    hide QAdd, Product;
    ProductFitsIff(a, b);
    ProductFitsIff(e, f);
    QAddQSubSaturate(Product(a, b), Product(e, f));
    FloorsAdd(a * b, e * f);
  }

  lemma DifferenceOfProducts(a: Q31, b: Q31, e: Q31, f: Q31)
    requires a != -0x8000_0000 && e != -0x8000_0000
    requires -0x7FFF_FFFB * 0x8000_0000 <= a * b - e * f <= 0x7FFF_FFFB * 0x8000_0000
    ensures -0x8000_0000 < 0x8000_0000 * QSub(Product(a, b), Product(e, f)) - (a * b - e * f) < 0x8000_0000
  {
    hide QSub, Product;
    ProductFitsIff(a, b);
    ProductFitsIff(e, f);
    QAddQSubSaturate(Product(a, b), Product(e, f));
    FloorsAdd(a * b, e * f);
  }

  lemma FloorsAdd(p: int, q: int)
    ensures 0 <= p + q - 0x8000_0000 * (p / 0x8000_0000 + q / 0x8000_0000) < 0x1_0000_0000
    ensures -0x8000_0000 < 0x8000_0000 * (p / 0x8000_0000 - q / 0x8000_0000) - (p - q) < 0x8000_0000
  {
  }

  /** Inside the circle the forward transform neither wraps nor saturates. */
  lemma ParkForward(x: Q31, y: Q31, s: Q31, c: Q31)
    requires ParkInput(x, y, s, c)
    ensures RotatedTo(x, y, s, c, ParkD(x, y, s, c), ParkQ(x, y, s, c))
  {
    hide QAdd, QSub, Product;
    WithinCoordinates(x, y, 0x7FFF_FFF8);
    CauchySchwarz(x, y, s, c, 0x7FFF_FFF8, 0x8000_0000);
    SumOfProducts(x, c, y, s);
    DifferenceOfProducts(y, c, x, s);
  }

  // Rotating back: the cross terms cancel and the rounding errors d, q are rotated along.
  lemma RotateBack(x: int, y: int, s: int, c: int, D: int, Q: int, d: int, q: int)
    requires 0x8000_0000 * D == x * c + y * s - d
    requires 0x8000_0000 * Q == y * c - x * s + q
    ensures 0x8000_0000 * (D * c - Q * s) == x * (s * s + c * c) - (d * c + q * s)
    ensures 0x8000_0000 * (Q * c + D * s) == y * (s * s + c * c) + (q * c - d * s)
  {
    var xc, ys, yc, xs := x * c, y * s, y * c, x * s;
    assert (xc + ys - d) * c == xc * c + ys * c - d * c;
    assert (xc + ys - d) * s == xc * s + ys * s - d * s;
    assert (yc - xs + q) * c == yc * c - xs * c + q * c;
    assert (yc - xs + q) * s == yc * s - xs * s + q * s;
    assert ys * c == yc * s && xc * s == xs * c;
    assert xc * c + xs * s == x * (s * s + c * c);
    assert yc * c + ys * s == y * (s * s + c * c);
  }

  // With |d| < 2, |q| < 1 (in units) the rotated error is below sqrt(5) < 9/4 units.
  lemma RotatedError(d: int, q: int, u: int, v: int)
    requires 0 <= d < 0x1_0000_0000 && -0x8000_0000 < q < 0x8000_0000
    requires Within(u, v, 0x8000_0000)
    ensures -0x9000_0000_0000_0000 <= d * u + q * v <= 0x9000_0000_0000_0000
    ensures -0x9000_0000_0000_0000 <= q * v - d * u <= 0x9000_0000_0000_0000
  {
    var a, b := if u < 0 then -u else u, if v < 0 then -v else v;
    FiveSquares(a, b);
    assert Within(a, b, 0x8000_0000) by { assert a * a == u * u && b * b == v * v; }
    AbsFromSquares(2 * a + b, 0x1_2000_0000);
    ProductBound(d, 0x1_0000_0000, u, a);
    ProductBound(q, 0x8000_0000, v, b);
  }

  lemma FiveSquares(a: int, b: int)
    ensures (2 * a + b) * (2 * a + b) <= 5 * (a * a + b * b)
  {
    SquareNonNeg(a - 2 * b);
    assert (a - 2 * b) * (a - 2 * b) == a * a - 4 * (a * b) + 4 * (b * b);
    assert (2 * a + b) * (2 * a + b) == 4 * (a * a) + 4 * (a * b) + b * b;
  }

  // x * N is at most the circle's radius, in units of 2^62.
  lemma ScaledCoordinate(x: int, N: int)
    requires -0x7FFF_FFF8 <= x <= 0x7FFF_FFF8 && 0 <= N <= 0x4000_0000_0000_0000
    ensures -0x7FFF_FFF8 * 0x4000_0000_0000_0000 <= x * N <= 0x7FFF_FFF8 * 0x4000_0000_0000_0000
  {
    ProductBound(x, 0x7FFF_FFF8, N, 0x4000_0000_0000_0000);
  }

  /** Inverse Park of Park, with nothing wrapping or saturating on the way, returns both
    * coordinates. */
  lemma ParkRoundTrip(x: Q31, y: Q31, s: Q31, c: Q31)
    requires ParkInput(x, y, s, c)
    ensures var D, Q := ParkD(x, y, s, c), ParkQ(x, y, s, c);
      RotatedBack(x, y, s, c, InvParkAlpha(D, Q, s, c), InvParkBeta(D, Q, s, c))
  {
    hide ParkInput, RotatedTo, RotatedBack;
    ParkForward(x, y, s, c);
    ParkBackward(x, y, s, c, ParkD(x, y, s, c), ParkQ(x, y, s, c));
  }

  // The inverse transform of any (D, Q) as close to the exact rotation as ParkForward says.
  lemma ParkBackward(x: Q31, y: Q31, s: Q31, c: Q31, D: Q31, Q: Q31)
    requires ParkInput(x, y, s, c) && RotatedTo(x, y, s, c, D, Q)
    ensures RotatedBack(x, y, s, c, InvParkAlpha(D, Q, s, c), InvParkBeta(D, Q, s, c))
  {
    hide QAdd, QSub, Product, InvParkAlpha, InvParkBeta;
    WithinCoordinates(x, y, 0x7FFF_FFF8);
    ErrorRotated(x, y, s, c, D, Q, x * c + y * s - 0x8000_0000 * D, 0x8000_0000 * Q - (y * c - x * s));
    var N: int := s * s + c * c;
    assert 0 <= N <= 0x4000_0000_0000_0000 by { SquareNonNeg(s); SquareNonNeg(c); }
    ScaledCoordinate(x, N);
    ScaledCoordinate(y, N);
    AlphaBack(D, Q, s, c, x * N);
    BetaBack(D, Q, s, c, y * N);
  }

  lemma AlphaBack(D: Q31, Q: Q31, s: Q31, c: Q31, target: int)
    requires D != -0x8000_0000 && Q != -0x8000_0000
    requires -0x7FFF_FFF8 * 0x4000_0000_0000_0000 <= target <= 0x7FFF_FFF8 * 0x4000_0000_0000_0000
    requires -0x9000_0000_0000_0000 <= 0x8000_0000 * (D * c - Q * s) - target <= 0x9000_0000_0000_0000
    ensures -0xD000_0000_0000_0000 < 0x4000_0000_0000_0000 * InvParkAlpha(D, Q, s, c) - target < 0xD000_0000_0000_0000
  {
    hide QSub, Product;
    DifferenceOfProducts(D, c, Q, s);
  }

  lemma BetaBack(D: Q31, Q: Q31, s: Q31, c: Q31, target: int)
    requires D != -0x8000_0000 && Q != -0x8000_0000
    requires -0x7FFF_FFF8 * 0x4000_0000_0000_0000 <= target <= 0x7FFF_FFF8 * 0x4000_0000_0000_0000
    requires -0x9000_0000_0000_0000 <= 0x8000_0000 * (Q * c + D * s) - target <= 0x9000_0000_0000_0000
    ensures -0x1_1000_0000_0000_0000 < 0x4000_0000_0000_0000 * InvParkBeta(D, Q, s, c) - target <= 0x9000_0000_0000_0000
  {
    hide QAdd, Product;
    SumOfProducts(Q, c, D, s);
  }

  lemma ErrorRotated(x: int, y: int, s: int, c: int, D: int, Q: int, d: int, q: int)
    requires 0x8000_0000 * D == x * c + y * s - d
    requires 0x8000_0000 * Q == y * c - x * s + q
    requires 0 <= d < 0x1_0000_0000 && -0x8000_0000 < q < 0x8000_0000
    requires Within(s, c, 0x8000_0000)
    ensures -0x9000_0000_0000_0000 <= 0x8000_0000 * (D * c - Q * s) - x * (s * s + c * c) <= 0x9000_0000_0000_0000
    ensures -0x9000_0000_0000_0000 <= 0x8000_0000 * (Q * c + D * s) - y * (s * s + c * c) <= 0x9000_0000_0000_0000
  {
    RotateBack(x, y, s, c, D, Q, d, q);
    RotatedError(d, q, c, s);
    RotatedError(d, q, s, c);
  }

  // How much of the two rounding errors this angle turns into beta: 2 |sin| where the sine
  // has the sign given, and |cos|.
  function Turned(s: int, c: int): int {
    (if s > 0 then 2 * s else 0) + (if c < 0 then -c else c)
  }

  lemma RotatedErrorByAngle(d: int, q: int, s: int, c: int)
    requires 0 <= d < 0x1_0000_0000 && -0x8000_0000 < q < 0x8000_0000
    ensures -0x8000_0000 * Turned(s, c) <= q * c - d * s <= 0x8000_0000 * Turned(-s, c)
  {
    var a := if c < 0 then -c else c;
    ProductBound(q, 0x8000_0000, c, a);
    if s > 0 { MulMono(s, 0, d, 0x1_0000_0000); } else { MulMono(-s, 0, d, 0x1_0000_0000); }
  }

  // The round trip's error of beta, in units of 2^-62.
  function BetaError(x: Q31, y: Q31, s: Q31, c: Q31): int {
    0x4000_0000_0000_0000 * InvParkBeta(ParkD(x, y, s, c), ParkQ(x, y, s, c), s, c) - y * (s * s + c * c)
  }

  predicate BetaErrorWithin(s: int, c: int, error: int) {
    -0x8000_0000 * (0x1_0000_0000 + Turned(s, c)) < error <= 0x8000_0000 * Turned(-s, c)
  }

  /** The error of beta, angle by angle: two units for the last rounding and what the angle
    * turns into it of the first one. */
  lemma BetaErrorByAngle(x: Q31, y: Q31, s: Q31, c: Q31)
    requires ParkInput(x, y, s, c)
    ensures BetaErrorWithin(s, c, BetaError(x, y, s, c))
  {
    hide BetaErrorWithin, ParkInput, ParkD, ParkQ, InvParkBeta, Turned;
    var D, Q := ParkD(x, y, s, c), ParkQ(x, y, s, c);
    ParkForward(x, y, s, c);
    BetaRounded(x, y, s, c, D, Q);
    ErrorsOfAngle(x, y, s, c, D, Q, InvParkBeta(D, Q, s, c));
  }

  lemma ErrorsOfAngle(x: int, y: int, s: int, c: int, D: int, Q: int, beta: int)
    requires 0 <= x * c + y * s - 0x8000_0000 * D < 0x1_0000_0000
    requires -0x8000_0000 < 0x8000_0000 * Q - (y * c - x * s) < 0x8000_0000
    requires 0 <= Q * c + D * s - 0x8000_0000 * beta < 0x1_0000_0000
    ensures BetaErrorWithin(s, c, 0x4000_0000_0000_0000 * beta - y * (s * s + c * c))
  {
    hide Turned;
    var d, q := x * c + y * s - 0x8000_0000 * D, 0x8000_0000 * Q - (y * c - x * s);
    RotateBack(x, y, s, c, D, Q, d, q);
    RotatedErrorByAngle(d, q, s, c);
    AddErrors(Q * c + D * s, beta, y * (s * s + c * c), q * c - d * s, Turned(s, c), Turned(-s, c));
  }

  lemma AddErrors(sum: int, beta: int, target: int, e: int, lo: int, hi: int)
    requires 0x8000_0000 * sum == target + e && -0x8000_0000 * lo <= e <= 0x8000_0000 * hi
    requires 0 <= sum - 0x8000_0000 * beta < 0x1_0000_0000
    ensures -0x8000_0000 * (0x1_0000_0000 + lo) < 0x4000_0000_0000_0000 * beta - target <= 0x8000_0000 * hi
  {
  }

  // The last rounding of beta, whose sum does not saturate.
  lemma BetaRounded(x: Q31, y: Q31, s: Q31, c: Q31, D: Q31, Q: Q31)
    requires ParkInput(x, y, s, c) && RotatedTo(x, y, s, c, D, Q)
    ensures 0 <= Q * c + D * s - 0x8000_0000 * InvParkBeta(D, Q, s, c) < 0x1_0000_0000
  {
    hide QAdd, Product;
    WithinCoordinates(x, y, 0x7FFF_FFF8);
    var d: int, q: int := x * c + y * s - 0x8000_0000 * D, 0x8000_0000 * Q - (y * c - x * s);
    ErrorRotated(x, y, s, c, D, Q, d, q);
    var N: int := s * s + c * c;
    assert 0 <= N <= 0x4000_0000_0000_0000 by { SquareNonNeg(s); SquareNonNeg(c); }
    ScaledCoordinate(y, N);
    SumOfProducts(Q, c, D, s);
  }

  /** Beta loses less than four units at every angle with 2 sin + |cos| at most 2. */
  lemma FourUnitsSuffice(x: Q31, y: Q31, s: Q31, c: Q31)
    requires ParkInput(x, y, s, c) && Turned(s, c) <= 0x1_0000_0000
    ensures -4 * 0x4000_0000_0000_0000 < BetaError(x, y, s, c)
  {
    hide ParkInput, BetaError, Turned;
    BetaErrorByAngle(x, y, s, c);
  }

  // At other angles four units are not always enough: this rotation loses 4.06.
  lemma FourUnitsAreNotEnough()
    ensures var x, y, s, c := 1384200830, 486894337, 1929045911, 943646058;
      && ParkInput(x, y, s, c) && 0x1_0000_0000 < Turned(s, c)
      && BetaError(x, y, s, c) < -4 * 0x4000_0000_0000_0000
  {
    hide QAdd, QSub;
    var x: Q31, y: Q31, s: Q31, c: Q31 := 1384200830, 486894337, 1929045911, 943646058;
    assert Product(x, c) == 608244750 && Product(y, s) == 437368419;
    assert Product(y, c) == 213950835 && Product(x, s) == 1243402693;
    QAddQSubSaturate(608244750, 437368419);
    QAddQSubSaturate(213950835, 1243402693);
    assert Product(-1029451858, c) == -452361158 && Product(1045613169, s) == 939255490;
    QAddQSubSaturate(-452361158, 939255490);
  }
}
