/** Bilinear interpolation (arm_bilinear_interp_q15 and _q7). */
module Bilinear {
  import opened FixedPoint
  import opened Interpolation

  // numRows and numCols are 16-bit fields of the instance.
  datatype Grid<+T> = Grid(data: seq<T>, numRows: nat, numCols: nat)

  predicate Outside<T>(S: Grid<T>, rI: int, cI: int) {
    rI < 0 || rI > S.numRows - 1 || cI < 0 || cI > S.numCols - 1
  }

  // First of the two corners on line cI.
  function Corner<T>(S: Grid<T>, rI: int, cI: int): int { rI + S.numCols * cI }

  // The four reads of the cell are inside the table.
  predicate CellInTable<T>(S: Grid<T>, rI: int, cI: int) {
    0 <= Corner(S, rI, cI) && Corner(S, rI, cI + 1) + 1 < |S.data|
  }

  // What the source demands of its caller, who must keep away from the last line and, on the
  // line before it, from the last cell: the boundary test does not.
  predicate Readable<T>(S: Grid<T>, X: Q31, Y: Q31) {
    Outside(S, Index(X), Index(Y)) || CellInTable(S, Index(X), Index(Y))
  }

  // What the boundary test is for: no cell it admits reads outside the table.
  ghost predicate TestKeepsInside<T>(S: Grid<T>) {
    forall rI, cI :: !Outside(S, rI, cI) ==> CellInTable(S, rI, cI)
  }

  /** In a table of numRows * numCols entries it does so if and only if numRows + numCols^2 is
    * below their number, or there is no cell. */
  lemma TestKeepsInsideIff<T>(S: Grid<T>)
    requires |S.data| == S.numRows * S.numCols
    ensures TestKeepsInside(S) <==>
      S.numRows == 0 || S.numCols == 0 || S.numRows + S.numCols * S.numCols < S.numRows * S.numCols
  {
    var m, n := S.numRows, S.numCols;
    if m == 0 || n == 0 {
    } else if m + n * n < m * n {
      forall rI, cI | !Outside(S, rI, cI) ensures CellInTable(S, rI, cI) {
        MulMono(n, 0, cI, n - 1);
        assert n * (n - 1) == n * n - n && n * (cI + 1) == n * cI + n;
      }
    } else {
      LastCellOutside(S);
    }
  }

  // The failing input: the last cell the test admits.
  lemma LastCellOutside<T>(S: Grid<T>)
    requires |S.data| == S.numRows * S.numCols && 0 < S.numRows && 0 < S.numCols
    requires S.numRows * S.numCols <= S.numRows + S.numCols * S.numCols
    ensures !Outside(S, S.numRows - 1, S.numCols - 1) && !CellInTable(S, S.numRows - 1, S.numCols - 1)
  {
    assert S.numCols * (S.numCols - 1 + 1) == S.numCols * S.numCols;
  }

  /** So a table at least as wide as it is long always has a cell that is read past the end. */
  lemma WideTableOverruns<T>(S: Grid<T>)
    requires |S.data| == S.numRows * S.numCols && 0 < S.numRows <= S.numCols
    ensures !Outside(S, S.numRows - 1, S.numCols - 1) && !CellInTable(S, S.numRows - 1, S.numCols - 1)
  {
    MulMono(S.numCols, S.numRows, S.numRows, S.numCols);
    LastCellOutside(S);
  }

  // A coordinate reaches 2048 indices of the dimension at most.
  function Reach(n: nat): nat { if n < 0x800 then n else 0x800 }

  /** The same of the coordinates themselves. */
  lemma InputsKeepInsideIff<T>(S: Grid<T>)
    requires |S.data| == S.numRows * S.numCols
    ensures (forall X: Q31, Y: Q31 :: Readable(S, X, Y)) <==>
      S.numRows == 0 || S.numCols == 0 || Reach(S.numRows) + S.numCols * Reach(S.numCols) < S.numRows * S.numCols
  {
    var n, i, j := S.numCols, Reach(S.numRows), Reach(S.numCols);
    if S.numRows == 0 || n == 0 {
    } else if i + n * j < S.numRows * n {
      forall X: Q31, Y: Q31 ensures Readable(S, X, Y) {
        var cI := Index(Y);
        if !Outside(S, Index(X), cI) {
          MulMono(n, 0, cI, j - 1);
          assert n * (j - 1) == n * j - n && n * (cI + 1) == n * cI + n;
        }
      }
    } else {
      var X: Q31, Y: Q31 := (i - 1) * 0x10_0000, (j - 1) * 0x10_0000;
      assert n * (j - 1 + 1) == n * j;
      assert !Readable(S, X, Y);
    }
  }

  // Of a square table: the cells the test admits that are inside.
  lemma CellInTableIff<T>(S: Grid<T>, rI: int, cI: int)
    requires |S.data| == S.numRows * S.numCols && S.numRows == S.numCols && !Outside(S, rI, cI)
    ensures CellInTable(S, rI, cI) <==> cI + 2 < S.numCols || (cI + 2 == S.numCols && rI + 1 < S.numCols)
  {
    var n := S.numCols;
    MulMono(n, 0, cI, cI);
    RoomAbove(n, rI, cI);
  }

  lemma RoomAbove(n: int, rI: int, cI: int)
    requires 0 <= rI < n && 0 <= cI < n
    ensures rI + n * (cI + 1) + 1 < n * n <==> cI + 2 < n || (cI + 2 == n && rI + 1 < n)
  {
    var left := n - 1 - cI;
    assert n * n - n * (cI + 1) == n * left;
    if 2 <= left { MulMono(n, 2, left, left); }
  }

  // The table element (x, y) is at x + y * numCols, so this is a cell of the table proper.
  predicate OnGrid<T>(S: Grid<T>, rI: int, cI: int) {
    0 <= rI && rI + 1 < S.numCols && 0 <= cI && cI + 1 < S.numRows
  }

  /** Every cell of the documented grid can be read: all its corners are inside the table. */
  lemma OnGridIsInside<T>(S: Grid<T>, rI: int, cI: int)
    requires |S.data| == S.numRows * S.numCols && OnGrid(S, rI, cI)
    ensures CellInTable(S, rI, cI)
  {
    var m, n := S.numRows, S.numCols;
    MulMono(n, 0, cI, m - 2);
    assert n * (m - 2) == m * n - 2 * n && n * (cI + 1) == n * cI + n;
  }

  /** No table is of a shape in which every admitted cell has its four corners where the
    * documentation places them: the test compares each index with the other dimension. */
  lemma TestNeverKeepsOnGrid<T>(S: Grid<T>)
    requires 0 < S.numRows && 0 < S.numCols
    ensures exists rI, cI :: !Outside(S, rI, cI) && !OnGrid(S, rI, cI)
  {
    assert !Outside(S, S.numRows - 1, S.numCols - 1) && !OnGrid(S, S.numRows - 1, S.numCols - 1);
  }

  /** And it turns some cells of the grid away, with result zero, if and only if the grid has
    * cells and one side of the table is longer than the other by more than one. */
  lemma TestTurnsAwayIff<T>(S: Grid<T>)
    ensures (exists rI, cI :: OnGrid(S, rI, cI) && Outside(S, rI, cI))
      <==> 2 <= S.numRows && 2 <= S.numCols && (S.numRows + 1 < S.numCols || S.numCols + 1 < S.numRows)
  {
    var m, n := S.numRows, S.numCols;
    if 2 <= m && m + 1 < n { assert OnGrid(S, n - 2, 0) && Outside(S, n - 2, 0); }
    if 2 <= n && n + 1 < m { assert OnGrid(S, 0, m - 2) && Outside(S, 0, m - 2); }
  }

  // ---- The weighted sums ----

  // The four products of the Q15 version: each is floored by a shift of 4 on the way.
  function SumQ15(x1: Q15, x2: Q15, y1: Q15, y2: Q15, xf: int, yf: int): Q63 {
    var acc := Wrap64(Wrap32(x1 * (0xF_FFFF - xf) / 16) * (0xF_FFFF - yf));
    var acc := Wrap64(acc + Wrap32(x2 * (0xF_FFFF - yf) / 16) * xf);
    var acc := Wrap64(acc + Wrap32(y1 * (0xF_FFFF - xf) / 16) * yf);
    Wrap64(acc + Wrap32(y2 * xf / 16) * yf)
  }

  function SumQ7(x1: Q7, x2: Q7, y1: Q7, y2: Q7, xf: int, yf: int): Q63 {
    var acc := Wrap64(Wrap32(x1 * (0xF_FFFF - xf)) * (0xF_FFFF - yf));
    var acc := Wrap64(acc + Wrap32(x2 * (0xF_FFFF - yf)) * xf);
    var acc := Wrap64(acc + Wrap32(y1 * (0xF_FFFF - xf)) * yf);
    Wrap64(acc + Wrap32(y2 * yf) * xf)
  }

  function BilinearQ15(S: Grid<Q15>, X: Q31, Y: Q31): Q15
    requires Readable(S, X, Y)
  {
    var rI, cI := Index(X), Index(Y);
    if Outside(S, rI, cI) then 0
    else
      ReadsInBounds(S, rI, cI);
      var i, j := Corner(S, rI, cI), Corner(S, rI, cI + 1);
      Wrap16(SumQ15(S.data[i], S.data[i + 1], S.data[j], S.data[j + 1], Fraction(X), Fraction(Y)) / 0x10_0000_0000)
  }

  function BilinearQ7(S: Grid<Q7>, X: Q31, Y: Q31): Q7
    requires Readable(S, X, Y)
  {
    var rI, cI := Index(X), Index(Y);
    if Outside(S, rI, cI) then 0
    else
      ReadsInBounds(S, rI, cI);
      var i, j := Corner(S, rI, cI), Corner(S, rI, cI + 1);
      Wrap8(SumQ7(S.data[i], S.data[i + 1], S.data[j], S.data[j + 1], Fraction(X), Fraction(Y)) / 0x100_0000_0000)
  }

  lemma ReadsInBounds<T>(S: Grid<T>, rI: int, cI: int)
    requires CellInTable(S, rI, cI)
    ensures 0 <= Corner(S, rI, cI) <= Corner(S, rI, cI + 1) < |S.data| - 1
  {
    assert S.numCols * (cI + 1) == S.numCols * cI + S.numCols;
  }

  // ---- Against the nested two-step form ----

  // One-dimensional interpolation without its final shift.
  function Line(a: int, b: int, f: int): int { a * (0xF_FFFF - f) + b * f }

  // Interpolate along x on both lines, then between the lines.
  function Nested(x1: int, x2: int, y1: int, y2: int, xf: int, yf: int): int {
    Line(Line(x1, x2, xf), Line(y1, y2, xf), yf)
  }

  lemma LineInHull(a: int, b: int, lo: int, hi: int, f: int)
    requires 0 <= f <= 0xF_FFFF && lo <= a <= hi && lo <= b <= hi
    ensures 0xF_FFFF * lo <= Line(a, b, f) <= 0xF_FFFF * hi
  {
    MulMono(0xF_FFFF - f, lo, a, hi);
    MulMono(f, lo, b, hi);
    SumOfWeights(lo, f);
    SumOfWeights(hi, f);
  }

  lemma NestedInHull(x1: int, x2: int, y1: int, y2: int, lo: int, hi: int, xf: int, yf: int)
    requires 0 <= xf <= 0xF_FFFF && 0 <= yf <= 0xF_FFFF
    requires lo <= x1 <= hi && lo <= x2 <= hi && lo <= y1 <= hi && lo <= y2 <= hi
    ensures 0xFF_FFE0_0001 * lo <= Nested(x1, x2, y1, y2, xf, yf) <= 0xFF_FFE0_0001 * hi
  {
    LineInHull(x1, x2, lo, hi, xf);
    LineInHull(y1, y2, lo, hi, xf);
    LineInHull(Line(x1, x2, xf), Line(y1, y2, xf), 0xF_FFFF * lo, 0xF_FFFF * hi, yf);
  }

  // The nested form multiplied out into the four products of the code.
  lemma NestedExpanded(x1: int, x2: int, y1: int, y2: int, xf: int, yf: int)
    ensures var g, h := 0xF_FFFF - xf, 0xF_FFFF - yf;
      Nested(x1, x2, y1, y2, xf, yf) == x1 * g * h + x2 * h * xf + y1 * g * yf + y2 * xf * yf
  {
    var g, h := 0xF_FFFF - xf, 0xF_FFFF - yf;
    assert (x1 * g + x2 * xf) * h == x1 * g * h + x2 * h * xf by { assert x2 * xf * h == x2 * h * xf; }
    assert (y1 * g + y2 * xf) * yf == y1 * g * yf + y2 * xf * yf;
  }

  // Two weights of 20 bits keep a byte in range of every cast.
  lemma TermQ7(v: Q7, w: int, u: int)
    requires 0 <= w <= 0xF_FFFF && 0 <= u <= 0xF_FFFF
    ensures Wrap32(v * w) * u == v * w * u
    ensures -0x8000_0000_0000 <= v * w * u <= 0x8000_0000_0000
  {
    ProductBound(v, 0x80, w, 0xF_FFFF);
    Wrap32Id(v * w);
    ProductBound(v * w, 0x7FF_FF80, u, 0xF_FFFF);
  }

  // Dropping four bits of the first product costs at most 15 of its 16ths.
  lemma TermQ15(v: Q15, w: int, u: int)
    requires 0 <= w <= 0xF_FFFF && 0 <= u <= 0xF_FFFF
    ensures v * w * u - 15 * u <= 16 * (Wrap32(v * w / 16) * u) <= v * w * u
    ensures -0x8_0000_0000_0000 <= Wrap32(v * w / 16) * u <= 0x8_0000_0000_0000
  {
    ProductBound(v, 0x8000, w, 0xF_FFFF);
    var p := v * w;
    var t := p / 16;
    Wrap32Id(t);
    MulMono(u, p - 15, 16 * t, p);
    assert u * (16 * t) == 16 * (t * u) && u * (p - 15) == p * u - 15 * u && u * p == p * u;
    ProductBound(t, 0x8000_0000, u, 0xF_FFFF);
  }

  lemma SumOfFour(a: int, b: int, c: int, d: int)
    requires -0x1000_0000_0000_0000 <= a <= 0x1000_0000_0000_0000
    requires -0x1000_0000_0000_0000 <= b <= 0x1000_0000_0000_0000
    requires -0x1000_0000_0000_0000 <= c <= 0x1000_0000_0000_0000
    requires -0x1000_0000_0000_0000 <= d <= 0x1000_0000_0000_0000
    ensures Wrap64(Wrap64(Wrap64(Wrap64(a) + b) + c) + d) == a + b + c + d
  {
    Wrap64Id(a);
    Wrap64Id(a + b);
    Wrap64Id(a + b + c);
    Wrap64Id(a + b + c + d);
  }

  /** In Q7 the four products are the nested form exactly. */
  lemma SumQ7IsNested(x1: Q7, x2: Q7, y1: Q7, y2: Q7, xf: int, yf: int)
    requires 0 <= xf <= 0xF_FFFF && 0 <= yf <= 0xF_FFFF
    ensures SumQ7(x1, x2, y1, y2, xf, yf) == Nested(x1, x2, y1, y2, xf, yf)
  {
    hide Wrap64, Wrap32, Nested;
    var g, h := 0xF_FFFF - xf, 0xF_FFFF - yf;
    TermQ7(x1, g, h);
    TermQ7(x2, h, xf);
    TermQ7(y1, g, yf);
    TermQ7(y2, yf, xf);
    NestedExpanded(x1, x2, y1, y2, xf, yf);
    FactorsSwap(y2, yf, xf);
    var a, b := Wrap32(x1 * g) * h, Wrap32(x2 * h) * xf;
    var c, d := Wrap32(y1 * g) * yf, Wrap32(y2 * yf) * xf;
    SumOfFour(a, b, c, d);
  }

  lemma FactorsSwap(v: int, a: int, b: int)
    ensures v * a * b == v * b * a
  {
  }

  /** In Q15 sixteen times the sum is the nested form less at most 45 * 2^20. */
  lemma SumQ15NearNested(x1: Q15, x2: Q15, y1: Q15, y2: Q15, xf: int, yf: int)
    requires 0 <= xf <= 0xF_FFFF && 0 <= yf <= 0xF_FFFF
    ensures 0 <= Nested(x1, x2, y1, y2, xf, yf) - 16 * SumQ15(x1, x2, y1, y2, xf, yf) <= 45 * 0x10_0000
  {
    hide Wrap64, Wrap32, Nested;
    var g, h := 0xF_FFFF - xf, 0xF_FFFF - yf;
    TermQ15(x1, g, h);
    TermQ15(x2, h, xf);
    TermQ15(y1, g, yf);
    TermQ15(y2, xf, yf);
    NestedExpanded(x1, x2, y1, y2, xf, yf);
    var a, b := Wrap32(x1 * g / 16) * h, Wrap32(x2 * h / 16) * xf;
    var c, d := Wrap32(y1 * g / 16) * yf, Wrap32(y2 * xf / 16) * yf;
    SumOfFour(a, b, c, d);
    AddTerms(x1 * g * h, x2 * h * xf, y1 * g * yf, y2 * xf * yf, a, b, c, d, h, xf, yf, yf);
  }

  lemma AddTerms(p1: int, p2: int, p3: int, p4: int, a: int, b: int, c: int, d: int, u1: int, u2: int, u3: int, u4: int)
    requires p1 - 15 * u1 <= 16 * a <= p1 && p2 - 15 * u2 <= 16 * b <= p2
    requires p3 - 15 * u3 <= 16 * c <= p3 && p4 - 15 * u4 <= 16 * d <= p4
    requires u1 + u2 + u3 + u4 <= 3 * 0xF_FFFF
    ensures 0 <= p1 + p2 + p3 + p4 - 16 * (a + b + c + d) <= 45 * 0x10_0000
  {
  }

  // ---- The results ----

  // The nested form on the cell (X, Y) falls in.
  function ExactCell(S: Grid<int>, X: Q31, Y: Q31): int
    requires CellInTable(S, Index(X), Index(Y))
  {
    ReadsInBounds(S, Index(X), Index(Y));
    var i, j := Corner(S, Index(X), Index(Y)), Corner(S, Index(X), Index(Y) + 1);
    Nested(S.data[i], S.data[i + 1], S.data[j], S.data[j + 1], Fraction(X), Fraction(Y))
  }

  ghost predicate CellBetween(S: Grid<int>, X: Q31, Y: Q31, lo: int, hi: int)
    requires CellInTable(S, Index(X), Index(Y))
  {
    ReadsInBounds(S, Index(X), Index(Y));
    var i, j := Corner(S, Index(X), Index(Y)), Corner(S, Index(X), Index(Y) + 1);
    lo <= S.data[i] <= hi && lo <= S.data[i + 1] <= hi && lo <= S.data[j] <= hi && lo <= S.data[j + 1] <= hi
  }

  // The final shift, of a sum that near to a value N in the hull of lo and hi.
  lemma ShiftedQ15(N: int, sum: int, lo: int, hi: int)
    requires 0 <= N - 16 * sum <= 45 * 0x10_0000
    requires -0x8000 <= lo <= hi < 0x8000 && 0xFF_FFE0_0001 * lo <= N <= 0xFF_FFE0_0001 * hi
    ensures var r := sum / 0x10_0000_0000;
      && Wrap16(r) == r && lo - 1 <= r <= hi
      && r * 0x100_0000_0000 <= N < (r + 1) * 0x100_0000_0000 + 45 * 0x10_0000
  {
  }

  /** No cast overflows; the result is the exact nested value in units of 2^40, rounded down
    * and then at most 45 * 2^20 of 2^40 lower, so it lies in the hull of its four corners
    * extended by one below. */
  lemma BilinearQ15Correct(S: Grid<Q15>, X: Q31, Y: Q31, lo: int, hi: int)
    requires !Outside(S, Index(X), Index(Y)) && CellInTable(S, Index(X), Index(Y))
    requires -0x8000 <= lo <= hi < 0x8000 && CellBetween(S, X, Y, lo, hi)
    ensures var r := BilinearQ15(S, X, Y);
      && r * 0x100_0000_0000 <= ExactCell(S, X, Y) < (r + 1) * 0x100_0000_0000 + 45 * 0x10_0000
      && lo - 1 <= r <= hi
  {
    hide SumQ15, Nested;
    ReadsInBounds(S, Index(X), Index(Y));
    var i, j := Corner(S, Index(X), Index(Y)), Corner(S, Index(X), Index(Y) + 1);
    var x1, x2, y1, y2, xf, yf := S.data[i], S.data[i + 1], S.data[j], S.data[j + 1], Fraction(X), Fraction(Y);
    SumQ15NearNested(x1, x2, y1, y2, xf, yf);
    NestedInHull(x1, x2, y1, y2, lo, hi, xf, yf);
    ShiftedQ15(Nested(x1, x2, y1, y2, xf, yf), SumQ15(x1, x2, y1, y2, xf, yf), lo, hi);
  }

  /** The Q7 result is the exact nested value rounded down. */
  lemma BilinearQ7Correct(S: Grid<Q7>, X: Q31, Y: Q31, lo: int, hi: int)
    requires !Outside(S, Index(X), Index(Y)) && CellInTable(S, Index(X), Index(Y))
    requires -0x80 <= lo <= hi < 0x80 && CellBetween(S, X, Y, lo, hi)
    ensures var r := BilinearQ7(S, X, Y);
      && r == ExactCell(S, X, Y) / 0x100_0000_0000
      && lo - 1 <= r <= hi
  {
    hide SumQ7, Nested;
    ReadsInBounds(S, Index(X), Index(Y));
    var i, j := Corner(S, Index(X), Index(Y)), Corner(S, Index(X), Index(Y) + 1);
    var x1, x2, y1, y2, xf, yf := S.data[i], S.data[i + 1], S.data[j], S.data[j + 1], Fraction(X), Fraction(Y);
    SumQ7IsNested(x1, x2, y1, y2, xf, yf);
    NestedInHull(x1, x2, y1, y2, lo, hi, xf, yf);
    NestedInHull(x1, x2, y1, y2, -0x80, 0x7F, xf, yf);
  }

  // ---- Value by value ----

  /** Outside the boundary the result is zero, without a read. */
  lemma OutsideIsZero(S: Grid<Q15>, S': Grid<Q7>, X: Q31, Y: Q31)
    ensures X < 0 || S.numRows * 0x10_0000 <= X || Y < 0 || S.numCols * 0x10_0000 <= Y
      ==> Readable(S, X, Y) && BilinearQ15(S, X, Y) == 0
    ensures X < 0 || S'.numRows * 0x10_0000 <= X || Y < 0 || S'.numCols * 0x10_0000 <= Y
      ==> Readable(S', X, Y) && BilinearQ7(S', X, Y) == 0
  {
    hide CellInTable;
  }

  // (X, Y) is (xf, yf) 2^-20ths into the cell (i, j) and that is inside the boundary and the
  // table. The table element (i, j) is at i + numCols * j.
  predicate PointIn<T>(S: Grid<T>, X: Q31, Y: Q31, i: int, j: int, xf: int, yf: int) {
    && PointAt(X, i, xf) && PointAt(Y, j, yf)
    && 0 <= i < S.numRows && 0 <= j < S.numCols
    && i + S.numCols * (j + 1) + 1 < |S.data|
  }

  lemma PointInIs<T>(S: Grid<T>, X: Q31, Y: Q31, i: int, j: int, xf: int, yf: int)
    requires PointIn(S, X, Y, i, j, xf, yf)
    ensures Index(X) == i && Fraction(X) == xf && Index(Y) == j && Fraction(Y) == yf
    ensures !Outside(S, i, j) && CellInTable(S, i, j) && Readable(S, X, Y)
    ensures Corner(S, i, j) == i + S.numCols * j && Corner(S, i, j + 1) == i + S.numCols * (j + 1)
    ensures 0 <= i + S.numCols * j <= i + S.numCols * (j + 1)
  {
    PointAtIs(X, i, xf);
    PointAtIs(Y, j, yf);
    hide Index, Fraction;
    MulMono(S.numCols, 0, j, j + 1);
  }

  /** In Q15 the result is one floor of the sum of four products, each floored once on the way;
    * no cast changes it. */
  lemma BilinearQ15Exact(S: Grid<Q15>, X: Q31, Y: Q31, i: int, j: int, xf: int, yf: int)
    requires PointIn(S, X, Y, i, j, xf, yf)
    ensures Readable(S, X, Y)
    ensures 0 <= i + S.numCols * j <= i + S.numCols * (j + 1)
    ensures var k, l, g, h := i + S.numCols * j, i + S.numCols * (j + 1), 0xF_FFFF - xf, 0xF_FFFF - yf;
      BilinearQ15(S, X, Y) ==
        (S.data[k] * g / 16 * h + S.data[k + 1] * h / 16 * xf
         + S.data[l] * g / 16 * yf + S.data[l + 1] * xf / 16 * yf) / 0x10_0000_0000
  {
    hide BilinearQ15, SumQ15, PointIn, Readable, Wrap16;
    BilinearQ15Reads(S, X, Y, i, j, xf, yf);
    var k, l := i + S.numCols * j, i + S.numCols * (j + 1);
    SumQ15Exact(S.data[k], S.data[k + 1], S.data[l], S.data[l + 1], xf, yf);
  }

  lemma BilinearQ15Reads(S: Grid<Q15>, X: Q31, Y: Q31, i: int, j: int, xf: int, yf: int)
    requires PointIn(S, X, Y, i, j, xf, yf)
    ensures 0 <= xf <= 0xF_FFFF && 0 <= yf <= 0xF_FFFF && Readable(S, X, Y)
    ensures 0 <= i + S.numCols * j <= i + S.numCols * (j + 1) < |S.data| - 1
    ensures var k, l := i + S.numCols * j, i + S.numCols * (j + 1);
      BilinearQ15(S, X, Y)
        == Wrap16(SumQ15(S.data[k], S.data[k + 1], S.data[l], S.data[l + 1], xf, yf) / 0x10_0000_0000)
  {
    hide SumQ15, Wrap16, Outside, CellInTable, Corner, Index, Fraction;
    PointInIs(S, X, Y, i, j, xf, yf);
  }

  lemma SumQ15Exact(x1: Q15, x2: Q15, y1: Q15, y2: Q15, xf: int, yf: int)
    requires 0 <= xf <= 0xF_FFFF && 0 <= yf <= 0xF_FFFF
    ensures var g, h := 0xF_FFFF - xf, 0xF_FFFF - yf;
      && SumQ15(x1, x2, y1, y2, xf, yf) == x1 * g / 16 * h + x2 * h / 16 * xf + y1 * g / 16 * yf + y2 * xf / 16 * yf
      && Wrap16(SumQ15(x1, x2, y1, y2, xf, yf) / 0x10_0000_0000) == SumQ15(x1, x2, y1, y2, xf, yf) / 0x10_0000_0000
  {
    SumQ15Unwrapped(x1, x2, y1, y2, xf, yf);
    hide SumQ15, Wrap16, Nested;
    SumQ15NearNested(x1, x2, y1, y2, xf, yf);
    NestedInHull(x1, x2, y1, y2, -0x8000, 0x7FFF, xf, yf);
    ShiftedQ15(Nested(x1, x2, y1, y2, xf, yf), SumQ15(x1, x2, y1, y2, xf, yf), -0x8000, 0x7FFF);
  }

  lemma SumQ15Unwrapped(x1: Q15, x2: Q15, y1: Q15, y2: Q15, xf: int, yf: int)
    requires 0 <= xf <= 0xF_FFFF && 0 <= yf <= 0xF_FFFF
    ensures var g, h := 0xF_FFFF - xf, 0xF_FFFF - yf;
      SumQ15(x1, x2, y1, y2, xf, yf) == x1 * g / 16 * h + x2 * h / 16 * xf + y1 * g / 16 * yf + y2 * xf / 16 * yf
  {
    hide Wrap64, Wrap32;
    var g, h := 0xF_FFFF - xf, 0xF_FFFF - yf;
    FlooredTerm(x1, g, h);
    FlooredTerm(x2, h, xf);
    FlooredTerm(y1, g, yf);
    FlooredTerm(y2, xf, yf);
    var a, b := Wrap32(x1 * g / 16) * h, Wrap32(x2 * h / 16) * xf;
    var c, d := Wrap32(y1 * g / 16) * yf, Wrap32(y2 * xf / 16) * yf;
    SumOfFour(a, b, c, d);
  }

  lemma FlooredTerm(v: Q15, w: int, u: int)
    requires 0 <= w <= 0xF_FFFF && 0 <= u <= 0xF_FFFF
    ensures Wrap32(v * w / 16) * u == v * w / 16 * u
    ensures -0x8_0000_0000_0000 <= Wrap32(v * w / 16) * u <= 0x8_0000_0000_0000
  {
    hide Wrap32;
    FloorFits(v, w);
    TermQ15(v, w, u);
  }

  lemma FloorFits(v: Q15, w: int)
    requires 0 <= w <= 0xF_FFFF
    ensures Wrap32(v * w / 16) == v * w / 16
  {
    ProductBound(v, 0x8000, w, 0xF_FFFF);
    Wrap32Id(v * w / 16);
  }

  /** In Q7 it is one floor of the nested interpolation, written out. */
  lemma BilinearQ7Exact(S: Grid<Q7>, X: Q31, Y: Q31, i: int, j: int, xf: int, yf: int)
    requires PointIn(S, X, Y, i, j, xf, yf)
    ensures Readable(S, X, Y)
    ensures 0 <= i + S.numCols * j <= i + S.numCols * (j + 1)
    ensures var k, l, g, h := i + S.numCols * j, i + S.numCols * (j + 1), 0xF_FFFF - xf, 0xF_FFFF - yf;
      BilinearQ7(S, X, Y) ==
        ((S.data[k] * g + S.data[k + 1] * xf) * h + (S.data[l] * g + S.data[l + 1] * xf) * yf) / 0x100_0000_0000
  {
    hide BilinearQ7, SumQ7, PointIn, Readable, Wrap8;
    BilinearQ7Reads(S, X, Y, i, j, xf, yf);
    var k, l := i + S.numCols * j, i + S.numCols * (j + 1);
    SumQ7Exact(S.data[k], S.data[k + 1], S.data[l], S.data[l + 1], xf, yf);
  }

  lemma BilinearQ7Reads(S: Grid<Q7>, X: Q31, Y: Q31, i: int, j: int, xf: int, yf: int)
    requires PointIn(S, X, Y, i, j, xf, yf)
    ensures 0 <= xf <= 0xF_FFFF && 0 <= yf <= 0xF_FFFF && Readable(S, X, Y)
    ensures 0 <= i + S.numCols * j <= i + S.numCols * (j + 1) < |S.data| - 1
    ensures var k, l := i + S.numCols * j, i + S.numCols * (j + 1);
      BilinearQ7(S, X, Y)
        == Wrap8(SumQ7(S.data[k], S.data[k + 1], S.data[l], S.data[l + 1], xf, yf) / 0x100_0000_0000)
  {
    hide SumQ7, Wrap8, Outside, CellInTable, Corner, Index, Fraction;
    PointInIs(S, X, Y, i, j, xf, yf);
  }

  lemma SumQ7Exact(x1: Q7, x2: Q7, y1: Q7, y2: Q7, xf: int, yf: int)
    requires 0 <= xf <= 0xF_FFFF && 0 <= yf <= 0xF_FFFF
    ensures var g, h := 0xF_FFFF - xf, 0xF_FFFF - yf;
      Wrap8(SumQ7(x1, x2, y1, y2, xf, yf) / 0x100_0000_0000)
        == ((x1 * g + x2 * xf) * h + (y1 * g + y2 * xf) * yf) / 0x100_0000_0000
  {
    hide SumQ7, Nested;
    SumQ7IsNested(x1, x2, y1, y2, xf, yf);
    NestedInHull(x1, x2, y1, y2, -0x80, 0x7F, xf, yf);
    NestedWritten(x1, x2, y1, y2, xf, yf);
  }

  lemma NestedWritten(x1: int, x2: int, y1: int, y2: int, xf: int, yf: int)
    ensures Nested(x1, x2, y1, y2, xf, yf)
      == (x1 * (0xF_FFFF - xf) + x2 * xf) * (0xF_FFFF - yf) + (y1 * (0xF_FFFF - xf) + y2 * xf) * yf
  {
  }
}
