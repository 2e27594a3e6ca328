/** The memory-leak detector: a bounded sample history and the least-squares slope over it
    (crates/apollo-core/src/health.rs). Sums of 64-bit floats are exact here. */
module Health {

  /** Last 60 samples. */
  const MAX_HISTORY: nat := 60

  // ---- sums over sample indices ----

  function SumX(n: nat): nat {
    if n == 0 then 0 else SumX(n - 1) + (n - 1)
  }

  function SumX2(n: nat): nat {
    if n == 0 then 0 else SumX2(n - 1) + (n - 1) * (n - 1)
  }

  function SumY(y: seq<int>): int {
    if y == [] then 0 else SumY(y[..|y| - 1]) + y[|y| - 1]
  }

  function SumXY(y: seq<int>): int {
    if y == [] then 0 else SumXY(y[..|y| - 1]) + (|y| - 1) * y[|y| - 1]
  }

  function Denominator(n: nat): int {
    n * SumX2(n) - SumX(n) * SumX(n)
  }

  function Numerator(y: seq<int>): int {
    |y| * SumXY(y) - SumX(|y|) * SumY(y)
  }

  /** compute_memory_trend: megabytes per minute at two samples a minute. */
  function MemoryTrend(y: seq<int>): real {
    if |y| < 3 then 0.0
    else if Denominator(|y|) == 0 then 0.0
    else (Numerator(y) as real / Denominator(|y|) as real) * 2.0
  }

  class HealthRecord {
    var memoryHistory: seq<int>
    var memoryTrend: real
    var peakMemory: int
    /** Every sample ever recorded. */
    ghost var all: seq<int>

    ghost predicate Valid()
      reads this
    {
      && memoryHistory == (if |all| <= MAX_HISTORY then all else all[|all| - MAX_HISTORY..])
      && memoryTrend == MemoryTrend(memoryHistory)
      && (forall k :: 0 <= k < |all| ==> all[k] <= peakMemory)
    }

    constructor ()
      ensures Valid() && all == []
    {
      memoryHistory, all, peakMemory := [], [], 0;
      memoryTrend := 0.0;
    }

    /** record_sample: push, drop the oldest beyond the cap, refit. */
    method RecordSample(memoryMb: nat)
      requires Valid()
      modifies this
      ensures Valid() && all == old(all) + [memoryMb]
      ensures memoryHistory == if |all| <= 60 then all else all[|all| - 60..]
      ensures peakMemory == if memoryMb > old(peakMemory) then memoryMb else old(peakMemory)
    {
      hide MemoryTrend, Numerator, Denominator;
      memoryHistory := memoryHistory + [memoryMb];
      if |memoryHistory| > MAX_HISTORY { memoryHistory := memoryHistory[1..]; }
      if memoryMb > peakMemory { peakMemory := memoryMb; }
      all := all + [memoryMb];
      memoryTrend := MemoryTrend(memoryHistory);
    }
  }

  // ---- the denominator ----

  lemma {:induction false} SumXClosed(n: nat)
    ensures 2 * SumX(n) == n * (n - 1)
  {
    if n > 0 { SumXClosed(n - 1); }
  }

  lemma {:induction false} SumX2Closed(n: nat)
    ensures 6 * SumX2(n) == n * (n - 1) * (2 * n - 1)
  {
    if n > 0 { SumX2Closed(n - 1); }
  }

  lemma DenominatorArithmetic(n: int, sx: int, sxx: int)
    requires 2 * sx == n * (n - 1) && 6 * sxx == n * (n - 1) * (2 * n - 1)
    ensures 12 * (n * sxx - sx * sx) == n * n * (n * n - 1)
  {
    assert 12 * (n * sxx) == 2 * n * (6 * sxx);
    assert 4 * (sx * sx) == (2 * sx) * (2 * sx);
  }

  lemma SquareAboveOne(n: int)
    requires n >= 2
    ensures n * n * (n * n - 1) > 0
  {
    assert n * n >= 4;
  }

  /** 12 (n S_xx - S_x^2) = n^2 (n^2 - 1), so from three samples on the zero guard is never taken. */
  lemma DenominatorClosed(n: nat)
    ensures 12 * Denominator(n) == n * n * (n * n - 1)
    ensures n >= 2 ==> Denominator(n) > 0
  {
    SumXClosed(n);
    SumX2Closed(n);
    DenominatorArithmetic(n, SumX(n), SumX2(n));
    if n >= 2 { SquareAboveOne(n); }
  }

  /** Up to two samples show no trend; from three on, LineTrend and TrendIsLeastSquares say what is shown. */
  lemma FewSamples(y: seq<int>)
    requires |y| <= 2
    ensures MemoryTrend(y) == 0.0
  {
  }

  // ---- the sign of the trend ----

  /** The sum of (k - i) (v - y[i]) over i < k, with k = |y|. */
  function Lift(y: seq<int>, k: nat, v: int): int {
    if y == [] then 0 else Lift(y[..|y| - 1], k, v) + (k - (|y| - 1)) * (v - y[|y| - 1])
  }

  lemma LiftArithmetic(m: int, k: int, v: int, w: int, sx: int, sy: int, sxy: int)
    ensures v * (k * m - sx) - k * sy + sxy + (k - m) * (v - w)
         == v * (k * (m + 1) - (sx + m)) - k * (sy + w) + (sxy + m * w)
  {
  }

  lemma {:induction false} LiftIs(y: seq<int>, k: nat, v: int)
    ensures Lift(y, k, v) == v * (k * |y| - SumX(|y|)) - k * SumY(y) + SumXY(y)
  {
    if y != [] {
      var m := |y| - 1;
      LiftIs(y[..m], k, v);
      LiftArithmetic(m, k, v, y[m], SumX(m), SumY(y[..m]), SumXY(y[..m]));
    }
  }

  lemma NumeratorArithmetic(m: int, v: int, sx: int, sy: int, sxy: int)
    ensures (m + 1) * (sxy + m * v) - (sx + m) * (sy + v)
         == (m * sxy - sx * sy) + (v * (m * m - sx) - m * sy + sxy)
  {
  }

  /** Each new sample adds its weighted height above the earlier ones. */
  lemma NumeratorStep(y: seq<int>)
    requires y != []
    ensures var m := |y| - 1; Numerator(y) == Numerator(y[..m]) + Lift(y[..m], m, y[m])
  {
    var m := |y| - 1;
    LiftIs(y[..m], m, y[m]);
    NumeratorArithmetic(m, y[m], SumX(m), SumY(y[..m]), SumXY(y[..m]));
  }

  lemma ProductSign(a: int, b: int)
    requires a >= 0
    ensures b >= 0 ==> a * b >= 0
    ensures b <= 0 ==> a * b <= 0
  {
  }

  lemma {:induction false} LiftSign(y: seq<int>, k: nat, v: int)
    requires |y| <= k
    ensures (forall i :: 0 <= i < |y| ==> y[i] <= v) ==> Lift(y, k, v) >= 0
    ensures (forall i :: 0 <= i < |y| ==> y[i] >= v) ==> Lift(y, k, v) <= 0
  {
    if y != [] {
      var m := |y| - 1;
      LiftSign(y[..m], k, v);
      ProductSign(k - m, v - y[m]);
    }
  }

  ghost predicate NonDecreasing(y: seq<int>) {
    forall i, j :: 0 <= i <= j < |y| ==> y[i] <= y[j]
  }

  ghost predicate NonIncreasing(y: seq<int>) {
    forall i, j :: 0 <= i <= j < |y| ==> y[i] >= y[j]
  }

  /** Chebyshev's sum inequality for the sample indices. */
  lemma {:induction false} NumeratorSign(y: seq<int>)
    ensures NonDecreasing(y) ==> Numerator(y) >= 0
    ensures NonIncreasing(y) ==> Numerator(y) <= 0
  {
    if y != [] {
      var m := |y| - 1;
      NumeratorSign(y[..m]);
      NumeratorStep(y);
      LiftSign(y[..m], m, y[m]);
    }
  }

  lemma TrendSign(num: int, den: int)
    requires den > 0
    ensures num >= 0 ==> (num as real / den as real) * 2.0 >= 0.0
    ensures num <= 0 ==> (num as real / den as real) * 2.0 <= 0.0
  {
  }

  /** Memory that never shrinks has a trend of at least 0, memory that never grows one of at most 0. */
  lemma MonotoneTrend(y: seq<int>)
    ensures NonDecreasing(y) ==> MemoryTrend(y) >= 0.0
    ensures NonIncreasing(y) ==> MemoryTrend(y) <= 0.0
  {
    hide NonDecreasing, NonIncreasing, Denominator, Numerator;
    if |y| >= 3 {
      DenominatorClosed(|y|);
      NumeratorSign(y);
      TrendSign(Numerator(y), Denominator(|y|));
    }
  }

  // ---- shifts, lines, and least squares ----

  function Line(a: int, b: int, n: nat): seq<int> {
    if n == 0 then [] else Line(a, b, n - 1) + [a + b * (n - 1)]
  }

  function Shift(y: seq<int>, c: int): (r: seq<int>)
    ensures |r| == |y|
  {
    if y == [] then [] else Shift(y[..|y| - 1], c) + [y[|y| - 1] + c]
  }

  lemma {:induction false} ShiftSums(y: seq<int>, c: int)
    ensures SumY(Shift(y, c)) == SumY(y) + c * |y|
    ensures SumXY(Shift(y, c)) == SumXY(y) + c * SumX(|y|)
  {
    if y != [] {
      var m := |y| - 1;
      ShiftSums(y[..m], c);
      var r := Shift(y, c);
      assert r[..m] == Shift(y[..m], c) && r[m] == y[m] + c;
      assert m * (y[m] + c) == m * y[m] + c * m;
      assert c * SumX(|y|) == c * SumX(m) + c * m;
    }
  }

  /** Adding the same amount to every sample leaves the trend as it is. */
  lemma TrendIgnoresOffset(y: seq<int>, c: int)
    ensures MemoryTrend(Shift(y, c)) == MemoryTrend(y)
  {
    ShiftSums(y, c);
    ShiftArithmetic(|y|, c, SumX(|y|), SumY(y), SumXY(y));
    assert Numerator(Shift(y, c)) == Numerator(y);
    hide Numerator, Denominator;
  }

  lemma ShiftArithmetic(n: int, c: int, sx: int, sy: int, sxy: int)
    ensures n * (sxy + c * sx) - sx * (sy + c * n) == n * sxy - sx * sy
  {
  }

  lemma LineArithmetic(a: int, b: int, m: int, sx: int, sxx: int)
    ensures a * m + b * sx + (a + b * m) == a * (m + 1) + b * (sx + m)
    ensures a * sx + b * sxx + m * (a + b * m) == a * (sx + m) + b * (sxx + m * m)
  {
  }

  lemma {:induction false} LineSums(a: int, b: int, n: nat)
    ensures |Line(a, b, n)| == n
    ensures SumY(Line(a, b, n)) == a * n + b * SumX(n)
    ensures SumXY(Line(a, b, n)) == a * SumX(n) + b * SumX2(n)
  {
    if n > 0 {
      var m := n - 1;
      LineSums(a, b, m);
      var y := Line(a, b, n);
      assert y[..m] == Line(a, b, m) && y[m] == a + b * m;
      LineArithmetic(a, b, m, SumX(m), SumX2(m));
    }
  }

  lemma SlopeArithmetic(a: int, b: int, n: int, sx: int, sxx: int)
    ensures n * (a * sx + b * sxx) - sx * (a * n + b * sx) == b * (n * sxx - sx * sx)
  {
  }

  /** A steady growth of b megabytes per sample is reported exactly, as 2 b per minute. */
  lemma LineTrend(a: int, b: int, n: nat)
    requires n >= 3
    ensures MemoryTrend(Line(a, b, n)) == (2 * b) as real
  {
    LineSums(a, b, n);
    SlopeArithmetic(a, b, n, SumX(n), SumX2(n));
    var d := Denominator(n);
    assert Numerator(Line(a, b, n)) == b * d;
    hide Numerator, Denominator, SumX, SumX2;
    DenominatorClosed(n);
    DivideOut(b, d);
  }

  lemma DivideOut(b: int, d: int)
    requires d != 0
    ensures ((b * d) as real / d as real) * 2.0 == (2 * b) as real
  {
    assert (b * d) as real == (b as real) * (d as real);
  }

  /** Squared distance of the point (x, y) from the line a + b x. */
  function Square(a: real, b: real, x: real, y: real): real {
    (y - (a + b * x)) * (y - (a + b * x))
  }

  /** Sum of squared distances of the samples from the line a + b i. */
  function SquaredError(y: seq<int>, a: real, b: real): real {
    if y == [] then 0.0
    else SquaredError(y[..|y| - 1], a, b) + Square(a, b, (|y| - 1) as real, y[|y| - 1] as real)
  }

  /** The sums of a fit over reals: count, indices, squared indices, samples, products, squared samples. */
  datatype Sums = Sums(n: real, sx: real, sxx: real, sy: real, sxy: real, syy: real)

  function WithPoint(s: Sums, x: real, y: real): Sums {
    Sums(s.n + 1.0, s.sx + x, s.sxx + x * x, s.sy + y, s.sxy + x * y, s.syy + y * y)
  }

  function SumsOf(y: seq<int>): Sums {
    if y == [] then Sums(0.0, 0.0, 0.0, 0.0, 0.0, 0.0)
    else WithPoint(SumsOf(y[..|y| - 1]), (|y| - 1) as real, y[|y| - 1] as real)
  }

  lemma {:induction false} SumsMatch(y: seq<int>)
    ensures var s := SumsOf(y);
            && s.n == |y| as real && s.sx == SumX(|y|) as real && s.sxx == SumX2(|y|) as real
            && s.sy == SumY(y) as real && s.sxy == SumXY(y) as real
  {
    if y != [] {
      var m := |y| - 1;
      SumsMatch(y[..m]);
      assert SumX(m + 1) == SumX(m) + m && SumX2(m + 1) == SumX2(m) + m * m;
      assert SumY(y) == SumY(y[..m]) + y[m] && SumXY(y) == SumXY(y[..m]) + m * y[m];
      assert SumsOf(y) == WithPoint(SumsOf(y[..m]), m as real, y[m] as real);
      hide SumX, SumX2, SumY, SumXY, SumsOf;
      IntProducts(m, y[m]);
    }
  }

  lemma IntProducts(m: int, v: int)
    ensures (m * m) as real == (m as real) * (m as real)
    ensures (m * v) as real == (m as real) * (v as real)
  {
  }

  /** The squared error of a line in terms of the sums. */
  function ErrorForm(s: Sums, a: real, b: real): real {
    s.syy + s.n * (a * a) + s.sxx * (b * b) + 2.0 * (s.sx * (a * b)) - 2.0 * (a * s.sy) - 2.0 * (b * s.sxy)
  }

  lemma ErrorTerm(s: Sums, a: real, b: real, x: real, y: real)
    ensures ErrorForm(WithPoint(s, x, y), a, b) == ErrorForm(s, a, b) + Square(a, b, x, y)
  {
  }

  lemma {:induction false} ErrorInSums(y: seq<int>, a: real, b: real)
    ensures SquaredError(y, a, b) == ErrorForm(SumsOf(y), a, b)
  {
    if y != [] {
      hide ErrorForm, WithPoint, Square;
      var m := |y| - 1;
      ErrorInSums(y[..m], a, b);
      ErrorTerm(SumsOf(y[..m]), a, b, m as real, y[m] as real);
    }
  }

  /** The normal equations of the fit, with a non-degenerate spread of indices. */
  ghost predicate Solves(s: Sums, a: real, b: real) {
    s.n > 0.0 && s.n * s.sxx - s.sx * s.sx >= 0.0 && s.n * a + s.sx * b == s.sy && s.sx * a + s.sxx * b == s.sxy
  }

  lemma ErrorMoves(s: Sums, a: real, b: real, p: real, q: real)
    ensures ErrorForm(s, a + p, b + q)
         == ErrorForm(s, a, b) + (s.n * (p * p) + s.sxx * (q * q) + 2.0 * (s.sx * (p * q)))
            + 2.0 * (p * (s.n * a + s.sx * b - s.sy)) + 2.0 * (q * (s.sx * a + s.sxx * b - s.sxy))
  {
  }

  lemma FormIsPositive(n: real, sx: real, sxx: real, p: real, q: real)
    requires n > 0.0 && n * sxx - sx * sx >= 0.0
    ensures n * (p * p) + sxx * (q * q) + 2.0 * (sx * (p * q)) >= 0.0
  {
    var form := n * (p * p) + sxx * (q * q) + 2.0 * (sx * (p * q));
    var u := n * p + sx * q;
    assert n * form == u * u + (n * sxx - sx * sx) * (q * q);
    assert u * u >= 0.0 && q * q >= 0.0;
    assert (n * sxx - sx * sx) * (q * q) >= 0.0;
  }

  /** A solution of the normal equations minimises the squared error. */
  lemma SolutionMinimises(s: Sums, a: real, b: real, a': real, b': real)
    requires Solves(s, a, b)
    ensures ErrorForm(s, a, b) <= ErrorForm(s, a', b')
  {
    var p, q := a' - a, b' - b;
    ErrorMoves(s, a, b, p, q);
    FormIsPositive(s.n, s.sx, s.sxx, p, q);
    hide ErrorForm;
    assert a + p == a' && b + q == b';
  }

  predicate NonDegenerate(s: Sums) {
    s.n > 0.0 && s.n * s.sxx - s.sx * s.sx > 0.0
  }

  function Slope(s: Sums): real
    requires NonDegenerate(s)
  {
    (s.n * s.sxy - s.sx * s.sy) / (s.n * s.sxx - s.sx * s.sx)
  }

  function Intercept(s: Sums, b: real): real
    requires NonDegenerate(s)
  {
    (s.sy - b * s.sx) / s.n
  }

  lemma SlopeSolves(s: Sums)
    requires NonDegenerate(s)
    ensures Solves(s, Intercept(s, Slope(s)), Slope(s))
  {
    var b, d := Slope(s), s.n * s.sxx - s.sx * s.sx;
    var a := Intercept(s, b);
    assert b * d == s.n * s.sxy - s.sx * s.sy;
    assert s.n * a == s.sy - b * s.sx;
    assert s.n * (s.sx * a + s.sxx * b) == s.sx * (s.n * a) + b * (s.n * s.sxx);
    assert s.n * (s.sx * a + s.sxx * b) == s.n * s.sxy;
    Cancel(s.n, s.sx * a + s.sxx * b, s.sxy);
  }

  lemma Cancel(n: real, x: real, y: real)
    requires n > 0.0 && n * x == n * y
    ensures x == y
  {
  }

  lemma IntFormsAsReals(n: int, sx: int, sxx: int, sy: int, sxy: int)
    ensures (n * sxx - sx * sx) as real == (n as real) * (sxx as real) - (sx as real) * (sx as real)
    ensures (n * sxy - sx * sy) as real == (n as real) * (sxy as real) - (sx as real) * (sy as real)
  {
    assert (n * sxx) as real == (n as real) * (sxx as real);
    assert (sx * sx) as real == (sx as real) * (sx as real);
    assert (n * sxy) as real == (n as real) * (sxy as real);
    assert (sx * sy) as real == (sx as real) * (sy as real);
  }

  lemma HalfTrend(y: seq<int>)
    requires |y| >= 3
    ensures Denominator(|y|) > 0 && MemoryTrend(y) / 2.0 == Numerator(y) as real / Denominator(|y|) as real
  {
    hide Numerator, Denominator;
    DenominatorClosed(|y|);
  }

  /** From three samples on the trend is twice the slope. */
  lemma TrendIsSlope(y: seq<int>)
    requires |y| >= 3
    ensures var s := SumsOf(y); NonDegenerate(s) && MemoryTrend(y) == 2.0 * Slope(s)
  {
    hide SumsOf, MemoryTrend, SumX, SumX2, SumY, SumXY, Slope;
    HalfTrend(y);
    IntFormsAsReals(|y|, SumX(|y|), SumX2(|y|), SumY(y), SumXY(y));
    SumsMatch(y);
    SlopeIs(SumsOf(y), Numerator(y) as real, Denominator(|y|) as real);
  }

  lemma SlopeIs(s: Sums, num: real, den: real)
    requires s.n * s.sxy - s.sx * s.sy == num && s.n * s.sxx - s.sx * s.sx == den && den > 0.0 && s.n > 0.0
    ensures NonDegenerate(s) && Slope(s) == num / den
  {
  }

  /** No line whatever is closer to the samples, in the sum of squares, than the one the trend is the slope of. */
  lemma TrendIsLeastSquares(y: seq<int>, a': real, b': real)
    requires |y| >= 3
    ensures NonDegenerate(SumsOf(y))
    ensures var b := MemoryTrend(y) / 2.0;
            SquaredError(y, Intercept(SumsOf(y), b), b) <= SquaredError(y, a', b')
  {
    TrendIsSlope(y);
    hide SumsOf, MemoryTrend, SquaredError, Slope, Intercept, ErrorForm, Solves, NonDegenerate;
    var s := SumsOf(y);
    var b := Slope(s);
    assert b == MemoryTrend(y) / 2.0;
    SlopeSolves(s);
    SolutionMinimises(s, Intercept(s, b), b, a', b');
    ErrorInSums(y, Intercept(s, b), b);
    ErrorInSums(y, a', b');
  }
}
