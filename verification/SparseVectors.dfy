/** Cosine similarity of sparse vectors (crates/apollo-core/src/memory.rs, cosine_similarity). Floats are reals,
    the square root is a parameter, and a hash map is visited in an arbitrary order. */
module SparseVectors {

  // ---- sums over the keys of a map, in any order ----

  ghost function Sum(keys: set<string>, f: string -> real): real {
    if keys == {} then 0.0
    else
      var k :| k in keys;
      f(k) + Sum(keys - {k}, f)
  }

  /** The order of summation does not matter. */
  lemma {:induction false} SumSplit(keys: set<string>, f: string -> real, k: string)
    requires k in keys
    ensures Sum(keys, f) == f(k) + Sum(keys - {k}, f)
    decreases |keys|
  {
    var j :| j in keys && Sum(keys, f) == f(j) + Sum(keys - {j}, f);
    if j != k {
      SumSplit(keys - {j}, f, k);
      SumSplit(keys - {k}, f, j);
      assert keys - {j} - {k} == keys - {k} - {j};
    }
  }

  lemma {:induction false} SumBounds(keys: set<string>, f: string -> real)
    requires forall k :: k in keys ==> f(k) >= 0.0
    ensures Sum(keys, f) >= 0.0
    ensures Sum(keys, f) > 0.0 <==> exists k :: k in keys && f(k) > 0.0
    decreases |keys|
  {
    if k :| k in keys {
      SumSplit(keys, f, k);
      SumBounds(keys - {k}, f);
    }
  }

  // ---- Cauchy-Schwarz ----

  /** Multiplication by a name, so that proofs can leave it folded. */
  function Mul(x: real, y: real): real {
    x * y
  }

  function Times(f: string -> real, g: string -> real): string -> real {
    k => Mul(f(k), g(k))
  }

  lemma PositiveProduct(x: real, y: real)
    requires x > 0.0 && y > 0.0
    ensures x * y > 0.0
  {
  }

  lemma ScaledSign(m: real, x: real)
    requires m > 0.0 && x != 0.0
    ensures x > 0.0 ==> Mul(m, x) > 0.0
    ensures x < 0.0 ==> Mul(m, x) < 0.0
  {
  }

  lemma NegativeSquare(x: real)
    requires x < 0.0
    ensures Mul(x, x) > 0.0
  {
    var m := -x;
    ScaledSign(m, x);
    assert Mul(x, x) == -(m * x);
  }

  lemma ZeroProduct(x: real, y: real)
    ensures x == 0.0 ==> Mul(x, x) == 0.0 && Mul(x, y) == 0.0
    ensures y == 0.0 ==> Mul(y, y) == 0.0
  {
  }

  lemma SquareRootMono(q: real, p: real)
    requires q * q <= p * p && p >= 0.0
    ensures q <= p
  {
    if q > p { PositiveProduct(q - p, q + p); }
  }

  lemma MulMono(a: real, b: real, m: real)
    requires a <= b && m >= 0.0
    ensures a * m <= b * m
  {
  }

  lemma SquareSign(x: real)
    ensures Mul(x, x) >= 0.0 && (Mul(x, x) > 0.0 <==> x != 0.0)
  {
    if x == 0.0 { return; }
    hide Mul;
    if x > 0.0 { ScaledSign(x, x); } else { NegativeSquare(x); }
  }

  lemma MeanInequality(d: real, ab: real, w: real, u: real, v: real)
    requires d * d <= ab && u * v == ab * (w * w) && u >= 0.0 && v >= 0.0
    ensures 2.0 * (d * w) <= u + v
  {
    MulMono(d * d, ab, w * w);
    assert (2.0 * (d * w)) * (2.0 * (d * w)) == 4.0 * ((d * d) * (w * w));
    assert (u + v) * (u + v) - 4.0 * (u * v) == (u - v) * (u - v);
    assert (u - v) * (u - v) >= 0.0;
    SquareRootMono(2.0 * (d * w), u + v);
  }

  lemma CrossTerms(a: real, b: real, x: real, y: real)
    ensures (a * (y * y)) * (b * (x * x)) == (a * b) * ((x * y) * (x * y))
    ensures (x * x + a) * (y * y + b) == a * b + a * (y * y) + b * (x * x) + (x * y) * (x * y)
  {
  }

  lemma CauchySchwarzStep(d: real, a: real, b: real, x: real, y: real)
    requires a >= 0.0 && b >= 0.0 && Mul(d, d) <= Mul(a, b)
    ensures var d', a', b' := Mul(x, y) + d, Mul(x, x) + a, Mul(y, y) + b; Mul(d', d') <= Mul(a', b')
  {
    var w, u, v := x * y, a * (y * y), b * (x * x);
    CrossTerms(a, b, x, y);
    assert u >= 0.0 by { MulMono(0.0, a, y * y); }
    assert v >= 0.0 by { MulMono(0.0, b, x * x); }
    MeanInequality(d, a * b, w, u, v);
    assert Mul(w + d, w + d) == d * d + 2.0 * (d * w) + w * w;
    assert Mul(x * x + a, y * y + b) == a * b + u + v + w * w;
  }

  lemma SumOfSquares(keys: set<string>, f: string -> real)
    ensures Sum(keys, Times(f, f)) >= 0.0
  {
    hide Mul;
    forall j ensures Times(f, f)(j) >= 0.0 {
      SquareSign(f(j));
    }
    SumBounds(keys, Times(f, f));
  }

  lemma {:induction false} CauchySchwarz(keys: set<string>, f: string -> real, g: string -> real)
    ensures Mul(Sum(keys, Times(f, g)), Sum(keys, Times(f, g))) <= Mul(Sum(keys, Times(f, f)), Sum(keys, Times(g, g)))
    decreases |keys|
  {
    if k :| k in keys {
      hide Mul, Sum;
      var rest := keys - {k};
      SumSplit(keys, Times(f, g), k);
      SumSplit(keys, Times(f, f), k);
      SumSplit(keys, Times(g, g), k);
      CauchySchwarz(rest, f, g);
      SumOfSquares(rest, f);
      SumOfSquares(rest, g);
      CauchySchwarzStep(Sum(rest, Times(f, g)), Sum(rest, Times(f, f)), Sum(rest, Times(g, g)), f(k), g(k));
    }
  }

  // ---- cosine similarity ----

  type Vector = map<string, real>

  function At(v: Vector): string -> real {
    k => if k in v then v[k] else 0.0
  }

  ghost function Dot(a: Vector, b: Vector): real {
    Sum(a.Keys, Times(At(a), At(b)))
  }

  ghost function SquaredNorm(a: Vector): real {
    Sum(a.Keys, Times(At(a), At(a)))
  }

  ghost predicate IsSqrt(sqrt: real -> real) {
    forall x: real {:trigger HasRoot(sqrt, x)} :: HasRoot(sqrt, x)
  }

  ghost predicate HasRoot(sqrt: real -> real, x: real) {
    x >= 0.0 ==> sqrt(x) >= 0.0 && sqrt(x) * sqrt(x) == x
  }

  ghost function Cosine(a: Vector, b: Vector, sqrt: real -> real): real {
    if a == map[] || b == map[] then 0.0
    else Quotient(Dot(a, b), sqrt(SquaredNorm(a)), sqrt(SquaredNorm(b)))
  }

  function Quotient(dot: real, magA: real, magB: real): real {
    if magA == 0.0 || magB == 0.0 then 0.0 else dot / (magA * magB)
  }

  /** The three sums run over the maps in whatever order they are visited. */
  method CosineSimilarity(a: Vector, b: Vector, sqrt: real -> real) returns (score: real)
    ensures score == Cosine(a, b, sqrt)
  {
    if a == map[] || b == map[] { return 0.0; }
    hide Dot, SquaredNorm, Sum, Times;
    var dot := SumTerms(a, b);
    var normA := SumTerms(a, a);
    var normB := SumTerms(b, b);
    var magA, magB := sqrt(normA), sqrt(normB);
    hide Quotient;
    score := Quotient(dot, magA, magB);
  }

  lemma TermAt(a: Vector, b: Vector, k: string)
    requires k in a
    ensures Times(At(a), At(b))(k) == if k in b then a[k] * b[k] else 0.0
  {
  }

  method SumTerms(a: Vector, b: Vector) returns (sum: real)
    ensures sum == Dot(a, b)
  {
    sum := 0.0;
    var keys := a.Keys;
    ghost var f := Times(At(a), At(b));
    ghost var total := Sum(keys, f);
    while keys != {}
      invariant keys <= a.Keys && sum + Sum(keys, f) == total
      decreases |keys|
    {
      var k :| k in keys;
      SumSplit(keys, f, k);
      hide Sum, Mul;
      TermAt(a, b, k);
      if k in b { sum := sum + a[k] * b[k]; }
      keys := keys - {k};
    }
  }

  /** All components positive. */
  ghost predicate Positive(v: Vector) {
    forall k :: k in v ==> v[k] > 0.0
  }

  lemma DotBound(a: Vector, b: Vector)
    ensures Mul(Dot(a, b), Dot(a, b)) <= Mul(SquaredNorm(a), SquaredNorm(b))
    ensures SquaredNorm(a) >= 0.0 && SquaredNorm(b) >= 0.0
  {
    var f, g := At(a), At(b);
    var all := a.Keys + b.Keys;
    CauchySchwarz(all, f, g);
    hide Sum;
    forall k
      ensures (k !in a ==> Times(f, g)(k) == 0.0 && Times(f, f)(k) == 0.0) && (k !in b ==> Times(g, g)(k) == 0.0)
    {
      ZeroProduct(f(k), g(k));
    }
    hide Mul;
    SumOutside(a.Keys, all, Times(f, g));
    SumOutside(a.Keys, all, Times(f, f));
    SumOutside(b.Keys, all, Times(g, g));
    SumOfSquares(a.Keys, f);
    SumOfSquares(b.Keys, g);
  }

  lemma SquaresSum(v: Vector)
    ensures SquaredNorm(v) >= 0.0
    ensures SquaredNorm(v) > 0.0 <==> exists k :: k in v && v[k] != 0.0
  {
    var f := Times(At(v), At(v));
    forall k | k in v ensures f(k) >= 0.0 && (f(k) > 0.0 <==> v[k] != 0.0) {
      hide Mul;
      SquareSign(v[k]);
    }
    SumBounds(v.Keys, f);
  }

  /** Keys where a function vanishes contribute nothing. */
  lemma {:induction false} SumOutside(some: set<string>, keys: set<string>, f: string -> real)
    requires some <= keys && forall k :: k in keys - some ==> f(k) == 0.0
    ensures Sum(some, f) == Sum(keys, f)
    decreases |keys|
  {
    if k :| k in keys - some {
      SumSplit(keys, f, k);
      SumOutside(some, keys - {k}, f);
    } else {
      forall k | k in keys ensures k in some { assert k !in keys - some; }
      assert some == keys;
    }
  }

  lemma QuotientBound(d: real, ma: real, mb: real, na: real, nb: real)
    requires ma >= 0.0 && mb >= 0.0 && ma * ma == na && mb * mb == nb && Mul(d, d) <= Mul(na, nb)
    ensures -1.0 <= Quotient(d, ma, mb) <= 1.0
    ensures ma > 0.0 && mb > 0.0 ==> (d > 0.0 <==> Quotient(d, ma, mb) > 0.0)
    ensures d >= 0.0 ==> Quotient(d, ma, mb) >= 0.0
  {
    if ma > 0.0 && mb > 0.0 {
      var m := ma * mb;
      assert m > 0.0 && m * m == na * nb by { assert m * m == (ma * ma) * (mb * mb); }
      SquareRootMono(d, m);
      SquareRootMono(-d, m);
      QuotientSign(d, m);
    }
  }

  lemma QuotientSign(d: real, m: real)
    requires m > 0.0 && -m <= d <= m
    ensures -1.0 <= d / m <= 1.0 && (d > 0.0 <==> d / m > 0.0) && (d >= 0.0 <==> d / m >= 0.0)
  {
    assert d / m * m == d;
  }

  lemma RootsBound(a: Vector, b: Vector, sqrt: real -> real)
    requires IsSqrt(sqrt)
    ensures var ma, mb := sqrt(SquaredNorm(a)), sqrt(SquaredNorm(b));
            var q := Quotient(Dot(a, b), ma, mb);
            && -1.0 <= q <= 1.0 && (Dot(a, b) >= 0.0 ==> q >= 0.0)
            && (ma > 0.0 && mb > 0.0 ==> (Dot(a, b) > 0.0 <==> q > 0.0))
  {
    DotBound(a, b);
    var d, ma, mb, na, nb := Dot(a, b), sqrt(SquaredNorm(a)), sqrt(SquaredNorm(b)), SquaredNorm(a), SquaredNorm(b);
    assert HasRoot(sqrt, na) && HasRoot(sqrt, nb);
    assert ma >= 0.0 && mb >= 0.0 && ma * ma == na && mb * mb == nb;
    hide *;
    QuotientBound(d, ma, mb, na, nb);
  }

  /** Cauchy-Schwarz: any two vectors score between -1 and 1. */
  lemma CosineBounds(a: Vector, b: Vector, sqrt: real -> real)
    requires IsSqrt(sqrt)
    ensures -1.0 <= Cosine(a, b, sqrt) <= 1.0
  {
    hide Dot, SquaredNorm, Quotient, IsSqrt;
    RootsBound(a, b, sqrt);
  }

  /** The score times the two lengths is the dot product, which runs over the shared keys. */
  lemma CosineTimesLengths(a: Vector, b: Vector, sqrt: real -> real)
    requires IsSqrt(sqrt) && SquaredNorm(a) > 0.0 && SquaredNorm(b) > 0.0
    ensures Cosine(a, b, sqrt) * (sqrt(SquaredNorm(a)) * sqrt(SquaredNorm(b))) == Dot(a, b)
  {
    var ma, mb := sqrt(SquaredNorm(a)), sqrt(SquaredNorm(b));
    assert HasRoot(sqrt, SquaredNorm(a)) && HasRoot(sqrt, SquaredNorm(b));
    assert a != map[] && b != map[];
    hide Dot, SquaredNorm, IsSqrt;
    PositiveProduct(ma, mb);
    QuotientTimes(Dot(a, b), ma * mb);
  }

  lemma QuotientTimes(d: real, m: real)
    requires m > 0.0
    ensures d / m * m == d
  {
  }

  lemma DotOverSharedKeys(a: Vector, b: Vector)
    ensures Dot(a, b) == Sum(a.Keys * b.Keys, (k: string) => if k in a && k in b then a[k] * b[k] else 0.0)
  {
    var f, g := Times(At(a), At(b)), (k: string) => if k in a && k in b then a[k] * b[k] else 0.0;
    forall k | k in a ensures f(k) == g(k) { TermAt(a, b, k); }
    hide Times, Mul, Sum;
    SumOutside(a.Keys * b.Keys, a.Keys, f);
    SumSame(a.Keys * b.Keys, f, g);
  }

  lemma {:induction false} SumSame(keys: set<string>, f: string -> real, g: string -> real)
    requires forall k :: k in keys ==> f(k) == g(k)
    ensures Sum(keys, f) == Sum(keys, g)
    decreases |keys|
  {
    if k :| k in keys {
      SumSplit(keys, f, k);
      SumSplit(keys, g, k);
      SumSame(keys - {k}, f, g);
    }
  }

  lemma PositiveNorm(a: Vector, sqrt: real -> real)
    requires IsSqrt(sqrt) && Positive(a) && a != map[]
    ensures SquaredNorm(a) > 0.0 && sqrt(SquaredNorm(a)) > 0.0
  {
    var k :| k in a;
    SquaresSum(a);
    hide SquaredNorm;
    var m := sqrt(SquaredNorm(a));
    assert HasRoot(sqrt, SquaredNorm(a));
    assert m * m == SquaredNorm(a);
  }

  lemma PositiveDot(a: Vector, b: Vector)
    requires Positive(a) && Positive(b)
    ensures Dot(a, b) >= 0.0 && (Dot(a, b) > 0.0 <==> exists k :: k in a && k in b)
  {
    var f := Times(At(a), At(b));
    forall k | k in a ensures f(k) >= 0.0 && (f(k) > 0.0 <==> k in b) {
      TermAt(a, b, k);
      if k in b { PositiveProduct(a[k], b[k]); }
    }
    hide Mul, Times;
    SumBounds(a.Keys, f);
    if k :| k in a && k in b { assert f(k) > 0.0; }
  }

  /** With positive components the score lies in [0, 1] and is positive iff the vectors share a key. */
  lemma PositiveCosine(a: Vector, b: Vector, sqrt: real -> real)
    requires IsSqrt(sqrt) && Positive(a) && Positive(b)
    ensures 0.0 <= Cosine(a, b, sqrt) <= 1.0
    ensures Cosine(a, b, sqrt) > 0.0 <==> exists k :: k in a && k in b
  {
    if a != map[] && b != map[] {
      PositiveNorm(a, sqrt);
      PositiveNorm(b, sqrt);
      PositiveDot(a, b);
      hide Dot, SquaredNorm, Quotient, IsSqrt, Positive;
      RootsBound(a, b, sqrt);
    }
  }

  /** A non-empty positive vector scores 1 against itself. */
  lemma SelfCosine(a: Vector, sqrt: real -> real)
    requires IsSqrt(sqrt) && Positive(a) && a != map[]
    ensures Cosine(a, a, sqrt) == 1.0
  {
    PositiveNorm(a, sqrt);
    assert Dot(a, a) == SquaredNorm(a) && HasRoot(sqrt, SquaredNorm(a));
    hide Dot, SquaredNorm;
    SelfQuotient(SquaredNorm(a), sqrt(SquaredNorm(a)));
  }

  lemma SelfQuotient(n: real, m: real)
    requires m > 0.0 && m * m == n
    ensures n / (m * m) == 1.0
  {
    SquareSign(m);
    OneQuotient(n);
  }

  lemma OneQuotient(n: real)
    requires n > 0.0
    ensures n / n == 1.0
  {
  }
}
