/** TF-IDF scores of an agent's memory entries (crates/apollo-core/src/memory.rs). The natural logarithm and the square
    root are parameters of which only the stated facts are used; entries come with the tokens of their searchable
    text; the clock is an argument. */
module MemoryScores {

  import opened Options
  import opened SparseVectors

  /** A stored entry; its key is the key it is stored under. */
  datatype Entry = Entry(tags: seq<string>, tokens: seq<string>, createdAt: nat, ttl: Option<nat>)

  datatype Query = Query(tokens: seq<string>, tags: seq<string>, limit: nat, minScore: real)

  type Store = map<string, Entry>

  /** The two analytic functions the scores are made of. */
  datatype Analysis = Analysis(ln: real -> real, sqrt: real -> real)

  /** ln ascends strictly, ln(1) = 0, and ln(1/2) > -1. */
  ghost predicate IsLn(ln: real -> real) {
    ln(0.5) > -1.0 && ln(1.0) == 0.0 && forall x: real, y: real {:trigger Ascends(ln, x, y)} :: Ascends(ln, x, y)
  }

  ghost predicate Ascends(ln: real -> real, x: real, y: real) {
    0.0 < x < y ==> ln(x) < ln(y)
  }

  ghost predicate Genuine(fns: Analysis) {
    IsLn(fns.ln) && IsSqrt(fns.sqrt)
  }

  predicate IsExpired(e: Entry, now: nat) {
    e.ttl.Some? && now >= e.createdAt + e.ttl.value
  }

  function LiveEntries(store: Store, now: nat): Store {
    map k | k in store && !IsExpired(store[k], now) :: store[k]
  }

  /** An entry is live until its creation time plus its ttl, and without one for ever. */
  lemma LiveUntil(store: Store, now: nat, key: string)
    ensures key in LiveEntries(store, now) <==>
      key in store && (store[key].ttl == None || now < store[key].createdAt + store[key].ttl.value)
    ensures key in LiveEntries(store, now) ==> LiveEntries(store, now)[key] == store[key]
  {
  }

  // ---- inverse document frequency ----

  ghost function DocsWith(store: Store, token: string): set<string> {
    set k | k in store && token in store[k].tokens
  }

  function Ratio(size: nat, df: nat): real {
    (if size == 0 then 1 else size) as real / (1 + df) as real
  }

  ghost function Idf(store: Store, token: string, ln: real -> real): real {
    ln(Ratio(|store|, |DocsWith(store, token)|)) + 1.0
  }

  ghost function IdfOf(tokens: seq<string>, store: Store, ln: real -> real): Vector {
    map t | t in tokens :: Idf(store, t, ln)
  }

  /** No token is in more documents than there are, so the argument of ln is at least 1/2. */
  lemma RatioBound(size: nat, df: nat)
    requires df <= size
    ensures Ratio(size, df) >= 0.5
  {
    var n, d := (if size == 0 then 1 else size) as real, (1 + df) as real;
    assert d <= 2.0 * n;
    MulMono(0.5 * d, n, 1.0 / d);
    assert d * (1.0 / d) == 1.0;
  }

  lemma DocsWithin(store: Store, token: string)
    ensures |DocsWith(store, token)| <= |store|
  {
    assert DocsWith(store, token) <= store.Keys;
    SubsetSize(DocsWith(store, token), store.Keys);
    assert |store.Keys| == |store|;
  }

  lemma {:induction false} SubsetSize<T>(a: set<T>, b: set<T>)
    requires a <= b
    ensures |a| <= |b|
    decreases |a|
  {
    if x :| x in a { SubsetSize(a - {x}, b - {x}); }
  }

  /** Every query token weighs something. */
  lemma IdfIsPositive(tokens: seq<string>, store: Store, ln: real -> real)
    requires IsLn(ln)
    ensures Positive(IdfOf(tokens, store, ln))
  {
    forall t | t in tokens ensures IdfOf(tokens, store, ln)[t] > 0.0 {
      DocsWithin(store, t);
      RatioBound(|store|, |DocsWith(store, t)|);
      assert Ascends(ln, 0.5, Ratio(|store|, |DocsWith(store, t)|));
      assert ln(Ratio(|store|, |DocsWith(store, t)|)) >= ln(0.5);
    }
  }

  /** A token in fewer entries weighs more. */
  lemma RarerWeighsMore(store: Store, rare: string, common: string, ln: real -> real)
    requires IsLn(ln) && |DocsWith(store, rare)| < |DocsWith(store, common)|
    ensures Idf(store, rare, ln) > Idf(store, common, ln)
  {
    var n := if |store| == 0 then 1 else |store|;
    var few, many := |DocsWith(store, rare)|, |DocsWith(store, common)|;
    SmallerQuotient(n as real, (1 + few) as real, (1 + many) as real);
    assert Ascends(ln, Ratio(|store|, many), Ratio(|store|, few));
    hide DocsWith;
  }

  lemma SmallerQuotient(n: real, a: real, b: real)
    requires n > 0.0 && 0.0 < a < b
    ensures 0.0 < n / b < n / a
  {
    assert n / b * b == n && n / a * a == n;
    if n / b >= n / a { MulMono(n / a, n / b, a); PositiveQuotient(n, b); PositiveProduct(n / b, b - a); }
    PositiveQuotient(n, b);
  }

  /** A token that all entries but one contain weighs exactly 1. */
  lemma AllButOneWeighsOne(store: Store, token: string, ln: real -> real)
    requires IsLn(ln) && |DocsWith(store, token)| + 1 == |store|
    ensures Idf(store, token, ln) == 1.0
  {
    SelfRatio(|store|);
  }

  lemma SelfRatio(n: nat)
    requires n > 0
    ensures n as real / n as real == 1.0
  {
  }

  predicate AllDistinct(keys: seq<string>) {
    forall i, j :: 0 <= i < j < |keys| ==> keys[i] != keys[j]
  }

  /** The entries in the order the hash map yields them. */
  method Visit(store: Store) returns (keys: seq<string>)
    ensures AllDistinct(keys) && (set k | k in keys) == store.Keys && |keys| == |store|
  {
    keys := [];
    var left := store.Keys;
    while left != {}
      invariant left <= store.Keys && AllDistinct(keys)
      invariant (set k | k in keys) == store.Keys - left && |keys| + |left| == |store.Keys|
      decreases |left|
    {
      var k :| k in left;
      assert k !in (set j | j in keys);
      assert (set j | j in keys + [k]) == (set j | j in keys) + {k};
      keys := keys + [k];
      left := left - {k};
    }
  }

  method CountDocs(keys: seq<string>, store: Store, token: string) returns (df: nat)
    requires AllDistinct(keys) && (set k | k in keys) == store.Keys
    ensures df == |DocsWith(store, token)|
  {
    df := 0;
    ghost var found := {};
    for i := 0 to |keys|
      invariant found == (set k | k in keys[..i] && k in store && token in store[k].tokens) && df == |found|
    {
      assert keys[..i + 1] == keys[..i] + [keys[i]];
      assert keys[i] !in keys[..i] by { if j :| 0 <= j < i && keys[j] == keys[i] { assert false; } }
      assert keys[i] in (set k | k in keys);
      if token in store[keys[i]].tokens {
        df := df + 1;
        found := found + {keys[i]};
      }
    }
    assert keys[..|keys|] == keys;
    assert found == DocsWith(store, token) by {
      forall k | k in DocsWith(store, token) ensures k in found { assert k in (set j | j in keys); }
    }
  }

  method ComputeIdf(tokens: seq<string>, keys: seq<string>, store: Store, ln: real -> real) returns (idf: Vector)
    requires AllDistinct(keys) && (set k | k in keys) == store.Keys && |keys| == |store|
    ensures idf == IdfOf(tokens, store, ln)
  {
    idf := map[];
    for i := 0 to |tokens|
      invariant forall t :: t in idf <==> t in tokens[..i]
      invariant forall t :: t in idf ==> idf[t] == Idf(store, t, ln)
    {
      assert tokens[..i + 1] == tokens[..i] + [tokens[i]];
      if tokens[i] !in idf {
        var df := CountDocs(keys, store, tokens[i]);
        var weight := ln(Ratio(|keys|, df)) + 1.0;
        assert weight == Idf(store, tokens[i], ln);
        hide *;
        idf := idf[tokens[i] := weight];
      }
    }
    assert tokens[..|tokens|] == tokens;
  }

  // ---- term frequency ----

  /** The share of the tokens that are `t`. */
  function Frequency(tokens: seq<string>, t: string): real
    requires tokens != []
  {
    Share(multiset(tokens)[t], |tokens|)
  }

  ghost function Weights(tokens: seq<string>, idf: Vector): Vector {
    map t | t in tokens && t in idf && idf[t] != 0.0 :: Mul(Frequency(tokens, t), idf[t])
  }

  /** The shares of a list's tokens are their numbers of occurrences over its length. */
  lemma FrequencyIs(tokens: seq<string>, t: string)
    requires tokens != []
    ensures Frequency(tokens, t) * |tokens| as real == multiset(tokens)[t] as real
  {
  }

  /** A vector has the tokens of nonzero weight, each with its share times its weight. */
  lemma WeightIs(tokens: seq<string>, idf: Vector, t: string)
    ensures t in Weights(tokens, idf) <==> t in tokens && t in idf && idf[t] != 0.0
    ensures t in Weights(tokens, idf) ==>
      Weights(tokens, idf)[t] * |tokens| as real == multiset(tokens)[t] as real * idf[t]
  {
    if t in Weights(tokens, idf) {
      FrequencyIs(tokens, t);
      var share, n, w := Frequency(tokens, t), |tokens| as real, idf[t];
      Regrouped(share, n, w);
      hide Frequency;
    }
  }

  lemma Regrouped(x: real, y: real, z: real)
    ensures x * z * y == x * y * z
  {
  }

  method TfidfVector(tokens: seq<string>, idf: Vector) returns (v: Vector)
    ensures v == Weights(tokens, idf)
  {
    if tokens == [] { return map[]; }
    var tf := TermFrequencies(tokens);
    hide Frequency;
    v := map t | t in tf && t in idf && idf[t] != 0.0 :: Mul(tf[t], idf[t]);
  }

  /** The share of `count` occurrences in a list of `size`. */
  function Share(count: nat, size: nat): real
    requires size > 0
  {
    count as real / size as real
  }

  lemma OneMore(count: nat, size: nat)
    requires size > 0
    ensures Share(count, size) + Share(1, size) == Share(count + 1, size) && Share(0, size) == 0.0
  {
  }

  method TermFrequencies(tokens: seq<string>) returns (tf: Vector)
    requires tokens != []
    ensures forall t :: t in tf <==> t in tokens
    ensures forall t :: t in tf ==> tf[t] == Frequency(tokens, t)
  {
    hide Share;
    var n := |tokens|;
    tf := map[];
    for i := 0 to n
      invariant forall t :: t in tf <==> t in tokens[..i]
      invariant forall t :: t in tf ==> tf[t] == Share(multiset(tokens[..i])[t], n)
    {
      assert tokens[..i + 1] == tokens[..i] + [tokens[i]];
      var t := tokens[i];
      ghost var before := multiset(tokens[..i])[t];
      OneMore(before, n);
      assert t !in tf ==> before == 0;
      var sum := (if t in tf then tf[t] else 0.0) + Share(1, n);
      assert sum == Share(before + 1, n);
      tf := tf[t := sum];
    }
    assert tokens[..n] == tokens;
  }

  lemma WeightsArePositive(tokens: seq<string>, idf: Vector)
    requires Positive(idf)
    ensures Positive(Weights(tokens, idf))
    ensures forall t :: t in Weights(tokens, idf) <==> t in tokens && t in idf
  {
    forall t | t in Weights(tokens, idf) ensures Weights(tokens, idf)[t] > 0.0 {
      var c, n := multiset(tokens)[t] as real, |tokens| as real;
      assert c > 0.0 && n > 0.0;
      PositiveQuotient(c, n);
      PositiveProduct(c / n, idf[t]);
    }
  }

  lemma PositiveQuotient(c: real, n: real)
    requires c > 0.0 && n > 0.0
    ensures c / n > 0.0
  {
  }

  // ---- scores ----

  ghost function Score(store: Store, key: string, q: Query, fns: Analysis): real
    requires key in store
  {
    if q.tokens == [] then 1.0
    else
      var idf := IdfOf(q.tokens, store, fns.ln);
      Cosine(Weights(q.tokens, idf), Weights(store[key].tokens, idf), fns.sqrt)
  }

  ghost predicate SharesToken(a: seq<string>, b: seq<string>) {
    exists t :: t in a && t in b
  }

  /** Scores lie in [0, 1]. */
  lemma ScoreRange(store: Store, key: string, q: Query, fns: Analysis)
    requires key in store && Genuine(fns)
    ensures 0.0 <= Score(store, key, q, fns) <= 1.0
  {
    if q.tokens != [] {
      var idf := IdfOf(q.tokens, store, fns.ln);
      IdfIsPositive(q.tokens, store, fns.ln);
      WeightsArePositive(q.tokens, idf);
      WeightsArePositive(store[key].tokens, idf);
      hide Weights, Cosine;
      PositiveCosine(Weights(q.tokens, idf), Weights(store[key].tokens, idf), fns.sqrt);
    }
  }

  /** An entry scores above 0 iff it shares a token with the query. */
  lemma PositiveScoreIff(store: Store, key: string, q: Query, fns: Analysis)
    requires key in store && Genuine(fns) && q.tokens != []
    ensures Score(store, key, q, fns) > 0.0 <==> SharesToken(q.tokens, store[key].tokens)
  {
    var idf := IdfOf(q.tokens, store, fns.ln);
    IdfIsPositive(q.tokens, store, fns.ln);
    WeightsArePositive(q.tokens, idf);
    WeightsArePositive(store[key].tokens, idf);
    var a, b := Weights(q.tokens, idf), Weights(store[key].tokens, idf);
    hide Weights, Cosine;
    PositiveCosine(a, b, fns.sqrt);
    if t :| t in q.tokens && t in store[key].tokens { assert t in a && t in b; }
  }

  /** An entry with exactly the query's tokens scores 1. */
  lemma ExactMatchScoresOne(store: Store, key: string, q: Query, fns: Analysis)
    requires key in store && Genuine(fns) && store[key].tokens == q.tokens
    ensures Score(store, key, q, fns) == 1.0
  {
    if q.tokens != [] {
      var idf := IdfOf(q.tokens, store, fns.ln);
      IdfIsPositive(q.tokens, store, fns.ln);
      WeightsArePositive(q.tokens, idf);
      assert q.tokens[0] in Weights(q.tokens, idf);
      hide Weights, Cosine;
      SelfCosine(Weights(q.tokens, idf), fns.sqrt);
    }
  }
}
