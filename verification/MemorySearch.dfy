/** Ranked search over an agent's memory (crates/apollo-core/src/memory.rs). */
module MemorySearch {

  import opened Options
  import opened SparseVectors
  import opened MemoryScores

  datatype Hit = Hit(key: string, entry: Entry, score: real)

  predicate TagMatches(e: Entry, tags: seq<string>) {
    forall i :: 0 <= i < |tags| ==> tags[i] in e.tags
  }

  /** The live entries a search may return; an empty query ignores the score filter. */
  ghost predicate Eligible(live: Store, key: string, q: Query, fns: Analysis) {
    key in live && TagMatches(live[key], q.tags) && (q.tokens == [] || Score(live, key, q, fns) >= q.minScore)
  }

  ghost function EligibleScores(live: Store, q: Query, fns: Analysis): map<string, real> {
    map k | k in live && Eligible(live, k, q, fns) :: Score(live, k, q, fns)
  }

  predicate Descending(hits: seq<Hit>) {
    forall i, j :: 0 <= i < j < |hits| ==> hits[i].score >= hits[j].score
  }

  predicate DistinctKeys(hits: seq<Hit>) {
    forall i, j :: 0 <= i < j < |hits| ==> hits[i].key != hits[j].key
  }

  ghost predicate Scored(hits: seq<Hit>, scores: map<string, real>) {
    forall i :: 0 <= i < |hits| ==> hits[i].key in scores && hits[i].score == scores[hits[i].key]
  }

  ghost function KeysOf(hits: seq<Hit>): set<string> {
    set i | 0 <= i < |hits| :: hits[i].key
  }

  /** Scored keys, best first, as many as the limit allows, none better left out. */
  ghost predicate Top(hits: seq<Hit>, scores: map<string, real>, limit: nat) {
    && Scored(hits, scores) && DistinctKeys(hits) && Descending(hits)
    && |hits| == (if |scores| <= limit then |scores| else limit)
    && forall k, i {:trigger k in KeysOf(hits), hits[i]} ::
         k in scores && k !in KeysOf(hits) && 0 <= i < |hits| ==> hits[i].score >= scores[k]
  }

  ghost predicate Entries(hits: seq<Hit>, live: Store) {
    forall i :: 0 <= i < |hits| ==> hits[i].key in live && hits[i].entry == live[hits[i].key]
  }

  /** What a search over these live entries answers. */
  ghost predicate Answers(hits: seq<Hit>, live: Store, q: Query, fns: Analysis) {
    Top(hits, EligibleScores(live, q, fns), q.limit) && Entries(hits, live)
  }

  /** A stable descending sort. */
  function Insert(h: Hit, hits: seq<Hit>): (r: seq<Hit>)
    requires Descending(hits)
    ensures Descending(r) && multiset(r) == multiset(hits) + multiset{h}
  {
    if hits == [] || h.score >= hits[0].score then
      Prepended(h, hits);
      [h] + hits
    else
      var tail := Insert(h, hits[1..]);
      InsertedFrom(h, hits, tail);
      [hits[0]] + tail
  }

  lemma Prepended(h: Hit, hits: seq<Hit>)
    ensures multiset([h] + hits) == multiset(hits) + multiset{h}
  {
  }

  lemma InsertedFrom(h: Hit, hits: seq<Hit>, tail: seq<Hit>)
    requires hits != [] && Descending(hits) && h.score < hits[0].score && Descending(tail)
    requires multiset(tail) == multiset(hits[1..]) + multiset{h}
    ensures Descending([hits[0]] + tail)
    ensures multiset([hits[0]] + tail) == multiset(hits) + multiset{h}
  {
    Prepended(hits[0], hits[1..]);
    Prepended(hits[0], tail);
    assert hits == [hits[0]] + hits[1..];
    forall i | 0 <= i < |tail| ensures hits[0].score >= tail[i].score {
      assert tail[i] in multiset(hits[1..]) + multiset{h};
      if tail[i] != h { assert tail[i] in hits[1..]; }
    }
  }

  function SortDescending(hits: seq<Hit>): (r: seq<Hit>)
    ensures Descending(r) && multiset(r) == multiset(hits)
  {
    if hits == [] then []
    else
      assert hits == [hits[0]] + hits[1..];
      Insert(hits[0], SortDescending(hits[1..]))
  }

  lemma SameElements(a: seq<Hit>, b: seq<Hit>, i: nat)
    requires multiset(a) == multiset(b) && i < |b|
    ensures b[i] in a
  {
    assert b[i] in multiset(b);
  }

  lemma {:induction false} DistinctByCount(a: seq<Hit>, i: nat, j: nat)
    requires i < j < |a| && a[i] == a[j]
    ensures multiset(a)[a[i]] >= 2
  {
    assert a == a[..j] + a[j..];
    assert a[i] in a[..j] && a[j] in a[j..];
  }

  lemma {:induction false} DistinctSingle(a: seq<Hit>, h: Hit)
    requires DistinctKeys(a)
    ensures multiset(a)[h] <= 1
  {
    if a != [] {
      assert a == [a[0]] + a[1..];
      DistinctSingle(a[1..], h);
      assert forall i :: 0 <= i < |a[1..]| ==> a[1..][i] == a[i + 1];
    }
  }

  lemma SortKeepsKeys(a: seq<Hit>, b: seq<Hit>)
    requires multiset(a) == multiset(b) && DistinctKeys(a)
    ensures DistinctKeys(b) && KeysOf(a) == KeysOf(b) && |a| == |b|
  {
    assert |a| == |multiset(a)| && |b| == |multiset(b)|;
    forall i, j | 0 <= i < j < |b| ensures b[i].key != b[j].key {
      SameElements(a, b, i);
      SameElements(a, b, j);
      if b[i] == b[j] {
        DistinctByCount(b, i, j);
        DistinctSingle(a, b[i]);
      }
    }
    forall k ensures k in KeysOf(a) <==> k in KeysOf(b) {
      if i :| 0 <= i < |a| && a[i].key == k { SameElements(b, a, i); }
      if i :| 0 <= i < |b| && b[i].key == k { SameElements(a, b, i); }
    }
  }

  lemma {:induction false} KeyCount(hits: seq<Hit>)
    requires DistinctKeys(hits)
    ensures |KeysOf(hits)| == |hits|
  {
    if hits != [] {
      var n := |hits| - 1;
      KeyCount(hits[..n]);
      assert KeysOf(hits) == KeysOf(hits[..n]) + {hits[n].key};
    }
  }

  /** All the scored keys, best first, cut to the limit. */
  lemma TruncationIsTop(all: seq<Hit>, scores: map<string, real>, limit: nat)
    requires Scored(all, scores) && DistinctKeys(all) && Descending(all) && KeysOf(all) == scores.Keys
    ensures Top(if |all| <= limit then all else all[..limit], scores, limit)
  {
    KeyCount(all);
    assert |scores| == |scores.Keys|;
    var cut := if |all| <= limit then all else all[..limit];
    forall k, i | k in scores && k !in KeysOf(cut) && 0 <= i < |cut|
      ensures cut[i].score >= scores[k]
    {
      assert k in KeysOf(all);
      var j :| 0 <= j < |all| && all[j].key == k;
      assert j >= |cut|;
    }
  }

  /** The order a hash map yields entries in can only exchange ties: any two answers have the same scores. */
  lemma AnswersAgree(a: seq<Hit>, b: seq<Hit>, scores: map<string, real>, limit: nat, i: nat)
    requires Top(a, scores, limit) && Top(b, scores, limit) && i < |a|
    ensures |a| == |b| && a[i].score == b[i].score
  {
    if a[i].score > b[i].score {
      NoBetter(a, b, scores, limit, i);
    } else if a[i].score < b[i].score {
      NoBetter(b, a, scores, limit, i);
    }
  }

  lemma NoBetter(a: seq<Hit>, b: seq<Hit>, scores: map<string, real>, limit: nat, i: nat)
    requires Top(a, scores, limit) && Top(b, scores, limit) && i < |a| == |b|
    ensures a[i].score <= b[i].score
  {
    if a[i].score > b[i].score {
      assert KeysOf(a[..i + 1]) <= KeysOf(b[..i]) by {
        forall k | k in KeysOf(a[..i + 1]) ensures k in KeysOf(b[..i]) {
          var j: nat :| j < i + 1 && a[..i + 1][j].key == k;
          MustBeAhead(a, b, scores, limit, i, j);
        }
      }
      FewerKeys(a[..i + 1], b[..i]);
    }
  }

  lemma FewerKeys(few: seq<Hit>, many: seq<Hit>)
    requires DistinctKeys(few) && DistinctKeys(many) && KeysOf(few) <= KeysOf(many)
    ensures |few| <= |many|
  {
    hide *;
    KeyCount(few);
    KeyCount(many);
    SubsetSize(KeysOf(few), KeysOf(many));
  }

  lemma MustBeAhead(a: seq<Hit>, b: seq<Hit>, scores: map<string, real>, limit: nat, i: nat, j: nat)
    requires Top(a, scores, limit) && Top(b, scores, limit) && j <= i < |a| == |b| && a[i].score > b[i].score
    ensures a[j].key in KeysOf(b[..i])
  {
    var k := a[j].key;
    assert a[j].score >= a[i].score && b[i].score < scores[k];
    assert k in KeysOf(b);
    var l :| 0 <= l < |b| && b[l].key == k;
    assert l < i;
    assert b[..i][l].key == k;
  }

  lemma SortKeepsScores(hits: seq<Hit>, scores: map<string, real>, live: Store)
    requires Scored(hits, scores) && DistinctKeys(hits) && Entries(hits, live)
    ensures var sorted := SortDescending(hits);
      Scored(sorted, scores) && DistinctKeys(sorted) && KeysOf(sorted) == KeysOf(hits) && Entries(sorted, live)
  {
    hide SortDescending;
    var sorted := SortDescending(hits);
    SortKeepsKeys(hits, sorted);
    forall i | 0 <= i < |sorted| ensures sorted[i] in hits { SameElements(hits, sorted, i); }
  }

  /** search_memory, on the entries left after pruning the expired ones. */
  method SearchMemory(store: Store, now: nat, q: Query, fns: Analysis) returns (hits: seq<Hit>)
    ensures Answers(hits, LiveEntries(store, now), q, fns)
  {
    hide *;
    var live := LiveEntries(store, now);
    var keys := Visit(live);
    var scored := ScoreEntries(live, keys, q, fns);
    if q.tokens != [] {
      SortKeepsScores(scored, EligibleScores(live, q, fns), live);
      scored := SortDescending(scored);
    }
    TruncationAnswers(scored, live, q, fns);
    hits := if |scored| <= q.limit then scored else scored[..q.limit];
  }

  lemma TruncationAnswers(all: seq<Hit>, live: Store, q: Query, fns: Analysis)
    requires Scored(all, EligibleScores(live, q, fns)) && DistinctKeys(all) && Descending(all) && Entries(all, live)
    requires KeysOf(all) == EligibleScores(live, q, fns).Keys
    ensures Answers(if |all| <= q.limit then all else all[..q.limit], live, q, fns)
  {
    hide EligibleScores, Scored, Top, Descending, DistinctKeys, KeysOf;
    TruncationIsTop(all, EligibleScores(live, q, fns), q.limit);
  }

  /** The scored keys among the first `n` visited. */
  ghost function Reached(keys: seq<string>, n: nat, scores: map<string, real>): set<string>
    requires n <= |keys|
  {
    set k | k in keys[..n] && k in scores
  }

  lemma ReachedNext(keys: seq<string>, n: nat, scores: map<string, real>)
    requires AllDistinct(keys) && n < |keys|
    ensures keys[n] !in Reached(keys, n, scores)
    ensures Reached(keys, n + 1, scores) == Reached(keys, n, scores) + if keys[n] in scores then {keys[n]} else {}
  {
    assert keys[..n + 1] == keys[..n] + [keys[n]];
  }

  lemma ReachedAll(keys: seq<string>, live: Store, q: Query, fns: Analysis)
    requires (set k | k in keys) == live.Keys
    ensures Reached(keys, |keys|, EligibleScores(live, q, fns)) == EligibleScores(live, q, fns).Keys
    ensures Reached(keys, 0, EligibleScores(live, q, fns)) == {}
    ensures forall i :: 0 <= i < |keys| ==> keys[i] in live
  {
    hide Eligible, Score;
    assert keys[..|keys|] == keys;
    forall i | 0 <= i < |keys| ensures keys[i] in live { assert keys[i] in (set k | k in keys); }
    forall k | k in live ensures k in keys { assert k in (set j | j in keys); }
  }

  method ScoreEntries(live: Store, keys: seq<string>, q: Query, fns: Analysis) returns (scored: seq<Hit>)
    requires AllDistinct(keys) && (set k | k in keys) == live.Keys && |keys| == |live|
    ensures Scored(scored, EligibleScores(live, q, fns)) && DistinctKeys(scored) && Entries(scored, live)
    ensures KeysOf(scored) == EligibleScores(live, q, fns).Keys
    ensures q.tokens == [] ==> Descending(scored)
  {
    scored := [];
    ghost var scores := EligibleScores(live, q, fns);
    ReachedAll(keys, live, q, fns);
    assert Scored(scored, scores) && DistinctKeys(scored) && Entries(scored, live) && KeysOf(scored) == {};
    hide *;
    var idf := ComputeIdf(q.tokens, keys, live, fns.ln);
    var queryVec := TfidfVector(q.tokens, idf);
    for i := 0 to |keys|
      invariant Scored(scored, scores) && DistinctKeys(scored) && Entries(scored, live)
      invariant KeysOf(scored) == Reached(keys, i, scores)
      invariant q.tokens == [] ==> forall h :: h in scored ==> h.score == 1.0
    {
      var k := keys[i];
      ReachedNext(keys, i, scores);
      ScoredWhenEligible(live, k, q, fns);
      if TagMatches(live[k], q.tags) {
        var score := ScoreOf(live, k, q, idf, queryVec, fns);
        if q.tokens == [] || score >= q.minScore {
          scored := Extended(scored, Hit(k, live[k], score), scores, live);
        }
      }
    }
    if q.tokens == [] { EqualScoresDescend(scored); }
  }

  lemma EqualScoresDescend(hits: seq<Hit>)
    requires forall h :: h in hits ==> h.score == 1.0
    ensures Descending(hits)
  {
  }

  method ScoreOf(live: Store, k: string, q: Query, idf: Vector, queryVec: Vector, fns: Analysis) returns (score: real)
    requires k in live && idf == IdfOf(q.tokens, live, fns.ln) && queryVec == Weights(q.tokens, idf)
    ensures score == Score(live, k, q, fns)
    ensures q.tokens == [] ==> score == 1.0
  {
    if q.tokens == [] { return 1.0; }
    hide Weights, IdfOf, Cosine;
    var docVec := TfidfVector(live[k].tokens, idf);
    score := CosineSimilarity(queryVec, docVec, fns.sqrt);
  }

  lemma ScoredWhenEligible(live: Store, k: string, q: Query, fns: Analysis)
    requires k in live
    ensures k in EligibleScores(live, q, fns) <==>
      TagMatches(live[k], q.tags) && (q.tokens == [] || Score(live, k, q, fns) >= q.minScore)
    ensures k in EligibleScores(live, q, fns) ==> EligibleScores(live, q, fns)[k] == Score(live, k, q, fns)
  {
    hide Score;
  }

  method Extended(scored: seq<Hit>, h: Hit, ghost scores: map<string, real>, ghost live: Store) returns (more: seq<Hit>)
    requires Scored(scored, scores) && DistinctKeys(scored) && h.key !in KeysOf(scored) && Entries(scored, live)
    requires h.key in scores && h.score == scores[h.key] && h.key in live && h.entry == live[h.key]
    ensures Scored(more, scores) && DistinctKeys(more) && Entries(more, live)
    ensures more == scored + [h] && KeysOf(more) == KeysOf(scored) + {h.key}
  {
    more := scored + [h];
    assert forall i :: 0 <= i < |scored| ==> scored[i].key in KeysOf(scored);
    assert KeysOf(more) == KeysOf(scored) + {h.key} by {
      forall k | k in KeysOf(scored) + {h.key} ensures k in KeysOf(more) {
        if k == h.key { assert more[|scored|].key == k; }
        if i :| 0 <= i < |scored| && scored[i].key == k { assert more[i].key == k; }
      }
    }
  }

  /** What an answer holds, in terms of the store: only entries not yet past their ttl that carry every tag asked for
      and, if the query has tokens, reach the least score; and every such entry unless it is full of entries scoring
      as high. */
  lemma AnswersMean(hits: seq<Hit>, store: Store, now: nat, q: Query, fns: Analysis, key: string)
    requires Answers(hits, LiveEntries(store, now), q, fns)
    ensures var live := LiveEntries(store, now);
            var fits := key in store && (store[key].ttl == None || now < store[key].createdAt + store[key].ttl.value)
              && (forall t :: t in q.tags ==> t in store[key].tags)
              && (q.tokens == [] || Score(live, key, q, fns) >= q.minScore);
            && |hits| <= q.limit
            && (forall i :: 0 <= i < |hits| && hits[i].key == key ==>
                  fits && hits[i].entry == store[key] && hits[i].score == Score(live, key, q, fns))
            && (fits && (forall i :: 0 <= i < |hits| ==> hits[i].key != key) ==>
                  |hits| == q.limit && forall i :: 0 <= i < |hits| ==> hits[i].score >= Score(live, key, q, fns))
  {
    var live := LiveEntries(store, now);
    LiveUntil(store, now, key);
    if key in live {
      ScoredWhenEligible(live, key, q, fns);
      assert TagMatches(live[key], q.tags) <==> forall t :: t in q.tags ==> t in store[key].tags;
    }
    hide LiveEntries, Score, Eligible, TagMatches;
    assert key in KeysOf(hits) <==> exists i :: 0 <= i < |hits| && hits[i].key == key;
    assert forall k :: k in EligibleScores(live, q, fns) ==> k in live;
    hide EligibleScores;
    if key in EligibleScores(live, q, fns) && key !in KeysOf(hits) {
      Crowded(hits, EligibleScores(live, q, fns), q.limit, key);
    }
  }

  /** A key left out of the top has lost its place to a full list. */
  lemma Crowded(hits: seq<Hit>, scores: map<string, real>, limit: nat, key: string)
    requires Top(hits, scores, limit) && key in scores && key !in KeysOf(hits)
    ensures |hits| == limit && forall i :: 0 <= i < |hits| ==> hits[i].score >= scores[key]
  {
    assert |scores.Keys| == |scores|;
    if |scores| <= limit {
      KeyCount(hits);
      assert KeysOf(hits) <= scores.Keys - {key};
      SubsetSize(KeysOf(hits), scores.Keys - {key});
    }
  }
}
