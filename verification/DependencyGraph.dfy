/** Dependency chains of a workflow, cycles, and longest-chain levels: the mathematics
    against which the DAG analysis and the execution engine are both specified. */
module DependencyGraph {
  import opened Orchestration

  /** Entry i lists the predecessors of step i, with multiplicity, in declaration order. */
  type Graph = seq<seq<nat>>

  ghost predicate WellFormed(g: Graph) {
    forall i, k :: 0 <= i < |g| && 0 <= k < |g[i]| ==> g[i][k] < |g|
  }

  // ---- from a workflow definition to its graph ----

  /** Where each id is found: the last step with a given id wins. */
  function StepIndex(steps: seq<WorkflowStep>): (idx: map<string, nat>)
    ensures forall id :: id in idx ==> idx[id] < |steps| && steps[idx[id]].stepId == id
    ensures forall i :: 0 <= i < |steps| ==> steps[i].stepId in idx && i <= idx[steps[i].stepId]
  {
    if steps == [] then map[]
    else StepIndex(steps[..|steps| - 1])[steps[|steps| - 1].stepId := |steps| - 1]
  }

  /** The known dependencies among `deps`, as step indices; unknown names are dropped. */
  function Resolve(deps: seq<string>, idx: map<string, nat>): seq<nat> {
    if deps == [] then []
    else
      var init := Resolve(deps[..|deps| - 1], idx);
      var d := deps[|deps| - 1];
      if d in idx then init + [idx[d]] else init
  }

  ghost function GraphOf(def: WorkflowDef): (g: Graph)
    ensures |g| == |def.steps| && WellFormed(g)
  {
    var idx := StepIndex(def.steps);
    var g := seq(|def.steps|, i requires 0 <= i < |def.steps| => Resolve(def.steps[i].dependsOn, idx));
    forall i, k | 0 <= i < |g| && 0 <= k < |g[i]|
      ensures g[i][k] < |g|
    {
      ResolveMembers(def.steps[i].dependsOn, idx);
      assert g[i][k] in g[i];
    }
    g
  }

  lemma {:induction false} ResolveMembers(deps: seq<string>, idx: map<string, nat>)
    ensures forall p :: p in Resolve(deps, idx) <==> exists d :: d in deps && d in idx && idx[d] == p
    ensures forall d :: d in deps && d in idx ==> idx[d] in Resolve(deps, idx)
    ensures |Resolve(deps, idx)| <= |deps|
  {
    if deps != [] {
      var init, d := deps[..|deps| - 1], deps[|deps| - 1];
      ResolveMembers(init, idx);
      assert deps == init + [d];
      assert forall x :: x in deps <==> x in init || x == d;
    }
  }

  // ---- chains ----

  ghost predicate Chain(g: Graph, c: seq<nat>) {
    && c != []
    && (forall k :: 0 <= k < |c| ==> c[k] < |g|)
    && (forall k :: 0 < k < |c| ==> c[k - 1] in g[c[k]])
  }

  function Last<T>(c: seq<T>): T
    requires c != []
  {
    c[|c| - 1]
  }

  ghost predicate Distinct<T(!new)>(c: seq<T>) {
    forall a, b :: 0 <= a < b < |c| ==> c[a] != c[b]
  }

  /** No ancestor of i (nor i itself) lies on a cycle: no chain into i repeats a step. */
  ghost predicate Grounded(g: Graph, i: nat) {
    forall c: seq<nat> :: Chain(g, c) && Last(c) == i ==> Distinct(c)
  }

  ghost predicate Acyclic(g: Graph) {
    forall i :: 0 <= i < |g| ==> Grounded(g, i)
  }

  /** A chain into i all of whose earlier steps are grounded. */
  ghost predicate ChainInto(g: Graph, c: seq<nat>, i: nat) {
    && Chain(g, c) && Last(c) == i
    && forall k :: 0 <= k < |c| - 1 ==> Grounded(g, c[k])
  }

  /** Some chain into i has `len` edges, and none has more. */
  ghost predicate LongestInto(g: Graph, i: nat, len: nat) {
    && (exists c: seq<nat> :: ChainInto(g, c, i) && |c| == len + 1)
    && (forall c: seq<nat> :: ChainInto(g, c, i) ==> |c| <= len + 1)
  }

  lemma ChainPrefix(g: Graph, c: seq<nat>, n: nat)
    requires Chain(g, c) && 0 < n <= |c|
    ensures Chain(g, c[..n]) && Last(c[..n]) == c[n - 1]
  {
  }

  lemma ChainSuffix(g: Graph, c: seq<nat>, n: nat)
    requires Chain(g, c) && n < |c|
    ensures Chain(g, c[n..]) && Last(c[n..]) == Last(c)
  {
  }

  lemma ChainSnoc(g: Graph, c: seq<nat>, i: nat)
    requires Chain(g, c) && i < |g| && Last(c) in g[i]
    ensures Chain(g, c + [i]) && Last(c + [i]) == i
  {
  }

  lemma ChainConcat(g: Graph, c: seq<nat>, d: seq<nat>)
    requires Chain(g, c) && Chain(g, d) && Last(c) in g[d[0]]
    ensures Chain(g, c + d) && Last(c + d) == Last(d)
  {
  }

  /** A chain that meets its own end earlier puts the last-but-one step on a cycle. */
  lemma CycleThroughPred(g: Graph, c: seq<nat>, a: nat)
    requires Chain(g, c) && a < |c| - 1 && c[a] == Last(c)
    ensures exists d: seq<nat> :: Chain(g, d) && Last(d) == c[|c| - 2] && !Distinct(d)
  {
    var m := |c| - 1;
    var p := c[m - 1];
    ChainSuffix(g, c, a);
    ChainPrefix(g, c[a..], m - a);
    assert Chain(g, [p]);
    ChainConcat(g, [p], c[a..][..m - a]);
    var d := [p] + c[a..][..m - a];
    assert d[0] == d[|d| - 1];
  }

  /** If every predecessor is grounded, so is the step. */
  lemma GroundedStep(g: Graph, i: nat)
    requires WellFormed(g) && i < |g|
    requires forall p :: p in g[i] ==> Grounded(g, p)
    ensures Grounded(g, i)
  {
    forall c: seq<nat> | Chain(g, c) && Last(c) == i
      ensures Distinct(c)
    {
      var m := |c| - 1;
      if m > 0 {
        var p := c[m - 1];
        assert p in g[i];
        ChainPrefix(g, c, m);
        assert Distinct(c[..m]);
        forall a, b | 0 <= a < b < |c| ensures c[a] != c[b] {
          if b < m {
            assert c[..m][a] == c[a] && c[..m][b] == c[b];
          } else if c[a] == i {
            CycleThroughPred(g, c, a);
            assert false;
          }
        }
      }
    }
  }

  // ---- pigeonhole ----

  ghost function Elements(c: seq<nat>): set<nat> {
    set x | x in c
  }

  lemma {:induction false} DistinctCardinality(c: seq<nat>)
    requires Distinct(c)
    ensures |Elements(c)| == |c|
  {
    if c != [] {
      var m := |c| - 1;
      DistinctCardinality(c[..m]);
      assert c == c[..m] + [c[m]];
      assert Elements(c) == Elements(c[..m]) + {c[m]};
      assert c[m] !in c[..m];
    }
  }

  lemma {:induction false} BoundedCardinality(s: set<nat>, n: nat)
    requires forall x :: x in s ==> x < n
    ensures |s| <= n
  {
    if n > 0 {
      BoundedCardinality(s - {n - 1}, n - 1);
      assert s <= (s - {n - 1}) + {n - 1};
    } else {
      assert s == {};
    }
  }

  lemma Pigeonhole(c: seq<nat>, n: nat)
    requires Distinct(c) && forall k :: 0 <= k < |c| ==> c[k] < n
    ensures |c| <= n
  {
    DistinctCardinality(c);
    BoundedCardinality(Elements(c), n);
  }

  // ---- levels ----

  lemma ChainIntoBound(g: Graph, c: seq<nat>, i: nat)
    requires ChainInto(g, c, i)
    ensures |c| <= |g| + 1
  {
    var m := |c| - 1;
    if m > 0 {
      ChainPrefix(g, c, m);
      assert Distinct(c[..m]);
      Pigeonhole(c[..m], |g|);
    }
  }

  lemma {:induction false} LongestExistsBelow(g: Graph, i: nat, bound: nat)
    requires i < |g|
    requires forall c: seq<nat> :: ChainInto(g, c, i) ==> |c| <= bound + 1
    ensures exists len: nat :: LongestInto(g, i, len)
    decreases bound
  {
    if c: seq<nat> :| ChainInto(g, c, i) && |c| == bound + 1 {
      assert LongestInto(g, i, bound);
    } else if bound == 0 {
      assert ChainInto(g, [i], i);
      assert false;
    } else {
      LongestExistsBelow(g, i, bound - 1);
    }
  }

  lemma LongestExists(g: Graph, i: nat)
    requires i < |g|
    ensures exists len: nat :: LongestInto(g, i, len)
  {
    forall c: seq<nat> | ChainInto(g, c, i) ensures |c| <= |g| + 1 { ChainIntoBound(g, c, i); }
    LongestExistsBelow(g, i, |g|);
  }

  /** Number of edges on the longest chain into step i. */
  ghost function Level(g: Graph, i: nat): (len: nat)
    requires i < |g|
    ensures LongestInto(g, i, len)
  {
    LongestExists(g, i);
    var len: nat :| LongestInto(g, i, len);
    len
  }

  /** A grounded predecessor sits on a strictly lower level. */
  lemma LevelAbove(g: Graph, i: nat, p: nat)
    requires i < |g| && p < |g| && p in g[i] && Grounded(g, p)
    ensures Level(g, p) < Level(g, i)
  {
    var len := Level(g, p);
    var c: seq<nat> :| ChainInto(g, c, p) && |c| == len + 1;
    ChainSnoc(g, c, i);
    var d := c + [i];
    forall k | 0 <= k < |d| - 1 ensures Grounded(g, d[k]) {
      assert d[k] == c[k];
    }
    assert ChainInto(g, d, i);
  }

  /** A step above level 0 has a grounded predecessor exactly one level down. */
  lemma LevelWitness(g: Graph, i: nat) returns (p: nat)
    requires i < |g| && Level(g, i) > 0
    ensures p < |g| && p in g[i] && Grounded(g, p) && Level(g, p) + 1 == Level(g, i)
  {
    var c: seq<nat> :| ChainInto(g, c, i) && |c| == Level(g, i) + 1;
    var m := |c| - 1;
    p := c[m - 1];
    assert Grounded(g, c[m - 1]);
    ChainPrefix(g, c, m);
    forall k | 0 <= k < m - 1 ensures Grounded(g, c[..m][k]) {
      assert c[..m][k] == c[k];
    }
    assert ChainInto(g, c[..m], p);
    LevelAbove(g, i, p);
  }

  /** Conversely, the two facts above determine the level. */
  lemma LevelCharacterised(g: Graph, i: nat, len: nat)
    requires WellFormed(g) && i < |g|
    requires forall p :: p in g[i] && Grounded(g, p) ==> Level(g, p) < len
    requires len == 0 || exists p :: p in g[i] && Grounded(g, p) && Level(g, p) + 1 == len
    ensures Level(g, i) == len
  {
    if len > 0 {
      var p :| p in g[i] && Grounded(g, p) && Level(g, p) + 1 == len;
      LevelAbove(g, i, p);
    }
    if Level(g, i) > 0 {
      var q := LevelWitness(g, i);
    }
  }
}
