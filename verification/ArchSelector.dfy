/** Static DAG analysis: Kahn's algorithm with level relaxation, level groups and the
    critical path (crates/apollo-core/src/arch_selector.rs). */
module ArchSelector {
  import opened Options
  import opened Orchestration
  import opened DependencyGraph

  datatype DagMetrics = DagMetrics(
    stepCount: nat,
    maxParallelWidth: nat,
    criticalPathLength: nat,
    criticalPath: seq<string>,
    parallelGroups: seq<seq<string>>)

  function Max(a: nat, b: nat): nat {
    if a >= b then a else b
  }

  function SeqMax(s: seq<nat>): (m: nat)
    requires s != []
    ensures m in s && forall k :: 0 <= k < |s| ==> s[k] <= m
  {
    if |s| == 1 then s[0] else Max(SeqMax(s[..|s| - 1]), s[|s| - 1])
  }

  // ---- the static plan, defined from longest-chain levels ----

  ghost predicate LevelIs(g: Graph, i: nat, lvl: nat)
    requires i < |g|
  {
    Level(g, i) == lvl
  }

  ghost predicate AreLevels(g: Graph, levels: seq<nat>) {
    && |levels| == |g|
    && forall i {:trigger LevelIs(g, i, levels[i])} :: 0 <= i < |g| ==> LevelIs(g, i, levels[i])
  }

  /** The level of every step. */
  ghost function Levels(g: Graph): (levels: seq<nat>)
    ensures AreLevels(g, levels)
  {
    assert AreLevels(g, seq(|g|, i requires 0 <= i < |g| => Level(g, i)));
    var levels: seq<nat> :| AreLevels(g, levels);
    levels
  }

  lemma LevelsAt(g: Graph, i: nat)
    requires i < |g|
    ensures Levels(g)[i] == Level(g, i)
  {
    assert LevelIs(g, i, Levels(g)[i]);
  }

  lemma LevelsAreUnique(g: Graph, levels: seq<nat>)
    requires |levels| == |g| && forall i :: 0 <= i < |g| ==> levels[i] == Level(g, i)
    ensures levels == Levels(g)
  {
    forall i | 0 <= i < |g| ensures levels[i] == Levels(g)[i] { LevelsAt(g, i); }
  }

  /** The ids of the first n steps that lie on level `lvl`, in definition order. */
  ghost function IdsAtLevel(def: WorkflowDef, levels: seq<nat>, lvl: nat, n: nat): seq<string>
    requires n <= |def.steps| == |levels|
  {
    if n == 0 then []
    else
      var init := IdsAtLevel(def, levels, lvl, n - 1);
      if levels[n - 1] == lvl then init + [def.steps[n - 1].stepId] else init
  }

  /** One more than the highest level in use; 0 for the empty workflow. */
  ghost function LevelCount(levels: seq<nat>): (h: nat)
    ensures forall i :: 0 <= i < |levels| ==> levels[i] < h
    ensures levels != [] ==> exists i :: 0 <= i < |levels| && levels[i] + 1 == h
    ensures levels == [] ==> h == 0
  {
    if levels == [] then 0 else SeqMax(levels) + 1
  }

  ghost function PlanUpTo(def: WorkflowDef, levels: seq<nat>, h: nat): (groups: seq<seq<string>>)
    requires |def.steps| == |levels|
    ensures |groups| == h && forall l :: 0 <= l < h ==> groups[l] == IdsAtLevel(def, levels, l, |levels|)
  {
    if h == 0 then [] else PlanUpTo(def, levels, h - 1) + [IdsAtLevel(def, levels, h - 1, |levels|)]
  }

  /** One group per level in use, lowest level first. */
  ghost function PlanGroups(def: WorkflowDef): seq<seq<string>> {
    var levels := Levels(GraphOf(def));
    PlanUpTo(def, levels, LevelCount(levels))
  }

  // ---- edge bookkeeping ----

  /** Successor lists that hold each edge as often as the predecessor lists do. */
  ghost predicate Transposed(g: Graph, succ: seq<seq<nat>>) {
    && |succ| == |g|
    && (forall j, i :: 0 <= j < |g| && 0 <= i < |g| ==> multiset(succ[j])[i] == multiset(g[i])[j])
    && (forall j, i :: 0 <= j < |g| && i in succ[j] ==> i < |g|)
  }

  /** How many entries of `ps` have not been popped yet. */
  ghost function Open(ps: seq<nat>, popped: seq<nat>): nat {
    if ps == [] then 0
    else Open(ps[..|ps| - 1], popped) + (if ps[|ps| - 1] in popped then 0 else 1)
  }

  ghost predicate AllIn(ps: seq<nat>, popped: seq<nat>) {
    forall p :: p in ps ==> p in popped
  }

  lemma AllInSplits(ps: seq<nat>, popped: seq<nat>)
    requires ps != []
    ensures AllIn(ps, popped) <==> AllIn(ps[..|ps| - 1], popped) && ps[|ps| - 1] in popped
  {
    assert ps == ps[..|ps| - 1] + [ps[|ps| - 1]];
  }

  lemma {:induction false} OpenZero(ps: seq<nat>, popped: seq<nat>)
    ensures Open(ps, popped) == 0 <==> AllIn(ps, popped)
    ensures Open(ps, popped) <= |ps|
    ensures popped == [] ==> Open(ps, popped) == |ps|
  {
    if ps != [] {
      hide AllIn;
      OpenZero(ps[..|ps| - 1], popped);
      AllInSplits(ps, popped);
    }
  }

  lemma {:induction false} OpenPop(ps: seq<nat>, popped: seq<nat>, node: nat)
    requires node !in popped
    ensures multiset(ps)[node] <= Open(ps, popped)
    ensures Open(ps, popped + [node]) == Open(ps, popped) - multiset(ps)[node]
  {
    if ps != [] {
      var init, p := ps[..|ps| - 1], ps[|ps| - 1];
      OpenPop(init, popped, node);
      assert ps == init + [p];
      assert multiset(ps) == multiset(init) + multiset{p};
    }
  }

  /** One more than the highest value among the popped predecessors; 0 if there is none. */
  ghost function Relaxed(ps: seq<nat>, popped: seq<nat>, level: seq<nat>): nat
    requires forall p :: p in popped ==> p < |level|
  {
    if ps == [] then 0
    else
      var p := ps[|ps| - 1];
      var rest := Relaxed(ps[..|ps| - 1], popped, level);
      if p in popped then Max(rest, level[p] + 1) else rest
  }

  lemma {:induction false} RelaxedPop(ps: seq<nat>, popped: seq<nat>, node: nat, level: seq<nat>, level': seq<nat>)
    requires node !in popped && node < |level| == |level'|
    requires forall p :: p in popped ==> p < |level|
    requires forall p :: p in popped || p == node ==> level'[p] == level[p]
    ensures Relaxed(ps, popped + [node], level')
         == if node in ps then Max(Relaxed(ps, popped, level), level[node] + 1) else Relaxed(ps, popped, level)
  {
    if ps != [] {
      var init, p := ps[..|ps| - 1], ps[|ps| - 1];
      RelaxedPop(init, popped, node, level, level');
      assert ps == init + [p];
    }
  }

  lemma {:induction false} RelaxedBounds(ps: seq<nat>, popped: seq<nat>, level: seq<nat>)
    requires forall p :: p in popped ==> p < |level|
    ensures forall p :: p in ps && p in popped ==> level[p] < Relaxed(ps, popped, level)
    ensures Relaxed(ps, popped, level) > 0 ==>
              exists p :: p in ps && p in popped && level[p] + 1 == Relaxed(ps, popped, level)
  {
    if ps != [] {
      var init, p := ps[..|ps| - 1], ps[|ps| - 1];
      RelaxedBounds(init, popped, level);
      assert ps == init + [p];
    }
  }

  lemma {:induction false} RelaxedNone(ps: seq<nat>, level: seq<nat>)
    ensures Relaxed(ps, [], level) == 0
  {
    if ps != [] { RelaxedNone(ps[..|ps| - 1], level); }
  }

  // ---- what Kahn's loop establishes ----

  ghost predicate HasUnpoppedPred(g: Graph, order: seq<nat>, i: nat)
    requires i < |g|
  {
    exists p :: p in g[i] && p !in order
  }

  ghost predicate PredsBefore(g: Graph, order: seq<nat>, k: nat)
    requires k < |order| && order[k] < |g|
  {
    forall p :: p in g[order[k]] ==> p in order[..k]
  }

  /** A repetition-free dependency order that contains a step iff all its predecessors are in it. */
  ghost predicate KahnOrder(g: Graph, order: seq<nat>) {
    && Distinct(order)
    && (forall k :: 0 <= k < |order| ==> order[k] < |g|)
    && (forall k {:trigger PredsBefore(g, order, k)} :: 0 <= k < |order| ==> PredsBefore(g, order, k))
    && (forall i {:trigger HasUnpoppedPred(g, order, i)} :: 0 <= i < |g| && i !in order ==>
      HasUnpoppedPred(g, order, i))
  }

  lemma {:induction false} PoppedAreGrounded(g: Graph, order: seq<nat>, k: nat)
    requires WellFormed(g) && KahnOrder(g, order) && k < |order|
    ensures Grounded(g, order[k])
  {
    assert PredsBefore(g, order, k);
    forall p | p in g[order[k]] ensures Grounded(g, p) {
      var j :| 0 <= j < k && order[..k][j] == p;
      PoppedAreGrounded(g, order, j);
    }
    GroundedStep(g, order[k]);
  }

  /** An unpopped step has unpopped ancestors without end, so some chain into it repeats. */
  lemma {:induction false} UnpoppedChain(g: Graph, order: seq<nat>, i: nat, len: nat) returns (c: seq<nat>)
    requires WellFormed(g) && KahnOrder(g, order) && i < |g| && i !in order
    ensures Chain(g, c) && Last(c) == i && |c| == len + 1
    decreases len
  {
    if len == 0 {
      c := [i];
    } else {
      assert HasUnpoppedPred(g, order, i);
      var p :| p in g[i] && p !in order;
      var d := UnpoppedChain(g, order, p, len - 1);
      ChainSnoc(g, d, i);
      c := d + [i];
    }
  }

  /** Kahn's loop pops exactly the steps with no ancestor on a cycle. */
  lemma KahnPopsGrounded(g: Graph, order: seq<nat>)
    requires WellFormed(g) && KahnOrder(g, order)
    ensures forall i :: 0 <= i < |g| ==> (i in order <==> Grounded(g, i))
  {
    forall i | 0 <= i < |g| ensures i in order <==> Grounded(g, i) {
      if i in order {
        var k :| 0 <= k < |order| && order[k] == i;
        PoppedAreGrounded(g, order, k);
      } else {
        var c := UnpoppedChain(g, order, i, |g|);
        if Distinct(c) { Pigeonhole(c, |g|); }
      }
    }
  }

  lemma {:induction false} RelaxedIsLevelPopped(g: Graph, order: seq<nat>, level: seq<nat>, k: nat)
    requires WellFormed(g) && KahnOrder(g, order) && k < |order| && |level| == |g|
    requires forall i :: 0 <= i < |g| ==> level[i] == Relaxed(g[i], order, level)
    ensures level[order[k]] == Level(g, order[k])
  {
    var i := order[k];
    assert PredsBefore(g, order, k);
    KahnPopsGrounded(g, order);
    forall p | p in g[i] ensures p in order && level[p] == Level(g, p) {
      var j :| 0 <= j < k && order[..k][j] == p;
      RelaxedIsLevelPopped(g, order, level, j);
    }
    RelaxedBounds(g[i], order, level);
    LevelCharacterised(g, i, level[i]);
  }

  /** Relaxation over a Kahn order computes longest-chain levels, on and off cycles. */
  lemma RelaxedIsLevel(g: Graph, order: seq<nat>, level: seq<nat>)
    requires WellFormed(g) && KahnOrder(g, order) && |level| == |g|
    requires forall i :: 0 <= i < |g| ==> level[i] == Relaxed(g[i], order, level)
    ensures forall i :: 0 <= i < |g| ==> level[i] == Level(g, i)
  {
    KahnPopsGrounded(g, order);
    forall p | p in order ensures level[p] == Level(g, p) {
      var k :| 0 <= k < |order| && order[k] == p;
      RelaxedIsLevelPopped(g, order, level, k);
    }
    forall i | 0 <= i < |g| ensures level[i] == Level(g, i) {
      RelaxedBounds(g[i], order, level);
      LevelCharacterised(g, i, level[i]);
    }
  }

  // ---- the algorithm ----

  /** Multiplicity of edge j -> i' once rows 0..i and the entries `part` of row i are entered. */
  ghost function Entered(g: Graph, i: nat, part: seq<nat>, j: nat, i': nat): nat
    requires i' < |g|
  {
    if i' < i then multiset(g[i'])[j] else if i' == i then multiset(part)[j] else 0
  }

  ghost predicate TransposedUpTo(g: Graph, succ: seq<seq<nat>>, i: nat, part: seq<nat>) {
    && |succ| == |g|
    && (forall j, i' :: 0 <= j < |g| && 0 <= i' < |g| ==> multiset(succ[j])[i'] == Entered(g, i, part, j, i'))
    && (forall j, i' :: 0 <= j < |g| && i' in succ[j] ==> i' < |g|)
  }

  lemma EnterEdge(g: Graph, succ: seq<seq<nat>>, i: nat, part: seq<nat>, j: nat)
    requires i < |g| && j < |g| && TransposedUpTo(g, succ, i, part)
    ensures TransposedUpTo(g, succ[j := succ[j] + [i]], i, part + [j])
  {
    var succ' := succ[j := succ[j] + [i]];
    forall j', i' | 0 <= j' < |g| && 0 <= i' < |g|
      ensures multiset(succ'[j'])[i'] == Entered(g, i, part + [j], j', i')
    {
      assert multiset(succ[j'])[i'] == Entered(g, i, part, j', i');
    }
  }

  lemma NextRow(g: Graph, succ: seq<seq<nat>>, i: nat)
    requires i < |g| && TransposedUpTo(g, succ, i, g[i])
    ensures TransposedUpTo(g, succ, i + 1, [])
  {
    forall j, i' | 0 <= j < |g| && 0 <= i' < |g|
      ensures multiset(succ[j])[i'] == Entered(g, i + 1, [], j, i')
    {
      assert multiset(succ[j])[i'] == Entered(g, i, g[i], j, i');
    }
  }

  lemma AllRows(g: Graph, succ: seq<seq<nat>>)
    requires TransposedUpTo(g, succ, |g|, [])
    ensures Transposed(g, succ)
  {
    forall j, i | 0 <= j < |g| && 0 <= i < |g| ensures multiset(succ[j])[i] == multiset(g[i])[j] {
      assert multiset(succ[j])[i] == Entered(g, |g|, [], j, i);
    }
  }

  method BuildSuccessors(def: WorkflowDef, idx: map<string, nat>, ghost g: Graph) returns (successors: seq<seq<nat>>)
    requires |g| == |def.steps| && forall id :: id in idx ==> idx[id] < |g|
    requires forall i :: 0 <= i < |g| ==> g[i] == Resolve(def.steps[i].dependsOn, idx)
    ensures Transposed(g, successors)
  {
    var n := |def.steps|;
    successors := seq(n, _ => []);
    for i := 0 to n
      invariant TransposedUpTo(g, successors, i, [])
    {
      var deps := def.steps[i].dependsOn;
      assert Resolve(deps[..0], idx) == [];
      for k := 0 to |deps|
        invariant TransposedUpTo(g, successors, i, Resolve(deps[..k], idx))
      {
        assert deps[..k + 1][..k] == deps[..k];
        if deps[k] in idx {
          var j := idx[deps[k]];
          EnterEdge(g, successors, i, Resolve(deps[..k], idx), j);
          successors := successors[j := successors[j] + [i]];
        }
      }
      assert deps[..|deps|] == deps;
      NextRow(g, successors, i);
    }
    AllRows(g, successors);
  }

  /** State of Kahn's loop between two pops. */
  ghost predicate KahnInv(g: Graph, popped: seq<nat>, queue: seq<nat>, remaining: seq<nat>, level: seq<nat>) {
    && |remaining| == |level| == |g|
    && Distinct(popped + queue)
    && (forall k :: 0 <= k < |popped| ==> popped[k] < |g|)
    && (forall i :: i in popped || i in queue <==> 0 <= i < |g| && remaining[i] == 0)
    && (forall k {:trigger PredsBefore(g, popped, k)} :: 0 <= k < |popped| ==> PredsBefore(g, popped, k))
    && (forall i :: 0 <= i < |g| ==> remaining[i] == Open(g[i], popped))
    && (forall i :: 0 <= i < |g| ==> level[i] == Relaxed(g[i], popped, level))
  }

  /** Facts about the step at the head of the queue that its relaxation relies on. */
  lemma PopFacts(g: Graph, popped: seq<nat>, queue: seq<nat>, remaining: seq<nat>, level: seq<nat>)
    requires WellFormed(g) && KahnInv(g, popped, queue, remaining, level) && queue != []
    ensures queue[0] < |g| && queue[0] !in popped
    ensures forall p :: p in g[queue[0]] ==> p in popped
    ensures queue[0] !in g[queue[0]]
    ensures forall p :: p in popped ==> queue[0] !in g[p]
    ensures forall i :: 0 <= i < |g| ==> multiset(g[i])[queue[0]] <= remaining[i]
    ensures |popped| < |g|
  {
    var node := queue[0];
    assert node in queue;
    assert (popped + queue)[|popped|] == node;
    forall k | 0 <= k < |popped| ensures popped[k] != node {
      assert (popped + queue)[k] == popped[k];
    }
    OpenZero(g[node], popped);
    forall p | p in popped ensures node !in g[p] {
      var k :| 0 <= k < |popped| && popped[k] == p;
      assert PredsBefore(g, popped, k) && node !in popped[..k];
    }
    forall i | 0 <= i < |g| ensures multiset(g[i])[node] <= remaining[i] {
      OpenPop(g[i], popped, node);
    }
    forall a, b | 0 <= a < b < |popped + [node]| ensures (popped + [node])[a] != (popped + [node])[b] {
      assert (popped + [node])[a] == (popped + queue)[a] && (popped + [node])[b] == (popped + queue)[b];
    }
    Pigeonhole(popped + [node], |g|);
  }

  /** Popping the head and relaxing its successors keeps the invariant. */
  lemma KahnStep(g: Graph, popped: seq<nat>, queue: seq<nat>, remaining: seq<nat>, level: seq<nat>,
                 outs: seq<nat>, added: seq<nat>, remaining': seq<nat>, level': seq<nat>)
    requires WellFormed(g) && KahnInv(g, popped, queue, remaining, level) && queue != []
    requires |remaining'| == |level'| == |g|
    requires forall i :: 0 <= i < |g| ==> multiset(outs)[i] == multiset(g[i])[queue[0]]
    requires forall i :: 0 <= i < |g| ==> remaining'[i] + multiset(outs)[i] == remaining[i]
    requires queue[0] < |g| && forall i :: 0 <= i < |g| ==>
      level'[i] == if i in outs then Max(level[i], level[queue[0]] + 1) else level[i]
    requires Distinct(added) && forall i :: i in added <==> 0 <= i < |g| && i in outs && remaining'[i] == 0
    ensures KahnInv(g, popped + [queue[0]], queue[1..] + added, remaining', level')
  {
    PopFacts(g, popped, queue, remaining, level);
    var node := queue[0];
    var popped' := popped + [node];
    forall i | 0 <= i < |g|
      ensures remaining'[i] == Open(g[i], popped') && level'[i] == Relaxed(g[i], popped', level')
    {
      assert i in outs <==> node in g[i] by { assert multiset(outs)[i] == multiset(g[i])[node]; }
      OpenPop(g[i], popped, node);
      forall p | p in popped || p == node ensures level'[p] == level[p] {
        assert multiset(g[p])[node] == 0;
      }
      RelaxedPop(g[i], popped, node, level, level');
    }
    KahnStepQueue(g, popped, queue, remaining, outs, added, remaining');
    forall k | 0 <= k < |popped'| ensures PredsBefore(g, popped', k) {
      assert popped'[..k] == popped[..k];
      if k < |popped| { assert PredsBefore(g, popped, k); }
    }
  }

  lemma KahnStepQueue(g: Graph, popped: seq<nat>, queue: seq<nat>, remaining: seq<nat>,
                      outs: seq<nat>, added: seq<nat>, remaining': seq<nat>)
    requires queue != [] && |remaining| == |remaining'| == |g|
    requires Distinct(popped + queue)
    requires forall i :: i in popped || i in queue <==> 0 <= i < |g| && remaining[i] == 0
    requires forall i :: 0 <= i < |g| ==> remaining'[i] + multiset(outs)[i] == remaining[i]
    requires Distinct(added) && forall i :: i in added <==> 0 <= i < |g| && i in outs && remaining'[i] == 0
    ensures Distinct(popped + [queue[0]] + (queue[1..] + added))
    ensures forall i :: i in popped + [queue[0]] || i in queue[1..] + added <==> 0 <= i < |g| && remaining'[i] == 0
  {
    var old', new' := popped + queue, popped + [queue[0]] + (queue[1..] + added);
    assert queue == [queue[0]] + queue[1..];
    assert new' == old' + added;
    forall i | i in added ensures i !in popped && i !in queue {
      assert multiset(outs)[i] > 0;
    }
    forall a, b | 0 <= a < b < |new'| ensures new'[a] != new'[b] {
      if b < |old'| {
        assert old'[a] != old'[b];
      } else {
        assert new'[b] in added;
        if a < |old'| { assert old'[a] in popped || old'[a] in queue; }
      }
    }
  }

  method RelaxSuccessors(outs: seq<nat>, node: nat, level: array<nat>, remainingIn: array<nat>)
    returns (added: seq<nat>)
    requires level != remainingIn && node < level.Length == remainingIn.Length && node !in outs
    requires forall i :: i in outs ==> i < level.Length
    requires forall i :: 0 <= i < level.Length ==> multiset(outs)[i] <= remainingIn[i]
    modifies level, remainingIn
    ensures forall i :: 0 <= i < level.Length ==> remainingIn[i] + multiset(outs)[i] == old(remainingIn[i])
    ensures forall i :: 0 <= i < level.Length ==>
      level[i] == if i in outs then Max(old(level[i]), old(level[node]) + 1) else old(level[i])
    ensures Distinct(added)
    ensures forall i :: i in added <==> 0 <= i < level.Length && i in outs && remainingIn[i] == 0
  {
    added := [];
    for s := 0 to |outs|
      invariant forall i :: 0 <= i < level.Length ==> remainingIn[i] + multiset(outs[..s])[i] == old(remainingIn[i])
      invariant forall i :: 0 <= i < level.Length ==>
        level[i] == if i in outs[..s] then Max(old(level[i]), old(level[node]) + 1) else old(level[i])
      invariant Distinct(added)
      invariant forall i :: i in added <==> 0 <= i < level.Length && i in outs[..s] && remainingIn[i] == 0
    {
      var succ := outs[s];
      assert succ in outs;
      assert outs == outs[..s] + [succ] + outs[s + 1..];
      assert multiset(outs)[succ] == multiset(outs[..s])[succ] + 1 + multiset(outs[s + 1..])[succ];
      assert outs[..s + 1] == outs[..s] + [succ];
      level[succ] := Max(level[succ], level[node] + 1);
      remainingIn[succ] := remainingIn[succ] - 1;
      if remainingIn[succ] == 0 { added := added + [succ]; }
    }
    assert outs[..|outs|] == outs;
  }

  method Kahn(ghost g: Graph, successors: seq<seq<nat>>, inDegree: seq<nat>)
    returns (topoOrder: seq<nat>, levels: seq<nat>)
    requires WellFormed(g) && Transposed(g, successors)
    requires |inDegree| == |g| && forall i :: 0 <= i < |g| ==> inDegree[i] == |g[i]|
    ensures KahnOrder(g, topoOrder) && |levels| == |g|
    ensures forall i :: 0 <= i < |g| ==> levels[i] == Level(g, i) == Relaxed(g[i], topoOrder, levels)
  {
    var n := |successors|;
    var level := new nat[n](_ => 0);
    var remainingIn := new nat[n](i requires 0 <= i < n => inDegree[i]);
    var queue: seq<nat> := [];
    for i := 0 to n
      invariant Distinct(queue)
      invariant forall j :: j in queue <==> 0 <= j < i && remainingIn[j] == 0
      invariant forall j :: 0 <= j < n ==> remainingIn[j] == inDegree[j] && level[j] == 0
    {
      if remainingIn[i] == 0 { queue := queue + [i]; }
    }
    topoOrder := [];
    forall i | 0 <= i < n ensures Open(g[i], []) == |g[i]| && Relaxed(g[i], [], level[..]) == 0 {
      OpenZero(g[i], []);
      RelaxedNone(g[i], level[..]);
    }
    assert topoOrder + queue == queue;
    assert KahnInv(g, topoOrder, queue, remainingIn[..], level[..]);
    hide KahnInv, KahnOrder, Open, Relaxed;
    while queue != []
      invariant KahnInv(g, topoOrder, queue, remainingIn[..], level[..])
      decreases n - |topoOrder|
    {
      ghost var before, queue0, remaining0, level0 := topoOrder, queue, remainingIn[..], level[..];
      PopFacts(g, before, queue0, remaining0, level0);
      var node := queue[0];
      queue := queue[1..];
      topoOrder := topoOrder + [node];
      var outs := successors[node];
      assert multiset(outs)[node] == multiset(g[node])[node];
      var added := RelaxSuccessors(outs, node, level, remainingIn);
      queue := queue + added;
      KahnStep(g, before, queue0, remaining0, level0, outs, added, remainingIn[..], level[..]);
    }
    levels := level[..];
    KahnDone(g, topoOrder, remainingIn[..], levels);
  }

  /** Once the queue is empty, the popped steps form a Kahn order and the levels are final. */
  lemma KahnDone(g: Graph, order: seq<nat>, remaining: seq<nat>, level: seq<nat>)
    requires WellFormed(g) && KahnInv(g, order, [], remaining, level)
    ensures KahnOrder(g, order)
    ensures forall i :: 0 <= i < |g| ==> level[i] == Level(g, i) == Relaxed(g[i], order, level)
  {
    assert order + [] == order;
    forall k | 0 <= k < |order| ensures PredsBefore(g, order, k) {
    }
    forall i | 0 <= i < |g| && i !in order ensures HasUnpoppedPred(g, order, i) {
      OpenZero(g[i], order);
    }
    RelaxedIsLevel(g, order, level);
  }

  // ---- level groups ----

  method GroupByLevel(def: WorkflowDef, level: seq<nat>) returns (groups: seq<seq<string>>)
    requires |level| == |def.steps| > 0
    ensures groups == PlanUpTo(def, level, LevelCount(level))
  {
    var maxLevel := SeqMax(level);
    groups := seq(maxLevel + 1, _ => []);
    for i := 0 to |level|
      invariant |groups| == maxLevel + 1
      invariant forall l :: 0 <= l <= maxLevel ==> groups[l] == IdsAtLevel(def, level, l, i)
    {
      var lvl := level[i];
      groups := groups[lvl := groups[lvl] + [def.steps[i].stepId]];
    }
  }

  // ---- critical path ----

  lemma {:induction false} RelaxedSame(ps: seq<nat>, a: seq<nat>, b: seq<nat>, level: seq<nat>)
    requires forall p :: p in a ==> p < |level|
    requires forall p :: p in b ==> p < |level|
    requires forall p :: p in ps ==> (p in a <==> p in b)
    ensures Relaxed(ps, a, level) == Relaxed(ps, b, level)
  {
    if ps != [] {
      var init := ps[..|ps| - 1];
      assert ps == init + [ps[|ps| - 1]];
      RelaxedSame(init, a, b, level);
    }
  }

  /** `dp` holds relaxed level + 1 over the processed steps; `parent` justifies every value above 1. */
  ghost predicate PathInv(g: Graph, done: seq<nat>, levels: seq<nat>, dp: seq<nat>, parent: seq<Option<nat>>)
    requires |levels| == |g| && forall p :: p in done ==> p < |g|
  {
    && |dp| == |parent| == |g|
    && (forall i :: 0 <= i < |g| ==> dp[i] == Relaxed(g[i], done, levels) + 1)
    && (forall i :: 0 <= i < |g| ==> (parent[i] == None <==> dp[i] == 1))
    && (forall i :: 0 <= i < |g| && parent[i].Some? ==>
          parent[i].value in g[i] && parent[i].value in done && levels[parent[i].value] + 2 == dp[i])
  }

  lemma PathStep(g: Graph, done: seq<nat>, levels: seq<nat>, dp: seq<nat>, parent: seq<Option<nat>>,
                 node: nat, outs: seq<nat>, dp': seq<nat>, parent': seq<Option<nat>>)
    requires |levels| == |g| && (forall p :: p in done ==> p < |g|) && PathInv(g, done, levels, dp, parent)
    requires node < |g| && node !in done && dp[node] == levels[node] + 1
    requires forall i :: 0 <= i < |g| ==> (i in outs <==> node in g[i])
    requires |dp'| == |parent'| == |g|
    requires forall i :: 0 <= i < |g| ==>
      if i in outs && dp[node] + 1 > dp[i] then dp'[i] == dp[node] + 1 && parent'[i] == Some(node)
      else dp'[i] == dp[i] && parent'[i] == parent[i]
    ensures PathInv(g, done + [node], levels, dp', parent')
  {
    forall i | 0 <= i < |g| ensures dp'[i] == Relaxed(g[i], done + [node], levels) + 1 {
      RelaxedPop(g[i], done, node, levels, levels);
    }
  }

  method ExtendPaths(outs: seq<nat>, node: nat, dp: array<nat>, parent: array<Option<nat>>)
    requires node < dp.Length == parent.Length && node !in outs && forall i :: i in outs ==> i < dp.Length
    modifies dp, parent
    ensures forall i :: 0 <= i < dp.Length ==>
      if i in outs && old(dp[node]) + 1 > old(dp[i]) then dp[i] == old(dp[node]) + 1 && parent[i] == Some(node)
      else dp[i] == old(dp[i]) && parent[i] == old(parent[i])
  {
    for s := 0 to |outs|
      invariant forall i :: 0 <= i < dp.Length ==>
        if i in outs[..s] && old(dp[node]) + 1 > old(dp[i]) then dp[i] == old(dp[node]) + 1 && parent[i] == Some(node)
        else dp[i] == old(dp[i]) && parent[i] == old(parent[i])
    {
      var succ := outs[s];
      assert succ in outs && outs[..s + 1] == outs[..s] + [succ];
      if dp[node] + 1 > dp[succ] {
        dp[succ] := dp[node] + 1;
        parent[succ] := Some(node);
      }
    }
    assert outs[..|outs|] == outs;
  }

  /** `max_by_key` keeps the last of several maxima. */
  function LastArgMax(s: seq<nat>): (k: nat)
    requires s != []
    ensures k < |s|
    ensures forall j :: 0 <= j < |s| ==> s[j] <= s[k]
    ensures forall j :: k < j < |s| ==> s[j] < s[k]
  {
    if |s| == 1 then 0
    else
      var k := LastArgMax(s[..|s| - 1]);
      if s[|s| - 1] >= s[k] then |s| - 1 else k
  }

  function Reversed<T>(s: seq<T>): seq<T> {
    if s == [] then [] else Reversed(s[1..]) + [s[0]]
  }

  lemma {:induction false} ReversedTwice<T>(s: seq<T>)
    ensures Reversed(Reversed(s)) == s
  {
    if s != [] {
      ReversedTwice(s[1..]);
      ReversedSnoc(Reversed(s[1..]), s[0]);
    }
  }

  lemma {:induction false} ReversedSnoc<T>(s: seq<T>, x: T)
    ensures Reversed(s + [x]) == [x] + Reversed(s)
  {
    if s == [] {
      assert s + [x] == [x];
    } else {
      assert (s + [x])[1..] == s[1..] + [x];
      ReversedSnoc(s[1..], x);
    }
  }

  ghost function IdsOf(def: WorkflowDef, c: seq<nat>): seq<string>
    requires forall k :: 0 <= k < |c| ==> c[k] < |def.steps|
  {
    seq(|c|, k requires 0 <= k < |c| => def.steps[c[k]].stepId)
  }

  lemma NextInOrder(g: Graph, successors: seq<seq<nat>>, order: seq<nat>, levels: seq<nat>, k: nat)
    requires WellFormed(g) && Transposed(g, successors) && KahnOrder(g, order) && |levels| == |g| && k < |order|
    requires levels[order[k]] == Relaxed(g[order[k]], order, levels)
    ensures forall p :: p in order[..k] ==> p < |g|
    ensures order[k] !in order[..k] && order[k] !in g[order[k]]
    ensures Relaxed(g[order[k]], order[..k], levels) == levels[order[k]]
    ensures forall i :: 0 <= i < |g| ==> (i in successors[order[k]] <==> order[k] in g[i])
  {
    var node, done := order[k], order[..k];
    assert PredsBefore(g, order, k) && node !in done;
    forall p | p in g[node] ensures p in done <==> p in order {
      assert p in order[..k];
    }
    RelaxedSame(g[node], done, order, levels);
    forall i | 0 <= i < |g| ensures i in successors[node] <==> node in g[i] {
      assert multiset(successors[node])[i] == multiset(g[i])[node];
    }
  }

  method LongestPaths(ghost g: Graph, successors: seq<seq<nat>>, topoOrder: seq<nat>, ghost levels: seq<nat>)
    returns (dps: seq<nat>, parents: seq<Option<nat>>)
    requires WellFormed(g) && Transposed(g, successors) && KahnOrder(g, topoOrder) && |levels| == |g|
    requires forall i :: 0 <= i < |g| ==> levels[i] == Relaxed(g[i], topoOrder, levels)
    ensures PathInv(g, topoOrder, levels, dps, parents)
  {
    var n := |successors|;
    var dp := new nat[n](_ => 1);
    var parent := new Option<nat>[n](_ => None);
    forall i | 0 <= i < n ensures Relaxed(g[i], topoOrder[..0], levels) == 0 {
      RelaxedNone(g[i], levels);
    }
    for k := 0 to |topoOrder|
      invariant PathInv(g, topoOrder[..k], levels, dp[..], parent[..])
    {
      var node := topoOrder[k];
      var outs := successors[node];
      ghost var done, dp0, parent0 := topoOrder[..k], dp[..], parent[..];
      NextInOrder(g, successors, topoOrder, levels, k);
      ExtendPaths(outs, node, dp, parent);
      PathStep(g, done, levels, dp0, parent0, node, outs, dp[..], parent[..]);
      assert topoOrder[..k + 1] == done + [node];
    }
    assert topoOrder[..|topoOrder|] == topoOrder;
    dps, parents := dp[..], parent[..];
  }

  method CriticalPath(def: WorkflowDef, ghost g: Graph, ghost order: seq<nat>, ghost levels: seq<nat>,
                      dp: seq<nat>, parent: seq<Option<nat>>)
    returns (cpLen: nat, cpPath: seq<string>, ghost trail: seq<nat>)
    requires WellFormed(g) && |g| == |def.steps| == |levels| > 0 && KahnOrder(g, order)
    requires PathInv(g, order, levels, dp, parent)
    requires forall i :: 0 <= i < |g| ==> dp[i] == levels[i] + 1
    ensures forall i :: 0 <= i < |g| ==> levels[i] + 1 <= cpLen
    ensures Chain(g, trail) && |trail| == cpLen && cpPath == IdsOf(def, trail)
    ensures forall k :: 0 <= k < |trail| - 1 ==> trail[k] in order
    ensures forall j :: Last(trail) < j < |g| ==> levels[j] + 1 < cpLen
  {
    var cpEnd := LastArgMax(dp);
    cpLen := dp[cpEnd];
    cpPath := [];
    trail := [];
    hide KahnOrder, PathInv, TrailInv, IdsOf, Reversed, WellFormed, Chain;
    var cur: Option<nat> := Some(cpEnd);
    while cur.Some?
      invariant TrailInv(g, order, trail)
      invariant cpPath == Reversed(IdsOf(def, trail))
      invariant if trail == [] then cur == Some(cpEnd) else Last(trail) == cpEnd
      invariant cur.Some? ==> cur.value < |dp| && |trail| + dp[cur.value] == cpLen
                              && (trail != [] ==> cur.value in g[trail[0]] && cur.value in order)
      invariant cur.None? ==> |trail| == cpLen
      decreases if cur.Some? then dp[cur.value] else 0
    {
      cpPath := cpPath + [def.steps[cur.value].stepId];
      TrailGrows(def, g, order, trail, cur.value);
      ParentStep(g, order, levels, dp, parent, cur.value);
      trail := [cur.value] + trail;
      cur := parent[cur.value];
    }
    ReversedTwice(IdsOf(def, trail));
    cpPath := Reversed(cpPath);
  }

  /** A dependency chain all of whose steps but the last have been popped. */
  ghost predicate TrailInv(g: Graph, order: seq<nat>, trail: seq<nat>) {
    && (forall k :: 0 <= k < |trail| ==> trail[k] < |g|)
    && (forall k :: 0 < k < |trail| ==> trail[k - 1] in g[trail[k]])
    && (forall k :: 0 <= k < |trail| - 1 ==> trail[k] in order)
  }

  lemma TrailGrows(def: WorkflowDef, g: Graph, order: seq<nat>, trail: seq<nat>, i: nat)
    requires |g| == |def.steps| && TrailInv(g, order, trail) && i < |g|
    requires trail != [] ==> i in g[trail[0]] && i in order
    ensures TrailInv(g, order, [i] + trail)
    ensures Reversed(IdsOf(def, [i] + trail)) == Reversed(IdsOf(def, trail)) + [def.steps[i].stepId]
  {
    assert IdsOf(def, [i] + trail)[1..] == IdsOf(def, trail);
  }

  lemma ParentStep(g: Graph, order: seq<nat>, levels: seq<nat>, dp: seq<nat>, parent: seq<Option<nat>>, i: nat)
    requires WellFormed(g) && |levels| == |g| && KahnOrder(g, order) && PathInv(g, order, levels, dp, parent) && i < |g|
    requires forall j :: 0 <= j < |g| ==> dp[j] == levels[j] + 1
    ensures match parent[i]
            case None => dp[i] == 1
            case Some(p) => p < |g| && p in g[i] && p in order && dp[p] + 1 == dp[i]
  {
  }

  // ---- the whole analysis ----

  ghost predicate IsWidth(groups: seq<seq<string>>, width: nat) {
    && (forall l :: 0 <= l < |groups| ==> |groups[l]| <= width)
    && (groups != [] ==> exists l :: 0 <= l < |groups| && |groups[l]| == width)
  }

  lemma TrailIsLongest(g: Graph, order: seq<nat>, trail: seq<nat>, cpLen: nat)
    requires WellFormed(g) && KahnOrder(g, order) && Chain(g, trail) && |trail| == cpLen && Last(trail) < |g|
    requires forall k :: 0 <= k < |trail| - 1 ==> trail[k] in order
    requires forall i :: 0 <= i < |g| ==> Level(g, i) + 1 <= cpLen
    ensures ChainInto(g, trail, Last(trail)) && cpLen == LevelCount(Levels(g))
  {
    KahnPopsGrounded(g, order);
    hide Chain, AreLevels;
    var levels, last := Levels(g), Last(trail);
    assert ChainInto(g, trail, last) && |trail| <= Level(g, last) + 1;
    var i :| 0 <= i < |g| && levels[i] + 1 == LevelCount(levels);
    LevelsAt(g, i);
    LevelsAt(g, last);
  }

  function MaxWidth(groups: seq<seq<string>>): (width: nat)
    requires groups != []
    ensures IsWidth(groups, width)
  {
    var l := |groups| - 1;
    if l == 0 then |groups[0]| else Max(MaxWidth(groups[..l]), |groups[l]|)
  }

  /** `path` names, in order, the steps of the dependency chain c, all but the last of them grounded; of the steps with
      chains that long into them, c ends at the last in definition order. */
  ghost predicate Trail(def: WorkflowDef, g: Graph, c: seq<nat>, path: seq<string>)
    requires |g| == |def.steps|
  {
    && c != [] && ChainInto(g, c, Last(c)) && path == IdsOf(def, c)
    && forall j :: Last(c) < j < |g| ==> Level(g, j) + 1 < |c|
  }

  /** Levels and critical path from the resolved dependency lists. */
  method LevelsAndPath(def: WorkflowDef, idx: map<string, nat>, ghost g: Graph)
    returns (level: seq<nat>, cpLen: nat, cpPath: seq<string>, ghost trail: seq<nat>)
    requires WellFormed(g) && |g| == |def.steps| > 0 && forall id :: id in idx ==> idx[id] < |g|
    requires forall i :: 0 <= i < |g| ==> g[i] == Resolve(def.steps[i].dependsOn, idx)
    ensures level == Levels(g)
    ensures Trail(def, g, trail, cpPath)
    ensures |trail| == cpLen == LevelCount(level)
  {
    var inDegree := seq(|def.steps|, i requires 0 <= i < |def.steps| => |Resolve(def.steps[i].dependsOn, idx)|);
    var successors := BuildSuccessors(def, idx, g);
    var topoOrder, levels := Kahn(g, successors, inDegree);
    var dp, parent := LongestPaths(g, successors, topoOrder, levels);
    cpLen, cpPath, trail := CriticalPath(def, g, topoOrder, levels, dp, parent);
    TrailIsLongest(g, topoOrder, trail, cpLen);
    LevelsAreUnique(g, levels);
    level := levels;
  }

  /** For every definition: cyclic, self-dependent and duplicated dependencies included. */
  method AnalyseDag(def: WorkflowDef) returns (m: DagMetrics)
    ensures m.stepCount == |def.steps|
    ensures m.parallelGroups == PlanGroups(def)
    ensures IsWidth(m.parallelGroups, m.maxParallelWidth)
    ensures m.criticalPathLength == |m.parallelGroups| == |m.criticalPath|
    ensures def.steps == [] ==> m == DagMetrics(0, 0, 0, [], [])
    ensures def.steps != [] ==> exists c: seq<nat> :: Trail(def, GraphOf(def), c, m.criticalPath)
  {
    var n := |def.steps|;
    if n == 0 {
      return DagMetrics(0, 0, 0, [], []);
    }
    ghost var g := GraphOf(def);
    var idx := StepIndex(def.steps);
    var level, cpLen, cpPath, trail := LevelsAndPath(def, idx, g);
    var groups := GroupByLevel(def, level);
    m := DagMetrics(n, MaxWidth(groups), cpLen, cpPath, groups);
  }

  // ---- properties of the plan ----

  /** Along a chain of grounded steps the level rises by at least one per edge. */
  lemma {:induction false} ChainRaisesLevel(g: Graph, c: seq<nat>, i: nat)
    requires ChainInto(g, c, i)
    ensures c[0] < |g| && i < |g| && Level(g, c[0]) + |c| - 1 <= Level(g, i)
  {
    var m := |c| - 1;
    if m > 0 {
      ChainPrefix(g, c, m);
      forall k | 0 <= k < m - 1 ensures Grounded(g, c[..m][k]) {
        assert c[..m][k] == c[k];
      }
      ChainRaisesLevel(g, c[..m], c[m - 1]);
      assert Grounded(g, c[m - 1]);
      LevelAbove(g, i, c[m - 1]);
    }
  }

  /** No two steps of one group depend on each other, even transitively. */
  lemma GroupIsIndependent(def: WorkflowDef, k: nat, i: nat, j: nat, c: seq<nat>)
    requires UniqueIds(def) && Acyclic(GraphOf(def)) && k < |PlanGroups(def)| && i < |def.steps| && j < |def.steps|
    requires def.steps[i].stepId in PlanGroups(def)[k] && def.steps[j].stepId in PlanGroups(def)[k]
    requires Chain(GraphOf(def), c) && |c| > 1
    ensures !(c[0] == i && Last(c) == j)
  {
    var g := GraphOf(def);
    GroupLevel(def, Levels(g), k, |g|, i);
    GroupLevel(def, Levels(g), k, |g|, j);
    LevelsAt(g, i);
    LevelsAt(g, j);
    ChainRaisesLevel(g, c, Last(c));
  }

  /** With distinct ids, a step is in the group of its level only. */
  lemma {:induction false} GroupLevel(def: WorkflowDef, levels: seq<nat>, lvl: nat, n: nat, i: nat)
    requires UniqueIds(def) && n <= |def.steps| == |levels| && i < |def.steps|
    requires def.steps[i].stepId in IdsAtLevel(def, levels, lvl, n)
    ensures levels[i] == lvl
  {
    if n - 1 != i || levels[i] != lvl {
      assert n - 1 != i ==> def.steps[n - 1].stepId != def.steps[i].stepId;
      GroupLevel(def, levels, lvl, n - 1, i);
    }
  }

  /** On acyclic input no dependency chain has more steps than the plan has groups. */
  lemma CriticalPathIsLongest(def: WorkflowDef, c: seq<nat>)
    requires Acyclic(GraphOf(def)) && Chain(GraphOf(def), c)
    ensures |c| <= |PlanGroups(def)|
  {
    var g := GraphOf(def);
    ChainRaisesLevel(g, c, Last(c));
    LevelsAt(g, Last(c));
    hide Chain, AreLevels;
    assert Level(g, Last(c)) < LevelCount(Levels(g));
  }

  lemma {:induction false} IdsAtLevelMember(def: WorkflowDef, levels: seq<nat>, lvl: nat, n: nat, i: nat)
    requires i < n <= |def.steps| == |levels| && levels[i] == lvl
    ensures def.steps[i].stepId in IdsAtLevel(def, levels, lvl, n)
  {
    if i < n - 1 { IdsAtLevelMember(def, levels, lvl, n - 1, i); }
  }

  lemma {:induction false} LevelInhabited(g: Graph, i: nat, lvl: nat) returns (j: nat)
    requires i < |g| && lvl <= Level(g, i)
    ensures j < |g| && Level(g, j) == lvl
    decreases Level(g, i)
  {
    if Level(g, i) == lvl {
      j := i;
    } else {
      var p := LevelWitness(g, i);
      j := LevelInhabited(g, p, lvl);
    }
  }

  lemma NoGroupIsEmpty(def: WorkflowDef, lvl: nat)
    requires lvl < |PlanGroups(def)|
    ensures PlanGroups(def)[lvl] != []
  {
    var g := GraphOf(def);
    var i :| 0 <= i < |g| && Levels(g)[i] + 1 == LevelCount(Levels(g));
    LevelsAt(g, i);
    var j := LevelInhabited(g, i, lvl);
    LevelsAt(g, j);
    IdsAtLevelMember(def, Levels(g), lvl, |g|, j);
  }

  ghost function Flatten(groups: seq<seq<string>>): multiset<string> {
    if groups == [] then multiset{} else Flatten(groups[..|groups| - 1]) + multiset(groups[|groups| - 1])
  }

  ghost function StepIds(def: WorkflowDef, n: nat): multiset<string>
    requires n <= |def.steps|
  {
    if n == 0 then multiset{} else StepIds(def, n - 1) + multiset{def.steps[n - 1].stepId}
  }

  ghost function LevelsBelow(def: WorkflowDef, levels: seq<nat>, h: nat, n: nat): multiset<string>
    requires n <= |def.steps| == |levels|
  {
    if h == 0 then multiset{} else LevelsBelow(def, levels, h - 1, n) + multiset(IdsAtLevel(def, levels, h - 1, n))
  }

  lemma {:induction false} LevelsBelowStep(def: WorkflowDef, levels: seq<nat>, h: nat, n: nat)
    requires 0 < n <= |def.steps| == |levels|
    ensures LevelsBelow(def, levels, h, n) == LevelsBelow(def, levels, h, n - 1)
            + (if levels[n - 1] < h then multiset{def.steps[n - 1].stepId} else multiset{})
  {
    if h > 0 { LevelsBelowStep(def, levels, h - 1, n); }
  }

  lemma {:induction false} NoSteps(def: WorkflowDef, levels: seq<nat>, h: nat)
    requires |def.steps| == |levels|
    ensures LevelsBelow(def, levels, h, 0) == multiset{}
  {
    if h > 0 { NoSteps(def, levels, h - 1); }
  }

  lemma {:induction false} LevelsBelowAll(def: WorkflowDef, levels: seq<nat>, h: nat, n: nat)
    requires n <= |def.steps| == |levels|
    requires forall i :: 0 <= i < n ==> levels[i] < h
    ensures LevelsBelow(def, levels, h, n) == StepIds(def, n)
  {
    if n > 0 {
      LevelsBelowAll(def, levels, h, n - 1);
      LevelsBelowStep(def, levels, h, n);
    } else {
      NoSteps(def, levels, h);
    }
  }

  lemma {:induction false} FlattenLevels(def: WorkflowDef, levels: seq<nat>, h: nat)
    requires |def.steps| == |levels|
    ensures Flatten(PlanUpTo(def, levels, h)) == LevelsBelow(def, levels, h, |levels|)
  {
    if h > 0 {
      FlattenLevels(def, levels, h - 1);
      var groups := PlanUpTo(def, levels, h);
      assert groups[..h - 1] == PlanUpTo(def, levels, h - 1);
    }
  }

  /** The groups hold every step id exactly as often as the definition does. */
  lemma GroupsPartitionSteps(def: WorkflowDef)
    ensures Flatten(PlanGroups(def)) == StepIds(def, |def.steps|)
  {
    var levels := Levels(GraphOf(def));
    FlattenLevels(def, levels, LevelCount(levels));
    LevelsBelowAll(def, levels, LevelCount(levels), |levels|);
  }
}
