/** The static plan of ArchSelector is what WorkflowEngine executes, for every definition with
    distinct step ids (cyclic ones and dangling dependencies included) and every outcome. */
module PlanExecution {
  import opened Orchestration
  import opened DependencyGraph
  import opened ArchSelector
  import opened WorkflowEngine
  import opened WaveInduction

  // ---- which steps can never be launched ----

  /** Some dependency names no step of the definition. */
  ghost predicate Dangling(def: WorkflowDef, i: nat)
    requires i < |def.steps|
  {
    exists d :: d in def.steps[i].dependsOn && d !in StepIndex(def.steps)
  }

  /** A dependency chain that no engine can get through: it meets a cycle, starts at a step with a
      dangling dependency, or starts at a bad step other than its end. */
  ghost predicate BlockingChain(def: WorkflowDef, outcome: Outcome, c: seq<nat>) {
    && Chain(GraphOf(def), c)
    && (!Distinct(c) || Dangling(def, c[0]) || (|c| > 1 && Bad(def, outcome, c[0])))
  }

  ghost predicate Stuck(def: WorkflowDef, outcome: Outcome, i: nat) {
    exists c: seq<nat> {:trigger BlockingChain(def, outcome, c)} :: BlockingChain(def, outcome, c) && Last(c) == i
  }

  lemma StuckUp(def: WorkflowDef, outcome: Outcome, i: nat, p: nat)
    requires i < |def.steps| && p in GraphOf(def)[i] && p < |def.steps|
    requires Stuck(def, outcome, p) || Bad(def, outcome, p)
    ensures Stuck(def, outcome, i)
  {
    var g := GraphOf(def);
    if Stuck(def, outcome, p) {
      var c: seq<nat> :| BlockingChain(def, outcome, c) && Last(c) == p;
      ChainSnoc(g, c, i);
      assert (c + [i])[0] == c[0];
      if !Distinct(c) {
        var a, b :| 0 <= a < b < |c| && c[a] == c[b];
        assert (c + [i])[a] == (c + [i])[b];
      }
      assert BlockingChain(def, outcome, c + [i]);
    } else {
      assert BlockingChain(def, outcome, [p, i]);
    }
  }

  lemma StuckDown(def: WorkflowDef, outcome: Outcome, i: nat)
    requires i < |def.steps| && Stuck(def, outcome, i) && !Dangling(def, i)
    ensures exists p :: p in GraphOf(def)[i] && p < |def.steps| && (Stuck(def, outcome, p) || Bad(def, outcome, p))
  {
    var g := GraphOf(def);
    var c: seq<nat> :| BlockingChain(def, outcome, c) && Last(c) == i;
    var m := |c| - 1;
    if m == 0 { assert false; }
    var p := c[m - 1];
    ChainPrefix(g, c, m);
    if !Distinct(c) {
      var a, b :| 0 <= a < b < |c| && c[a] == c[b];
      if b < m {
        assert c[..m][a] == c[..m][b];
        assert BlockingChain(def, outcome, c[..m]);
      } else {
        CycleThroughPred(g, c, a);
        var d: seq<nat> :| Chain(g, d) && Last(d) == p && !Distinct(d);
        assert BlockingChain(def, outcome, d);
      }
    } else if Dangling(def, c[0]) || m > 1 {
      assert c[..m][0] == c[0];
      assert BlockingChain(def, outcome, c[..m]);
    }
  }

  /** A step is stuck iff it names a missing step, or depends directly on a stuck or a bad one. */
  lemma StuckStep(def: WorkflowDef, outcome: Outcome, i: nat)
    requires i < |def.steps|
    ensures Stuck(def, outcome, i) <==>
      Dangling(def, i) || exists p :: p in GraphOf(def)[i] && (Stuck(def, outcome, p) || Bad(def, outcome, p))
  {
    if Dangling(def, i) {
      assert BlockingChain(def, outcome, [i]);
    } else if Stuck(def, outcome, i) {
      StuckDown(def, outcome, i);
    }
    if p :| p in GraphOf(def)[i] && (Stuck(def, outcome, p) || Bad(def, outcome, p)) {
      StuckUp(def, outcome, i, p);
    }
  }

  lemma UnstuckIsGrounded(def: WorkflowDef, outcome: Outcome, i: nat)
    requires i < |def.steps| && !Stuck(def, outcome, i)
    ensures Grounded(GraphOf(def), i)
  {
    forall c: seq<nat> | Chain(GraphOf(def), c) && Last(c) == i ensures Distinct(c) {
      assert !BlockingChain(def, outcome, c);
    }
  }

  // ---- longest-chain levels and stuck marks fit the wave induction ----

  ghost function ShapeOf(def: WorkflowDef, outcome: Outcome): (sh: Shape)
    ensures |sh.level| == |sh.stuck| == |def.steps|
    ensures forall i :: 0 <= i < |def.steps| ==> sh.level[i] == Level(GraphOf(def), i)
    ensures forall i :: 0 <= i < |def.steps| ==> (sh.stuck[i] <==> Stuck(def, outcome, i))
  {
    Shape(seq(|def.steps|, i requires 0 <= i < |def.steps| => Level(GraphOf(def), i)),
          seq(|def.steps|, i requires 0 <= i < |def.steps| => Stuck(def, outcome, i)))
  }

  lemma UniqueIndexes(def: WorkflowDef)
    requires UniqueIds(def)
    ensures Indexes(def, StepIndex(def.steps))
  {
  }

  lemma ShapeFits(def: WorkflowDef, outcome: Outcome, i: nat)
    requires UniqueIds(def) && Indexes(def, StepIndex(def.steps)) && i < |def.steps|
    ensures Fits(def, outcome, StepIndex(def.steps), ShapeOf(def, outcome), i)
  {
    if Stuck(def, outcome, i) {
      StuckFits(def, outcome, i);
    } else {
      UnstuckFits(def, outcome, i);
    }
  }

  lemma StuckFits(def: WorkflowDef, outcome: Outcome, i: nat)
    requires Indexes(def, StepIndex(def.steps)) && i < |def.steps| && Stuck(def, outcome, i)
    ensures exists d ::
      d in def.steps[i].dependsOn && !Clear(def, outcome, StepIndex(def.steps), ShapeOf(def, outcome), d)
  {
    var g, idx, deps, sh := GraphOf(def), StepIndex(def.steps), def.steps[i].dependsOn, ShapeOf(def, outcome);
    hide Stuck, Bad, StepIndex;
    if Dangling(def, i) {
      var d :| d in deps && d !in idx;
      assert !Clear(def, outcome, idx, sh, d);
    } else {
      StuckStep(def, outcome, i);
      ResolveMembers(deps, idx);
      var p :| p in g[i] && (Stuck(def, outcome, p) || Bad(def, outcome, p));
      var d :| d in deps && d in idx && idx[d] == p;
      assert !Clear(def, outcome, idx, sh, d);
    }
  }

  lemma UnstuckFits(def: WorkflowDef, outcome: Outcome, i: nat)
    requires Indexes(def, StepIndex(def.steps)) && i < |def.steps| && !Stuck(def, outcome, i)
    ensures var idx, deps, sh := StepIndex(def.steps), def.steps[i].dependsOn, ShapeOf(def, outcome);
            && (forall d :: d in deps ==> Clear(def, outcome, idx, sh, d) && sh.level[idx[d]] < sh.level[i])
            && (sh.level[i] > 0 ==> exists d :: d in deps && d in idx && sh.level[idx[d]] + 1 == sh.level[i])
  {
    var g, idx, deps, sh := GraphOf(def), StepIndex(def.steps), def.steps[i].dependsOn, ShapeOf(def, outcome);
    hide Stuck, Bad, StepIndex;
    StuckStep(def, outcome, i);
    ResolveMembers(deps, idx);
    forall d | d in deps ensures Clear(def, outcome, idx, sh, d) && sh.level[idx[d]] < sh.level[i] {
      assert d in idx && idx[d] in g[i];
      UnstuckIsGrounded(def, outcome, idx[d]);
      LevelAbove(g, i, idx[d]);
    }
    if sh.level[i] > 0 {
      var p := LevelWitness(g, i);
      var d :| d in deps && d in idx && idx[d] == p;
    }
  }

  lemma ShapeIsSound(def: WorkflowDef, outcome: Outcome)
    requires UniqueIds(def)
    ensures Sound(def, outcome, StepIndex(def.steps), ShapeOf(def, outcome))
  {
    UniqueIndexes(def);
    forall i | 0 <= i < |def.steps| ensures Fits(def, outcome, StepIndex(def.steps), ShapeOf(def, outcome), i) {
      ShapeFits(def, outcome, i);
    }
  }

  // ---- groups without their stuck steps ----

  /** `group` without the ids in `out`, order kept. */
  ghost function Without(group: seq<string>, out: set<string>): (ids: seq<string>)
    ensures |ids| <= |group|
  {
    if group == [] then []
    else
      var m := |group| - 1;
      if group[m] in out then Without(group[..m], out) else Without(group[..m], out) + [group[m]]
  }

  lemma {:induction false} WaveIsGroupWithout(def: WorkflowDef, sh: Shape, out: set<string>, k: nat, n: nat)
    requires |sh.level| == |sh.stuck| == |def.steps| && n <= |def.steps|
    requires forall i :: 0 <= i < |def.steps| ==> (def.steps[i].stepId in out <==> sh.stuck[i])
    ensures WaveIds(def, sh, k, n) == Without(IdsAtLevel(def, sh.level, k, n), out)
  {
    if n > 0 {
      WaveIsGroupWithout(def, sh, out, k, n - 1);
      var before, id := IdsAtLevel(def, sh.level, k, n - 1), def.steps[n - 1].stepId;
      assert (before + [id])[..|before|] == before;
    }
  }

  // ---- main theorems ----

  ghost function StuckIds(def: WorkflowDef, outcome: Outcome): set<string> {
    set i | 0 <= i < |def.steps| && Stuck(def, outcome, i) :: def.steps[i].stepId
  }

  /** A whole run of a fresh run record: the waves launched, and the records it leaves. */
  ghost predicate CompleteRun(def: WorkflowDef, outcome: Outcome, waves: seq<seq<string>>, rest: seq<StepExecution>) {
    IsRun(def, outcome, CreateWorkflowRun(def).steps, waves, rest)
  }

  /** Group k without the ids in `out` is wave k; groups of which nothing is left come after the last wave. */
  ghost predicate WaveAt(ws: seq<seq<string>>, groups: seq<seq<string>>, out: set<string>, k: nat)
    requires k < |groups|
  {
    var left := Without(groups[k], out);
    if k < |ws| then ws[k] == left != [] else left == []
  }

  /** The waves are the groups without the ids in `out`, up to the first group of which nothing is left. */
  ghost predicate ExecutesPlan(ws: seq<seq<string>>, groups: seq<seq<string>>, out: set<string>) {
    && |ws| <= |groups|
    && forall k {:trigger WaveAt(ws, groups, out, k)} :: 0 <= k < |groups| ==> WaveAt(ws, groups, out, k)
  }

  lemma WavesExecutePlan(def: WorkflowDef, outcome: Outcome, sh: Shape, out: set<string>, ws: seq<seq<string>>,
                         rest: seq<StepExecution>)
    requires |sh.level| == |sh.stuck| == |def.steps| && Executes(def, outcome, sh, ws, rest)
    requires forall i :: 0 <= i < |def.steps| ==> (def.steps[i].stepId in out <==> sh.stuck[i])
    ensures ExecutesPlan(ws, PlanUpTo(def, sh.level, LevelCount(sh.level)), out)
  {
    var h, n := LevelCount(sh.level), |def.steps|;
    var groups := PlanUpTo(def, sh.level, h);
    forall k | 0 <= k < h ensures WaveAt(ws, groups, out, k) {
      WaveIsGroupWithout(def, sh, out, k, n);
      if k >= |ws| { WaveMembers(def, sh, k, n); }
    }
    if |ws| > h {
      var beyond := ws[h];
      WaveMembers(def, sh, h, n);
    }
  }

  lemma CompleteRunExecutes(def: WorkflowDef, outcome: Outcome, waves: seq<seq<string>>, rest: seq<StepExecution>)
    requires UniqueIds(def) && CompleteRun(def, outcome, waves, rest)
    ensures Executes(def, outcome, ShapeOf(def, outcome), waves, rest)
  {
    ShapeIsSound(def, outcome);
    RunExecutes(def, outcome, StepIndex(def.steps), ShapeOf(def, outcome), CreateWorkflowRun(def).steps, waves, rest);
  }

  lemma StuckIdsAreMarks(def: WorkflowDef, outcome: Outcome)
    requires UniqueIds(def)
    ensures forall i :: 0 <= i < |def.steps| ==>
      (def.steps[i].stepId in StuckIds(def, outcome) <==> ShapeOf(def, outcome).stuck[i])
  {
  }

  /** The k-th wave launched is the k-th planned group minus its stuck steps, in order. */
  lemma PlanEqualsExecution(def: WorkflowDef, outcome: Outcome, waves: seq<seq<string>>, rest: seq<StepExecution>)
    requires UniqueIds(def) && CompleteRun(def, outcome, waves, rest)
    ensures ExecutesPlan(waves, PlanGroups(def), StuckIds(def, outcome))
  {
    hide CompleteRun, Executes, ExecutesPlan;
    var sh := ShapeOf(def, outcome);
    CompleteRunExecutes(def, outcome, waves, rest);
    StuckIdsAreMarks(def, outcome);
    WavesExecutePlan(def, outcome, sh, StuckIds(def, outcome), waves, rest);
    LevelsAreUnique(GraphOf(def), sh.level);
  }

  /** Exactly the stuck steps are never launched; every other step settles by its outcome. */
  lemma FinalStatuses(def: WorkflowDef, outcome: Outcome, waves: seq<seq<string>>, rest: seq<StepExecution>, i: nat)
    requires UniqueIds(def) && CompleteRun(def, outcome, waves, rest) && i < |def.steps|
    ensures |rest| == |def.steps|
    ensures rest[i].status == if Stuck(def, outcome, i) then Pending else SettledStatus(def, outcome, i)
  {
    hide CompleteRun, Stuck;
    var sh := ShapeOf(def, outcome);
    CompleteRunExecutes(def, outcome, waves, rest);
    assert rest[i].status == StatusAt(def, outcome, sh, |waves|, i);
  }

  /** In terms of the agents: a launched step ends Completed iff its agent starts, and otherwise Skipped if it is
      optional and Failed if it is required. */
  lemma StatusesByOutcome(def: WorkflowDef, outcome: Outcome, waves: seq<seq<string>>, rest: seq<StepExecution>, i: nat)
    requires UniqueIds(def) && CompleteRun(def, outcome, waves, rest) && i < |def.steps|
    ensures |rest| == |def.steps|
    ensures rest[i].status == Pending <==> Stuck(def, outcome, i)
    ensures !Stuck(def, outcome, i) ==>
      var step, ok := def.steps[i], outcome(def.steps[i].stepId, 1);
      && (rest[i].status == Completed <==> ok)
      && (rest[i].status == Skipped <==> step.optional && !ok)
      && (rest[i].status == Failed <==> !step.optional && !ok)
  {
    hide CompleteRun, Stuck;
    FinalStatuses(def, outcome, waves, rest, i);
  }

  // ---- corollaries ----

  lemma {:induction false} WithoutNothing(group: seq<string>)
    ensures Without(group, {}) == group
  {
    if group != [] { WithoutNothing(group[..|group| - 1]); }
  }

  lemma NothingStuck(def: WorkflowDef, outcome: Outcome, i: nat)
    requires Acyclic(GraphOf(def)) && i < |def.steps|
    requires forall j :: 0 <= j < |def.steps| ==> !Dangling(def, j) && !Bad(def, outcome, j)
    ensures !Stuck(def, outcome, i)
  {
    forall c: seq<nat> | Chain(GraphOf(def), c) && Last(c) == i ensures !BlockingChain(def, outcome, c) {
      assert Grounded(GraphOf(def), i);
    }
  }

  /** If no step can fail, no name dangles and there is no cycle, the waves are the planned groups, all of them. */
  lemma UnobstructedRunIsThePlan(def: WorkflowDef, outcome: Outcome, waves: seq<seq<string>>, rest: seq<StepExecution>)
    requires UniqueIds(def) && Acyclic(GraphOf(def)) && CompleteRun(def, outcome, waves, rest)
    requires forall i :: 0 <= i < |def.steps| ==> !Dangling(def, i) && !Bad(def, outcome, i)
    ensures waves == PlanGroups(def)
  {
    var groups := PlanGroups(def);
    PlanEqualsExecution(def, outcome, waves, rest);
    forall i | 0 <= i < |def.steps| ensures !Stuck(def, outcome, i) {
      NothingStuck(def, outcome, i);
    }
    assert StuckIds(def, outcome) == {};
    forall k | 0 <= k < |groups| ensures k < |waves| && waves[k] == groups[k] {
      assert WaveAt(waves, groups, {}, k);
      WithoutNothing(groups[k]);
      NoGroupIsEmpty(def, k);
    }
  }

  lemma ExecutedWidth(ws: seq<seq<string>>, groups: seq<seq<string>>, out: set<string>, width: nat)
    requires ExecutesPlan(ws, groups, out) && IsWidth(groups, width)
    ensures forall k :: 0 <= k < |ws| ==> |ws[k]| <= width
  {
    forall k | 0 <= k < |ws| ensures |ws[k]| <= width {
      assert WaveAt(ws, groups, out, k);
    }
  }

  /** No wave is wider than the plan's widest group. */
  lemma WavesFitTheWidth(def: WorkflowDef, outcome: Outcome, waves: seq<seq<string>>, rest: seq<StepExecution>,
                         width: nat, k: nat)
    requires UniqueIds(def) && CompleteRun(def, outcome, waves, rest) && IsWidth(PlanGroups(def), width) && k < |waves|
    ensures |waves[k]| <= width
  {
    PlanEqualsExecution(def, outcome, waves, rest);
    ExecutedWidth(waves, PlanGroups(def), StuckIds(def, outcome), width);
  }

  lemma {:induction false} WithoutCounts(group: seq<string>, out: set<string>, id: string)
    ensures multiset(Without(group, out))[id] == if id in out then 0 else multiset(group)[id]
  {
    if group != [] {
      var m := |group| - 1;
      WithoutCounts(group[..m], out, id);
      assert group == group[..m] + [group[m]];
    }
  }

  lemma {:induction false} FlattenEmptied(groups: seq<seq<string>>, out: set<string>, id: string, n: nat)
    requires n <= |groups| && forall k :: n <= k < |groups| ==> Without(groups[k], out) == []
    ensures id !in out ==> Flatten(groups)[id] == Flatten(groups[..n])[id]
  {
    if n < |groups| {
      var m := |groups| - 1;
      FlattenEmptied(groups[..m], out, id, n);
      WithoutCounts(groups[m], out, id);
      assert groups[..m][..n] == groups[..n];
    } else {
      assert groups[..n] == groups;
    }
  }

  lemma {:induction false} FlattenWithout(ws: seq<seq<string>>, groups: seq<seq<string>>, out: set<string>, id: string)
    requires |ws| == |groups| && forall k :: 0 <= k < |ws| ==> ws[k] == Without(groups[k], out)
    ensures Flatten(ws)[id] == if id in out then 0 else Flatten(groups)[id]
  {
    if ws != [] {
      var m := |ws| - 1;
      FlattenWithout(ws[..m], groups[..m], out, id);
      WithoutCounts(groups[m], out, id);
    }
  }

  lemma {:induction false} StepIdsUnique(def: WorkflowDef, i: nat, n: nat)
    requires UniqueIds(def) && i < |def.steps| && n <= |def.steps|
    ensures StepIds(def, n)[def.steps[i].stepId] == if i < n then 1 else 0
  {
    if n > 0 { StepIdsUnique(def, i, n - 1); }
  }

  lemma ExecutedCount(ws: seq<seq<string>>, groups: seq<seq<string>>, out: set<string>, id: string)
    requires ExecutesPlan(ws, groups, out)
    ensures Flatten(ws)[id] == if id in out then 0 else Flatten(groups)[id]
  {
    forall k | 0 <= k < |groups|
      ensures if k < |ws| then ws[k] == Without(groups[k], out) else Without(groups[k], out) == []
    {
      assert WaveAt(ws, groups, out, k);
    }
    FlattenWithout(ws, groups[..|ws|], out, id);
    FlattenEmptied(groups, out, id, |ws|);
  }

  /** Over a whole run every step that is not stuck is launched exactly once, every stuck step never. */
  lemma LaunchedExactlyOnce(def: WorkflowDef, outcome: Outcome, waves: seq<seq<string>>, rest: seq<StepExecution>,
                            i: nat)
    requires UniqueIds(def) && CompleteRun(def, outcome, waves, rest) && i < |def.steps|
    ensures Flatten(waves)[def.steps[i].stepId] == if Stuck(def, outcome, i) then 0 else 1
  {
    hide CompleteRun, Stuck, ExecutesPlan, PlanGroups;
    PlanEqualsExecution(def, outcome, waves, rest);
    ExecutedCount(waves, PlanGroups(def), StuckIds(def, outcome), def.steps[i].stepId);
    GroupsPartitionSteps(def);
    StepIdsUnique(def, i, |def.steps|);
    StuckIdsAreMarks(def, outcome);
  }

  lemma {:induction false} DuplicateStaysPending(def: WorkflowDef, outcome: Outcome, states: seq<seq<StepExecution>>,
                                                 waves: seq<seq<string>>, n: nat, j: nat, k: nat)
    requires IsTrace(def, outcome, states, waves) && n < |states|
    requires j < k < |states[0]| && states[0][j].stepId == states[0][k].stepId && states[0][k].status == Pending
    ensures k < |states[n]| && states[n][k].status == Pending
  {
    TraceKeepsIds(def, outcome, states, waves, n);
    if n > 0 {
      DuplicateStaysPending(def, outcome, states, waves, n - 1, j, k);
      TraceKeepsIds(def, outcome, states, waves, n - 1);
      assert StepAt(def, outcome, states, waves, n - 1);
      assert states[n - 1][j].stepId == states[n - 1][k].stepId;
    }
  }

  lemma RestKeepsIds(def: WorkflowDef, outcome: Outcome, waves: seq<seq<string>>, rest: seq<StepExecution>)
    requires CompleteRun(def, outcome, waves, rest)
    ensures Aligned(rest, def)
  {
    var execs := CreateWorkflowRun(def).steps;
    var states :| IsTrace(def, outcome, states, waves) && states[0] == execs && states[|waves|] == rest;
    TraceKeepsIds(def, outcome, states, waves, |waves|);
  }

  lemma DuplicateNeverFinishes(def: WorkflowDef, outcome: Outcome, waves: seq<seq<string>>, rest: seq<StepExecution>)
    requires CompleteRun(def, outcome, waves, rest) && !UniqueIds(def)
    ensures !AllTerminal(rest)
  {
    var execs := CreateWorkflowRun(def).steps;
    var states :| IsTrace(def, outcome, states, waves) && states[0] == execs && states[|waves|] == rest;
    var j, k :| 0 <= j < k < |def.steps| && def.steps[j].stepId == def.steps[k].stepId;
    DuplicateStaysPending(def, outcome, states, waves, |waves|, j, k);
  }

  /** The engine leaves its loop exactly when step ids are distinct and no step is stuck; in every other
      case it ends up sleeping and retrying for ever. */
  lemma EngineFinishesIff(def: WorkflowDef, outcome: Outcome, waves: seq<seq<string>>, rest: seq<StepExecution>)
    requires CompleteRun(def, outcome, waves, rest)
    ensures AllTerminal(rest) <==> UniqueIds(def) && forall i :: 0 <= i < |def.steps| ==> !Stuck(def, outcome, i)
  {
    hide CompleteRun;
    RestKeepsIds(def, outcome, waves, rest);
    if UniqueIds(def) {
      forall i | 0 <= i < |def.steps| ensures rest[i].status.Terminal() <==> !Stuck(def, outcome, i) {
        FinalStatuses(def, outcome, waves, rest, i);
      }
    } else {
      DuplicateNeverFinishes(def, outcome, waves, rest);
    }
  }

  // ---- definitions whose runs always finish ----

  /** Every step that others depend on is optional. */
  ghost predicate OthersNeedOnlyOptional(def: WorkflowDef) {
    forall i, p :: 0 <= i < |def.steps| && p in GraphOf(def)[i] ==> def.steps[p].optional
  }

  ghost predicate AlwaysFinishes(def: WorkflowDef) {
    forall outcome, waves, rest :: CompleteRun(def, outcome, waves, rest) ==> AllTerminal(rest)
  }

  lemma {:induction false} RunFrom(def: WorkflowDef, outcome: Outcome, waves: seq<seq<string>>, mid: seq<StepExecution>)
    returns (all: seq<seq<string>>, rest: seq<StepExecution>)
    requires Aligned(mid, def) && RunsTo(def, outcome, CreateWorkflowRun(def).steps, waves, mid)
    ensures CompleteRun(def, outcome, all, rest)
    decreases PendingCount(mid)
  {
    hide RunsTo, Iterate, ReadyAmong, Aligned;
    if ReadyAmong(mid, def.steps) == [] {
      all, rest := waves, mid;
    } else {
      RunsToStep(def, outcome, CreateWorkflowRun(def).steps, waves, mid);
      IterateProgress(mid, def, outcome);
      all, rest := RunFrom(def, outcome, waves + [ReadyAmong(mid, def.steps)], Iterate(mid, def, outcome));
    }
  }

  /** Every definition has a complete run under every outcome. */
  lemma RunExists(def: WorkflowDef, outcome: Outcome) returns (waves: seq<seq<string>>, rest: seq<StepExecution>)
    ensures CompleteRun(def, outcome, waves, rest)
  {
    var start := CreateWorkflowRun(def).steps;
    RunsToStart(def, outcome, start);
    waves, rest := RunFrom(def, outcome, [], start);
  }

  lemma NeverStuck(def: WorkflowDef, outcome: Outcome, i: nat)
    requires Acyclic(GraphOf(def)) && OthersNeedOnlyOptional(def) && i < |def.steps|
    requires forall j :: 0 <= j < |def.steps| ==> !Dangling(def, j)
    ensures !Stuck(def, outcome, i)
  {
    forall c: seq<nat> | Chain(GraphOf(def), c) && Last(c) == i ensures !BlockingChain(def, outcome, c) {
      assert Grounded(GraphOf(def), i);
      if |c| > 1 { assert c[0] in GraphOf(def)[c[1]]; }
    }
  }

  /** If nothing is stuck even when every agent fails, the definition has none of the three faults. */
  lemma AllFailing(def: WorkflowDef, outcome: Outcome)
    requires forall id, n :: !outcome(id, n)
    requires forall i :: 0 <= i < |def.steps| ==> !Stuck(def, outcome, i)
    ensures Acyclic(GraphOf(def)) && OthersNeedOnlyOptional(def)
    ensures forall i :: 0 <= i < |def.steps| ==> !Dangling(def, i)
  {
    forall i | 0 <= i < |def.steps|
      ensures Grounded(GraphOf(def), i) && !Dangling(def, i)
      ensures forall p :: p in GraphOf(def)[i] ==> def.steps[p].optional
    {
      UnstuckIsGrounded(def, outcome, i);
      StuckStep(def, outcome, i);
    }
  }

  /** Every run of a definition finishes, whatever the agents do, exactly when its step ids are distinct, its
      dependencies are acyclic and all name steps, and every step that others depend on is optional. */
  lemma AlwaysFinishesIff(def: WorkflowDef)
    ensures AlwaysFinishes(def) <==>
      && UniqueIds(def) && Acyclic(GraphOf(def)) && OthersNeedOnlyOptional(def)
      && forall i :: 0 <= i < |def.steps| ==> !Dangling(def, i)
  {
    hide CompleteRun, AllTerminal, Stuck, Dangling, Acyclic, OthersNeedOnlyOptional;
    if AlwaysFinishes(def) {
      var outcome: Outcome := (id, n) => false;
      var waves, rest := RunExists(def, outcome);
      EngineFinishesIff(def, outcome, waves, rest);
      AllFailing(def, outcome);
    } else {
      var outcome, waves, rest :| CompleteRun(def, outcome, waves, rest) && !AllTerminal(rest);
      EngineFinishesIff(def, outcome, waves, rest);
      if Acyclic(GraphOf(def)) && OthersNeedOnlyOptional(def)
         && forall i :: 0 <= i < |def.steps| ==> !Dangling(def, i)
      {
        forall i | 0 <= i < |def.steps| ensures !Stuck(def, outcome, i) { NeverStuck(def, outcome, i); }
      }
    }
  }

  /** A finished run is Completed iff every step is Completed or Skipped. */
  lemma FinishedStatus(def: WorkflowDef, outcome: Outcome, waves: seq<seq<string>>, rest: seq<StepExecution>)
    requires CompleteRun(def, outcome, waves, rest) && AllTerminal(rest)
    ensures !RequiredStepFailed(rest, def) <==> forall i :: 0 <= i < |rest| ==> rest[i].status.Satisfied()
  {
    hide CompleteRun;
    EngineFinishesIff(def, outcome, waves, rest);
    UniqueIndexes(def);
    RestKeepsIds(def, outcome, waves, rest);
    forall i | 0 <= i < |rest|
      ensures rest[i].status.Satisfied() || (rest[i].status == Failed && !IsOptional(def, rest[i].stepId))
    {
      FinalStatuses(def, outcome, waves, rest, i);
      FindsItself(def, StepIndex(def.steps), rest, i);
    }
  }

  /** A step whose record is Failed, somewhere strictly upstream of step i. */
  ghost predicate FailedAncestor(def: WorkflowDef, rest: seq<StepExecution>, i: nat)
    requires |rest| == |def.steps|
  {
    exists c: seq<nat> {:trigger Chain(GraphOf(def), c)} :: Chain(GraphOf(def), c) && |c| > 1 && Last(c) == i
      && rest[c[0]].status == Failed
  }

  lemma FailedAncestorUp(def: WorkflowDef, rest: seq<StepExecution>, i: nat, p: nat)
    requires |rest| == |def.steps| && i < |rest| && p < |rest| && p in GraphOf(def)[i]
    requires FailedAncestor(def, rest, p) || rest[p].status == Failed
    ensures FailedAncestor(def, rest, i)
  {
    var g := GraphOf(def);
    if FailedAncestor(def, rest, p) {
      var c: seq<nat> :| Chain(g, c) && |c| > 1 && Last(c) == p && rest[c[0]].status == Failed;
      ChainSnoc(g, c, i);
      assert (c + [i])[0] == c[0];
    } else {
      var c := [p, i];
      assert Chain(g, c) && c[0] == p;
    }
  }

  lemma FailedAncestorSticks(def: WorkflowDef, outcome: Outcome, waves: seq<seq<string>>, rest: seq<StepExecution>,
                             i: nat)
    requires UniqueIds(def) && CompleteRun(def, outcome, waves, rest)
    requires |rest| == |def.steps| && i < |rest| && FailedAncestor(def, rest, i)
    ensures Stuck(def, outcome, i)
  {
    var c: seq<nat> :| Chain(GraphOf(def), c) && |c| > 1 && Last(c) == i && rest[c[0]].status == Failed;
    FinalStatuses(def, outcome, waves, rest, c[0]);
    assert BlockingChain(def, outcome, c);
  }

  lemma StuckPred(def: WorkflowDef, outcome: Outcome, waves: seq<seq<string>>, rest: seq<StepExecution>, i: nat)
    returns (p: nat)
    requires UniqueIds(def) && Acyclic(GraphOf(def)) && CompleteRun(def, outcome, waves, rest)
    requires i < |def.steps| && !Dangling(def, i) && Stuck(def, outcome, i)
    ensures |rest| == |def.steps| && p < |def.steps| && p in GraphOf(def)[i]
    ensures Level(GraphOf(def), p) < Level(GraphOf(def), i)
    ensures Stuck(def, outcome, p) || rest[p].status == Failed
  {
    StuckDown(def, outcome, i);
    p :| p in GraphOf(def)[i] && p < |def.steps| && (Stuck(def, outcome, p) || Bad(def, outcome, p));
    LevelAbove(GraphOf(def), i, p);
    FinalStatuses(def, outcome, waves, rest, p);
  }

  /** On acyclic definitions without dangling names, "stuck" means: depends, even transitively, on a Failed step. */
  lemma {:induction false} StuckMeansFailedAncestor(def: WorkflowDef, outcome: Outcome, waves: seq<seq<string>>,
                                                    rest: seq<StepExecution>, i: nat)
    requires UniqueIds(def) && Acyclic(GraphOf(def)) && CompleteRun(def, outcome, waves, rest)
    requires |rest| == |def.steps| && i < |rest| && forall j :: 0 <= j < |def.steps| ==> !Dangling(def, j)
    ensures Stuck(def, outcome, i) <==> FailedAncestor(def, rest, i)
    decreases Level(GraphOf(def), i)
  {
    if FailedAncestor(def, rest, i) {
      FailedAncestorSticks(def, outcome, waves, rest, i);
    }
    if Stuck(def, outcome, i) {
      var p := StuckPred(def, outcome, waves, rest, i);
      if Stuck(def, outcome, p) { StuckMeansFailedAncestor(def, outcome, waves, rest, p); }
      FailedAncestorUp(def, rest, i, p);
    }
  }

  lemma RunIsComplete(def: WorkflowDef, outcome: Outcome, waves: seq<seq<string>>, rest: seq<StepExecution>)
    requires IsRun(def, outcome, CreateWorkflowRun(def).steps, waves, rest)
    ensures CompleteRun(def, outcome, waves, rest)
  {
  }

  /** Analyse, then execute: the metrics' groups predict the waves the engine logs. */
  method AnalyseAndRun(def: WorkflowDef, outcome: Outcome) returns (m: DagMetrics, engine: Engine, finished: bool)
    requires UniqueIds(def)
    ensures fresh(engine) && m.parallelGroups == PlanGroups(def)
    ensures CompleteRun(def, outcome, engine.waves, engine.stored.steps)
    ensures ExecutesPlan(engine.waves, m.parallelGroups, StuckIds(def, outcome))
    ensures forall k :: 0 <= k < |engine.waves| ==> |engine.waves[k]| <= m.maxParallelWidth
    ensures finished <==> forall i :: 0 <= i < |def.steps| ==> !Stuck(def, outcome, i)
  {
    hide CompleteRun, Stuck, ExecutesPlan, PlanGroups, IsWidth;
    m := AnalyseDag(def);
    engine := new Engine(def);
    finished := engine.Run(outcome);
    RunIsComplete(def, outcome, engine.waves, engine.stored.steps);
    PlanEqualsExecution(def, outcome, engine.waves, engine.stored.steps);
    ExecutedWidth(engine.waves, m.parallelGroups, StuckIds(def, outcome), m.maxParallelWidth);
    EngineFinishesIff(def, outcome, engine.waves, engine.stored.steps);
  }
}
