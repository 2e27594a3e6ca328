/** The wave-by-wave execution engine (crates/apollo-node/src/main.rs, run_workflow_parallel).
    The run file is the field `stored`; what each launched agent does is the parameter `outcome`. */
module WorkflowEngine {
  import opened Options
  import opened Orchestration

  /** Whether a launch succeeds, by step id and, within the wave that launches it, by how many launches of that id
      there are up to and including this one: more than one only when step ids repeat. */
  type Outcome = (string, nat) -> bool

  // ---- one iteration as a function on the run's step records ----

  function FindStep(steps: seq<WorkflowStep>, id: string): (r: Option<nat>)
    ensures r.Some? ==> r.value < |steps| && steps[r.value].stepId == id
                        && forall j :: 0 <= j < r.value ==> steps[j].stepId != id
    ensures r.None? ==> forall j :: 0 <= j < |steps| ==> steps[j].stepId != id
  {
    FirstIndex(steps, (s: WorkflowStep) => s.stepId == id)
  }

  predicate IsOptional(def: WorkflowDef, id: string) {
    var k := FindStep(def.steps, id);
    k.Some? && def.steps[k.value].optional
  }

  function ResultStatus(optional: bool, ok: bool): StepStatus {
    if ok then Completed else if optional then Skipped else Failed
  }

  function ResultOf(def: WorkflowDef, outcome: Outcome, id: string, n: nat): StepStatus {
    ResultStatus(IsOptional(def, id), outcome(id, n))
  }

  /** The first record with the id changes, if there is one. */
  function SetStatus(execs: seq<StepExecution>, id: string, status: StepStatus): seq<StepExecution> {
    match FindExec(execs, id)
    case None => execs
    case Some(k) => execs[k := execs[k].(status := status)]
  }

  predicate AllTerminal(execs: seq<StepExecution>) {
    forall k :: 0 <= k < |execs| ==> execs[k].status.Terminal()
  }

  predicate RequiredStepFailed(execs: seq<StepExecution>, def: WorkflowDef) {
    exists k :: 0 <= k < |execs| && execs[k].status == Failed && !IsOptional(def, execs[k].stepId)
  }

  /** The records mirror the definition, step by step. */
  ghost predicate Aligned(execs: seq<StepExecution>, def: WorkflowDef) {
    && |execs| == |def.steps|
    && forall i :: 0 <= i < |execs| ==> execs[i].stepId == def.steps[i].stepId
  }

  /** Record k is the one `find` returns for its id. */
  ghost predicate FirstOfItsId(execs: seq<StepExecution>, k: nat)
    requires k < |execs|
  {
    forall j :: 0 <= j < k ==> execs[j].stepId != execs[k].stepId
  }

  ghost predicate Launched(execs: seq<StepExecution>, ready: seq<string>, k: nat)
    requires k < |execs|
  {
    execs[k].stepId in ready && FirstOfItsId(execs, k)
  }

  ghost predicate SameIds(a: seq<StepExecution>, b: seq<StepExecution>) {
    |a| == |b| && forall k :: 0 <= k < |a| ==> a[k].stepId == b[k].stepId
  }

  lemma SetStatusAt(execs: seq<StepExecution>, id: string, status: StepStatus)
    ensures SameIds(SetStatus(execs, id, status), execs)
    ensures forall k :: 0 <= k < |execs| ==>
      SetStatus(execs, id, status)[k].status == if execs[k].stepId == id && FirstOfItsId(execs, k)
        then status else execs[k].status
  {
  }

  /** First half of an iteration: the launched records become Running. */
  ghost function MarkRunning(execs: seq<StepExecution>, ready: seq<string>): seq<StepExecution> {
    seq(|execs|, k requires 0 <= k < |execs| => if Launched(execs, ready, k)
      then execs[k].(status := Running) else execs[k])
  }

  /** Second half: the launched records take the status of their agent's last launch in the wave. */
  ghost function ApplyResults(execs: seq<StepExecution>, def: WorkflowDef, ready: seq<string>, outcome: Outcome)
    : seq<StepExecution>
  {
    seq(|execs|, k requires 0 <= k < |execs| =>
      if Launched(execs, ready, k)
      then execs[k].(status := ResultOf(def, outcome, execs[k].stepId, multiset(ready)[execs[k].stepId]))
      else execs[k])
  }

  /** A whole iteration. */
  ghost function Iterate(execs: seq<StepExecution>, def: WorkflowDef, outcome: Outcome): seq<StepExecution> {
    ApplyResults(execs, def, ReadyAmong(execs, def.steps), outcome)
  }

  lemma HalvesMakeIteration(execs: seq<StepExecution>, def: WorkflowDef, ready: seq<string>, outcome: Outcome)
    ensures ApplyResults(MarkRunning(execs, ready), def, ready, outcome) == ApplyResults(execs, def, ready, outcome)
  {
    var mid := MarkRunning(execs, ready);
    forall k | 0 <= k < |execs| ensures Launched(mid, ready, k) <==> Launched(execs, ready, k) {
      assert forall j :: 0 <= j <= k ==> mid[j].stepId == execs[j].stepId;
    }
  }

  lemma {:induction false} ReadyMembers(execs: seq<StepExecution>, steps: seq<WorkflowStep>, id: string)
    ensures id in ReadyAmong(execs, steps) <==>
      exists i :: 0 <= i < |steps| && steps[i].stepId == id && IsReady(execs, steps[i])
  {
    if steps != [] {
      var init := steps[..|steps| - 1];
      ReadyMembers(execs, init, id);
      assert forall i :: 0 <= i < |init| ==> init[i] == steps[i];
    }
  }

  /** The readiness rule: the first record with the id is Pending, if there is one, and every name in the step's
      dependency list is the id of some Completed or Skipped record. */
  lemma ReadyIff(execs: seq<StepExecution>, def: WorkflowDef, id: string)
    ensures id in ReadyAmong(execs, def.steps) <==>
      exists i :: 0 <= i < |def.steps| && def.steps[i].stepId == id
        && (forall k ::
              0 <= k < |execs| && execs[k].stepId == id && (forall j :: 0 <= j < k ==> execs[j].stepId != id) ==>
              execs[k].status == Pending)
        && forall d :: d in def.steps[i].dependsOn ==>
             exists e :: e in execs && e.stepId == d && (e.status == Completed || e.status == Skipped)
  {
    ReadyMembers(execs, def.steps, id);
    hide ReadyAmong;
    FirstRecord(execs, id);
  }

  lemma FirstRecord(execs: seq<StepExecution>, id: string)
    ensures forall k ::
      0 <= k < |execs| && execs[k].stepId == id && (forall j :: 0 <= j < k ==> execs[j].stepId != id) ==>
      FindExec(execs, id) == Some(k)
  {
  }

  // ---- progress ----

  ghost function PendingCount(execs: seq<StepExecution>): nat {
    if execs == [] then 0
    else PendingCount(execs[..|execs| - 1]) + (if execs[|execs| - 1].status == Pending then 1 else 0)
  }

  lemma {:induction false} PendingCountDrops(a: seq<StepExecution>, b: seq<StepExecution>)
    requires |a| == |b| && forall k :: 0 <= k < |a| && b[k].status == Pending ==> a[k].status == Pending
    ensures PendingCount(b) <= PendingCount(a)
    ensures (exists k :: 0 <= k < |a| && a[k].status == Pending && b[k].status != Pending) ==>
      PendingCount(b) < PendingCount(a)
  {
    if a != [] {
      PendingCountDrops(a[..|a| - 1], b[..|b| - 1]);
      assert forall k :: 0 <= k < |a| - 1 ==> a[..|a| - 1][k] == a[k] && b[..|b| - 1][k] == b[k];
    }
  }

  lemma SomeReadyRecord(execs: seq<StepExecution>, def: WorkflowDef) returns (k: nat)
    requires Aligned(execs, def) && ReadyAmong(execs, def.steps) != []
    ensures k < |execs| && execs[k].status == Pending && Launched(execs, ReadyAmong(execs, def.steps), k)
  {
    var id := ReadyAmong(execs, def.steps)[0];
    hide ReadyAmong;
    ReadyMembers(execs, def.steps, id);
    var i :| 0 <= i < |def.steps| && def.steps[i].stepId == id && IsReady(execs, def.steps[i]);
    assert execs[i].stepId == id;
    k := FindExec(execs, id).value;
  }

  /** Every iteration that launches something strictly lowers the number of Pending records. */
  lemma IterateProgress(execs: seq<StepExecution>, def: WorkflowDef, outcome: Outcome)
    requires Aligned(execs, def) && ReadyAmong(execs, def.steps) != []
    ensures Aligned(Iterate(execs, def, outcome), def)
    ensures PendingCount(Iterate(execs, def, outcome)) < PendingCount(execs)
  {
    hide PendingCount, ReadyAmong;
    var next := Iterate(execs, def, outcome);
    var k := SomeReadyRecord(execs, def);
    assert next[k].status != Pending;
    assert forall j :: 0 <= j < |execs| && next[j].status == Pending ==> execs[j].status == Pending;
    PendingCountDrops(execs, next);
  }

  // ---- whole runs ----

  ghost predicate StepAt(def: WorkflowDef, outcome: Outcome, states: seq<seq<StepExecution>>, waves: seq<seq<string>>,
                         k: nat)
    requires k < |waves| && k + 1 < |states|
  {
    waves[k] == ReadyAmong(states[k], def.steps) != [] && states[k + 1] == Iterate(states[k], def, outcome)
  }

  /** The stored records before, between and after consecutive waves. */
  ghost predicate IsTrace(def: WorkflowDef, outcome: Outcome, states: seq<seq<StepExecution>>,
                          waves: seq<seq<string>>) {
    && |states| == |waves| + 1
    && forall k {:trigger StepAt(def, outcome, states, waves, k)} :: 0 <= k < |waves| ==>
      StepAt(def, outcome, states, waves, k)
  }

  /** `waves` are launched, one after the other, between `execs` and `rest`. */
  ghost predicate RunsTo(def: WorkflowDef, outcome: Outcome, execs: seq<StepExecution>,
                         waves: seq<seq<string>>, rest: seq<StepExecution>)
  {
    exists states :: IsTrace(def, outcome, states, waves) && states[0] == execs && states[|waves|] == rest
  }

  /** A run to the point where nothing is ready any more. */
  ghost predicate IsRun(def: WorkflowDef, outcome: Outcome, execs: seq<StepExecution>,
                        waves: seq<seq<string>>, rest: seq<StepExecution>)
  {
    RunsTo(def, outcome, execs, waves, rest) && ReadyAmong(rest, def.steps) == []
  }

  lemma RunsToStart(def: WorkflowDef, outcome: Outcome, execs: seq<StepExecution>)
    ensures RunsTo(def, outcome, execs, [], execs)
  {
    assert IsTrace(def, outcome, [execs], []);
  }

  lemma RunsToStep(def: WorkflowDef, outcome: Outcome, execs: seq<StepExecution>,
                   waves: seq<seq<string>>, mid: seq<StepExecution>)
    requires RunsTo(def, outcome, execs, waves, mid) && ReadyAmong(mid, def.steps) != []
    ensures RunsTo(def, outcome, execs, waves + [ReadyAmong(mid, def.steps)], Iterate(mid, def, outcome))
  {
    hide ReadyAmong, Iterate;
    var states :| IsTrace(def, outcome, states, waves) && states[0] == execs && states[|waves|] == mid;
    var states', waves' := states + [Iterate(mid, def, outcome)], waves + [ReadyAmong(mid, def.steps)];
    forall k | 0 <= k < |waves'| ensures StepAt(def, outcome, states', waves', k) {
      if k < |waves| { assert StepAt(def, outcome, states, waves, k); }
    }
    assert IsTrace(def, outcome, states', waves') && states'[0] == execs
      && states'[|waves'|] == Iterate(mid, def, outcome);
  }

  /** What one iteration keeps, a whole run keeps: here, the ids of the records. */
  lemma {:induction false} TraceKeepsIds(def: WorkflowDef, outcome: Outcome, states: seq<seq<StepExecution>>,
                                         waves: seq<seq<string>>, k: nat)
    requires IsTrace(def, outcome, states, waves) && k < |states|
    ensures SameIds(states[k], states[0])
  {
    if k > 0 {
      TraceKeepsIds(def, outcome, states, waves, k - 1);
      assert StepAt(def, outcome, states, waves, k - 1);
    }
  }

  class Engine {
    const def: WorkflowDef
    var stored: WorkflowRun
    ghost var waves: seq<seq<string>>

    ghost predicate Valid()
      reads this
    {
      Aligned(stored.steps, def)
    }

    /** handle_workflows_run: a fresh run, stored with status Running. */
    constructor (def: WorkflowDef)
      ensures this.def == def && Valid() && waves == []
      ensures stored == CreateWorkflowRun(def).(status := WfRunning)
    {
      this.def := def;
      stored := CreateWorkflowRun(def).(status := WfRunning);
      waves := [];
    }

    method SaveAsRunning(ready: seq<string>)
      modifies this`stored
      ensures stored == old(stored).(steps := MarkRunning(old(stored.steps), ready))
    {
      var run := stored;
      assert run.steps == MarkRunning(stored.steps, ready[..0]);
      for k := 0 to |ready|
        invariant run == old(stored).(steps := MarkRunning(old(stored.steps), ready[..k]))
      {
        assert ready[..k + 1] == ready[..k] + [ready[k]];
        ghost var before := run.steps;
        run := run.(steps := SetStatus(run.steps, ready[k], Running));
        OneMoreMarked(old(stored.steps), ready[..k], ready[k], before, run.steps);
      }
      assert ready[..|ready|] == ready;
      stored := run;
    }

    method SaveResults(ready: seq<string>, outcome: Outcome)
      modifies this`stored
      ensures stored == old(stored).(steps := ApplyResults(old(stored.steps), def, ready, outcome))
    {
      var run := stored;
      assert run.steps == ApplyResults(stored.steps, def, ready[..0], outcome);
      for k := 0 to |ready|
        invariant run == old(stored).(steps := ApplyResults(old(stored.steps), def, ready[..k], outcome))
      {
        assert ready[..k + 1] == ready[..k] + [ready[k]];
        ghost var before := run.steps;
        var n := multiset(ready[..k + 1])[ready[k]];
        run := run.(steps := SetStatus(run.steps, ready[k], ResultOf(def, outcome, ready[k], n)));
        OneMoreApplied(old(stored.steps), def, ready[..k], ready[k], outcome, before, run.steps);
      }
      assert ready[..|ready|] == ready;
      stored := run;
    }

    /** One non-idle iteration. */
    method LaunchWave(ready: seq<string>, outcome: Outcome)
      requires Valid() && ready == ReadyAmong(stored.steps, def.steps) && ready != []
      modifies this
      ensures Valid() && PendingCount(stored.steps) < PendingCount(old(stored.steps))
      ensures stored == old(stored).(steps := Iterate(old(stored.steps), def, outcome))
      ensures waves == old(waves) + [ready]
    {
      IterateProgress(stored.steps, def, outcome);
      HalvesMakeIteration(stored.steps, def, ready, outcome);
      SaveAsRunning(ready);
      SaveResults(ready, outcome);
      waves := waves + [ready];
    }

    /** The engine's loop. `finished` is false when it reaches the sleep-and-retry branch: from there
        the stored run, on which alone readiness depends, is never written again. */
    method Run(outcome: Outcome) returns (finished: bool)
      requires Valid() && waves == []
      modifies this
      ensures Valid() && IsRun(def, outcome, old(stored.steps), waves, stored.steps)
      ensures finished <==> AllTerminal(stored.steps)
      ensures forall later: Outcome :: Iterate(stored.steps, def, later) == stored.steps
      ensures stored.status == if !finished then old(stored.status)
                               else if RequiredStepFailed(stored.steps, def) then WfFailed else WfCompleted
    {
      RunsToStart(def, outcome, stored.steps);
      while true
        invariant Valid() && stored.status == old(stored.status)
        invariant RunsTo(def, outcome, old(stored.steps), waves, stored.steps)
        decreases PendingCount(stored.steps)
      {
        var run := stored;
        var ready := ReadyStepsWithDef(run, def);
        if ready == [] {
          IdleIsFinal(run.steps, def);
          if AllTerminal(run.steps) { break; }
          return false;
        }
        RunsToStep(def, outcome, old(stored.steps), waves, stored.steps);
        LaunchWave(ready, outcome);
      }
      finished := true;
      stored := stored.(status := if RequiredStepFailed(stored.steps, def) then WfFailed else WfCompleted);
    }
  }

  /** With nothing ready, no later iteration changes anything, whatever the agents would do. */
  lemma IdleIsFinal(execs: seq<StepExecution>, def: WorkflowDef)
    requires ReadyAmong(execs, def.steps) == []
    ensures forall later: Outcome :: Iterate(execs, def, later) == execs
  {
  }

  lemma OneMoreMarked(execs: seq<StepExecution>, ready: seq<string>, id: string,
                      before: seq<StepExecution>, after: seq<StepExecution>)
    requires before == MarkRunning(execs, ready) && after == SetStatus(before, id, Running)
    ensures after == MarkRunning(execs, ready + [id])
  {
    SetStatusAt(before, id, Running);
    forall k | 0 <= k < |execs| ensures after[k] == MarkRunning(execs, ready + [id])[k] {
      assert forall j :: 0 <= j <= k ==> before[j].stepId == execs[j].stepId;
    }
  }

  lemma OneMoreApplied(execs: seq<StepExecution>, def: WorkflowDef, ready: seq<string>, id: string, outcome: Outcome,
                       before: seq<StepExecution>, after: seq<StepExecution>)
    requires before == ApplyResults(execs, def, ready, outcome)
    requires after == SetStatus(before, id, ResultOf(def, outcome, id, multiset(ready + [id])[id]))
    ensures after == ApplyResults(execs, def, ready + [id], outcome)
  {
    SetStatusAt(before, id, ResultOf(def, outcome, id, multiset(ready + [id])[id]));
    forall k | 0 <= k < |execs| ensures after[k] == ApplyResults(execs, def, ready + [id], outcome)[k] {
      assert forall j :: 0 <= j <= k ==> before[j].stepId == execs[j].stepId;
    }
  }

  /** What one iteration stores, repeated ids included: the first record of a ready id takes its status from the last
      launch of the id and from the first definition step with it, here step m; other records stay. */
  lemma IterationStatuses(execs: seq<StepExecution>, def: WorkflowDef, outcome: Outcome, k: nat, m: nat)
    requires k < |execs| && m < |def.steps| && def.steps[m].stepId == execs[k].stepId
    requires forall j :: 0 <= j < m ==> def.steps[j].stepId != execs[k].stepId
    ensures var ready, id := ReadyAmong(execs, def.steps), execs[k].stepId;
            var next, ok := Iterate(execs, def, outcome)[k].status, outcome(id, multiset(ready)[id]);
            if id in ready && forall j :: 0 <= j < k ==> execs[j].stepId != id
            then && (next == Completed <==> ok)
                 && (next == Skipped <==> def.steps[m].optional && !ok)
                 && (next == Failed <==> !def.steps[m].optional && !ok)
            else Iterate(execs, def, outcome)[k] == execs[k]
  {
    hide ReadyAmong;
    assert FindStep(def.steps, execs[k].stepId) == Some(m);
  }

  // ---- safety of every iteration ----

  ghost predicate LegalMove(before: StepStatus, after: StepStatus) {
    before == after || (before == Pending && after.Running?) || (before.Running? && after.Terminal())
  }

  /** A launched record is Pending, and the definition step that made it ready had every
      dependency Completed or Skipped at that moment. */
  lemma LaunchedWasReady(execs: seq<StepExecution>, def: WorkflowDef, k: nat) returns (i: nat)
    requires k < |execs| && Launched(execs, ReadyAmong(execs, def.steps), k)
    ensures execs[k].status == Pending
    ensures i < |def.steps| && def.steps[i].stepId == execs[k].stepId
    ensures UniqueIds(def) && Aligned(execs, def) ==> i == k
    ensures forall d :: d in def.steps[i].dependsOn ==>
      exists e :: e in execs && e.stepId == d && e.status.Satisfied()
  {
    var id := execs[k].stepId;
    ReadyMembers(execs, def.steps, id);
    i :| 0 <= i < |def.steps| && def.steps[i].stepId == id && IsReady(execs, def.steps[i]);
    assert FindExec(execs, id) == Some(k);
    forall d | d in def.steps[i].dependsOn
      ensures exists e :: e in execs && e.stepId == d && e.status.Satisfied()
    {
      assert d in CompletedIds(execs);
    }
  }

  /** Seen from a loop head, where nothing is Running: in the first half of an iteration records only move
      from Pending to Running, in the second exactly those settle, and no optional step ends up Failed. */
  lemma IterationMoves(execs: seq<StepExecution>, def: WorkflowDef, outcome: Outcome, k: nat)
    requires k < |execs| && forall j :: 0 <= j < |execs| ==> execs[j].status != Running
    ensures var ready := ReadyAmong(execs, def.steps);
            var mid, next := MarkRunning(execs, ready), Iterate(execs, def, outcome);
            && |mid| == |next| == |execs|
            && LegalMove(execs[k].status, mid[k].status) && LegalMove(mid[k].status, next[k].status)
            && next[k].status != Running
            && (mid[k].status == Running <==> next[k] != execs[k])
            && (next[k].status == Failed && execs[k].status != Failed ==> !IsOptional(def, execs[k].stepId))
  {
    var ready := ReadyAmong(execs, def.steps);
    if Launched(execs, ready, k) {
      var i := LaunchedWasReady(execs, def, k);
    }
  }

  /** Over a whole run of a fresh record: nothing is Running at a loop head, a record that has left Pending never
      changes again (so no record is launched twice), and no optional step is Failed. */
  lemma {:induction false} TraceSafety(def: WorkflowDef, outcome: Outcome, states: seq<seq<StepExecution>>,
                                       waves: seq<seq<string>>, j: nat, k: nat, i: nat)
    requires IsTrace(def, outcome, states, waves) && j <= k < |states|
    requires states[0] == CreateWorkflowRun(def).steps && i < |def.steps|
    ensures |states[j]| == |states[k]| == |def.steps| && states[k][i].status != Running
    ensures states[j][i].status != Pending ==> states[k][i] == states[j][i]
    ensures states[k][i].status == Failed ==> !IsOptional(def, states[k][i].stepId)
    decreases k
  {
    if k > 0 {
      assert StepAt(def, outcome, states, waves, k - 1);
      TraceKeepsIds(def, outcome, states, waves, k - 1);
      var before := states[k - 1];
      forall m | 0 <= m < |def.steps| ensures before[m].status != Running {
        TraceSafety(def, outcome, states, waves, k - 1, k - 1, m);
      }
      TraceSafety(def, outcome, states, waves, if j < k then j else k - 1, k - 1, i);
      IterationMoves(before, def, outcome, i);
      OnlyPendingChanges(before, def, outcome, i);
    }
  }

  lemma OnlyPendingChanges(execs: seq<StepExecution>, def: WorkflowDef, outcome: Outcome, k: nat)
    requires k < |execs|
    ensures |Iterate(execs, def, outcome)| == |execs| && Iterate(execs, def, outcome)[k].stepId == execs[k].stepId
    ensures execs[k].status != Pending ==> Iterate(execs, def, outcome)[k] == execs[k]
  {
    if Launched(execs, ReadyAmong(execs, def.steps), k) {
      var i := LaunchedWasReady(execs, def, k);
    }
  }
}
