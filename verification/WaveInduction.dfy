/** The induction over engine iterations, stated for any assignment of levels and stuck marks
    that fits the dependencies. PlanExecution supplies the longest-chain levels. */
module WaveInduction {
  import opened Options
  import opened Orchestration
  import opened WorkflowEngine

  /** Per step: its level, and whether it can never be launched. */
  datatype Shape = Shape(level: seq<nat>, stuck: seq<bool>)

  /** A required step whose agent would fail to start. */
  ghost predicate Bad(def: WorkflowDef, outcome: Outcome, i: nat)
    requires i < |def.steps|
  {
    !def.steps[i].optional && !outcome(def.steps[i].stepId, 1)
  }

  /** `idx` finds every step by its id. */
  ghost predicate Indexes(def: WorkflowDef, idx: map<string, nat>) {
    && (forall i :: 0 <= i < |def.steps| ==> def.steps[i].stepId in idx && idx[def.steps[i].stepId] == i)
    && (forall id :: id in idx ==> idx[id] < |def.steps| && def.steps[idx[id]].stepId == id)
  }

  ghost predicate Clear(def: WorkflowDef, outcome: Outcome, idx: map<string, nat>, sh: Shape, d: string)
    requires Indexes(def, idx) && |sh.stuck| == |def.steps|
  {
    d in idx && !sh.stuck[idx[d]] && !Bad(def, outcome, idx[d])
  }

  ghost predicate Fits(def: WorkflowDef, outcome: Outcome, idx: map<string, nat>, sh: Shape, i: nat)
    requires Indexes(def, idx) && |sh.stuck| == |sh.level| == |def.steps| && i < |def.steps|
  {
    var deps := def.steps[i].dependsOn;
    if sh.stuck[i] then exists d :: d in deps && !Clear(def, outcome, idx, sh, d)
    else
      && (forall d :: d in deps ==> Clear(def, outcome, idx, sh, d) && sh.level[idx[d]] < sh.level[i])
      && (sh.level[i] > 0 ==> exists d :: d in deps && d in idx && sh.level[idx[d]] + 1 == sh.level[i])
  }

  ghost predicate Sound(def: WorkflowDef, outcome: Outcome, idx: map<string, nat>, sh: Shape) {
    && Indexes(def, idx) && |sh.stuck| == |sh.level| == |def.steps|
    && forall i {:trigger Fits(def, outcome, idx, sh, i)} :: 0 <= i < |def.steps| ==> Fits(def, outcome, idx, sh, i)
  }

  ghost function SettledStatus(def: WorkflowDef, outcome: Outcome, i: nat): StepStatus
    requires i < |def.steps|
  {
    ResultStatus(def.steps[i].optional, outcome(def.steps[i].stepId, 1))
  }

  ghost function StatusAt(def: WorkflowDef, outcome: Outcome, sh: Shape, k: nat, i: nat): StepStatus
    requires |sh.stuck| == |sh.level| == |def.steps| && i < |def.steps|
  {
    if sh.stuck[i] || sh.level[i] >= k then Pending else SettledStatus(def, outcome, i)
  }

  /** The records after k waves: unstuck steps below level k have settled, all others are Pending. */
  ghost predicate AtWave(def: WorkflowDef, outcome: Outcome, sh: Shape, k: nat, execs: seq<StepExecution>)
    requires |sh.stuck| == |sh.level| == |def.steps|
  {
    && Aligned(execs, def)
    && forall i :: 0 <= i < |execs| ==> execs[i].status == StatusAt(def, outcome, sh, k, i)
  }

  /** The ids of the first n steps that are unstuck and on level k. */
  ghost function WaveIds(def: WorkflowDef, sh: Shape, k: nat, n: nat): seq<string>
    requires |sh.stuck| == |sh.level| == |def.steps| && n <= |def.steps|
  {
    if n == 0 then []
    else WaveIds(def, sh, k, n - 1) + (if sh.level[n - 1] == k && !sh.stuck[n - 1]
      then [def.steps[n - 1].stepId] else [])
  }

  lemma FindsItself(def: WorkflowDef, idx: map<string, nat>, execs: seq<StepExecution>, i: nat)
    requires Indexes(def, idx) && Aligned(execs, def) && i < |execs|
    ensures FindExec(execs, execs[i].stepId) == Some(i) && FirstOfItsId(execs, i)
    ensures FindStep(def.steps, def.steps[i].stepId) == Some(i)
  {
    assert forall j :: 0 <= j < |execs| && j != i ==> execs[j].stepId != execs[i].stepId by {
      forall j | 0 <= j < |execs| && j != i ensures execs[j].stepId != execs[i].stepId {
        assert idx[def.steps[j].stepId] == j && idx[def.steps[i].stepId] == i;
      }
    }
    var k := FindExec(execs, execs[i].stepId);
    var m := FindStep(def.steps, def.steps[i].stepId);
    assert execs[m.value].stepId == execs[i].stepId;
  }

  /** With distinct ids, "dependency d is Completed or Skipped" is a statement about the step named d. */
  lemma CompletedDependency(def: WorkflowDef, idx: map<string, nat>, execs: seq<StepExecution>, d: string)
    requires Indexes(def, idx) && Aligned(execs, def)
    ensures d in CompletedIds(execs) <==> d in idx && execs[idx[d]].status.Satisfied()
  {
    if d in CompletedIds(execs) {
      var e :| e in execs && e.status.Satisfied() && e.stepId == d;
      var j :| 0 <= j < |execs| && execs[j] == e;
      assert def.steps[j].stepId == d;
    }
  }

  lemma SatisfiedAtWave(def: WorkflowDef, outcome: Outcome, idx: map<string, nat>, sh: Shape, k: nat,
                        execs: seq<StepExecution>, d: string)
    requires Indexes(def, idx) && |sh.stuck| == |sh.level| == |def.steps| && AtWave(def, outcome, sh, k, execs)
    ensures d in CompletedIds(execs) <==> Clear(def, outcome, idx, sh, d) && sh.level[idx[d]] < k
  {
    CompletedDependency(def, idx, execs, d);
    if d in idx { assert execs[idx[d]].status == StatusAt(def, outcome, sh, k, idx[d]); }
  }

  lemma ReadyAtWave(def: WorkflowDef, outcome: Outcome, idx: map<string, nat>, sh: Shape, k: nat,
                    execs: seq<StepExecution>, i: nat)
    requires Sound(def, outcome, idx, sh) && AtWave(def, outcome, sh, k, execs) && i < |execs|
    ensures IsReady(execs, def.steps[i]) <==> sh.level[i] == k && !sh.stuck[i]
  {
    FindsItself(def, idx, execs, i);
    assert Fits(def, outcome, idx, sh, i);
    assert execs[i].status == StatusAt(def, outcome, sh, k, i);
    forall d | d in def.steps[i].dependsOn
      ensures d in CompletedIds(execs) <==> Clear(def, outcome, idx, sh, d) && sh.level[idx[d]] < k
    {
      SatisfiedAtWave(def, outcome, idx, sh, k, execs, d);
    }
  }

  lemma {:induction false} ReadyIsWave(def: WorkflowDef, outcome: Outcome, idx: map<string, nat>, sh: Shape, k: nat,
                                       execs: seq<StepExecution>, n: nat)
    requires Sound(def, outcome, idx, sh) && AtWave(def, outcome, sh, k, execs) && n <= |execs|
    ensures ReadyAmong(execs, def.steps[..n]) == WaveIds(def, sh, k, n)
  {
    if n > 0 {
      ReadyIsWave(def, outcome, idx, sh, k, execs, n - 1);
      ReadyAtWave(def, outcome, idx, sh, k, execs, n - 1);
      assert def.steps[..n][..n - 1] == def.steps[..n - 1];
    }
  }

  lemma AtWaveStep(def: WorkflowDef, outcome: Outcome, idx: map<string, nat>, sh: Shape, k: nat,
                   execs: seq<StepExecution>)
    requires Sound(def, outcome, idx, sh) && AtWave(def, outcome, sh, k, execs)
    ensures AtWave(def, outcome, sh, k + 1, Iterate(execs, def, outcome))
  {
    var ready, next := ReadyAmong(execs, def.steps), Iterate(execs, def, outcome);
    hide ReadyAmong, IsReady;
    forall i | 0 <= i < |execs| ensures next[i].status == StatusAt(def, outcome, sh, k + 1, i) {
      FindsItself(def, idx, execs, i);
      ReadyAtWave(def, outcome, idx, sh, k, execs, i);
      assert execs[i].status == StatusAt(def, outcome, sh, k, i);
      OnlyItselfReady(def, idx, execs, i);
      ReadyOnce(def, idx, execs, i, |def.steps|);
      assert def.steps[..|def.steps|] == def.steps;
    }
  }

  /** With distinct ids, a wave launches no id twice. */
  lemma {:induction false} ReadyOnce(def: WorkflowDef, idx: map<string, nat>, execs: seq<StepExecution>, i: nat, n: nat)
    requires Indexes(def, idx) && i < |def.steps| && n <= |def.steps|
    ensures multiset(ReadyAmong(execs, def.steps[..n]))[def.steps[i].stepId]
         == if i < n && IsReady(execs, def.steps[i]) then 1 else 0
  {
    if n > 0 {
      ReadyOnce(def, idx, execs, i, n - 1);
      assert def.steps[..n][..n - 1] == def.steps[..n - 1];
      assert idx[def.steps[n - 1].stepId] == n - 1 && idx[def.steps[i].stepId] == i;
    }
  }

  lemma OnlyItselfReady(def: WorkflowDef, idx: map<string, nat>, execs: seq<StepExecution>, i: nat)
    requires Indexes(def, idx) && Aligned(execs, def) && i < |execs|
    ensures execs[i].stepId in ReadyAmong(execs, def.steps) <==> IsReady(execs, def.steps[i])
  {
    ReadyMembers(execs, def.steps, execs[i].stepId);
    forall j | 0 <= j < |def.steps| && def.steps[j].stepId == execs[i].stepId ensures j == i {
      assert idx[def.steps[j].stepId] == j && idx[def.steps[i].stepId] == i;
    }
  }

  lemma {:induction false} WaveMembers(def: WorkflowDef, sh: Shape, k: nat, n: nat)
    requires |sh.stuck| == |sh.level| == |def.steps| && n <= |def.steps|
    ensures WaveIds(def, sh, k, n) != [] <==> exists i :: 0 <= i < n && sh.level[i] == k && !sh.stuck[i]
  {
    if n > 0 { WaveMembers(def, sh, k, n - 1); }
  }

  lemma {:induction false} UnstuckBelow(def: WorkflowDef, outcome: Outcome, idx: map<string, nat>, sh: Shape, i: nat,
                                        lvl: nat)
    returns (j: nat)
    requires Sound(def, outcome, idx, sh) && i < |def.steps| && !sh.stuck[i] && lvl <= sh.level[i]
    ensures j < |def.steps| && !sh.stuck[j] && sh.level[j] == lvl
    decreases sh.level[i]
  {
    if sh.level[i] == lvl {
      j := i;
    } else {
      assert Fits(def, outcome, idx, sh, i);
      var d :| d in def.steps[i].dependsOn && d in idx && sh.level[idx[d]] + 1 == sh.level[i];
      assert Clear(def, outcome, idx, sh, d);
      j := UnstuckBelow(def, outcome, idx, sh, idx[d], lvl);
    }
  }

  /** The first wave with nothing to launch is followed by no other: every unstuck step lies below it. */
  lemma EmptyWaveIsFinal(def: WorkflowDef, outcome: Outcome, idx: map<string, nat>, sh: Shape, k: nat)
    requires Sound(def, outcome, idx, sh) && WaveIds(def, sh, k, |def.steps|) == []
    ensures forall i :: 0 <= i < |def.steps| && !sh.stuck[i] ==> sh.level[i] < k
  {
    WaveMembers(def, sh, k, |def.steps|);
    forall i | 0 <= i < |def.steps| && !sh.stuck[i] ensures sh.level[i] < k {
      if sh.level[i] >= k { var j := UnstuckBelow(def, outcome, idx, sh, i, k); }
    }
  }

  /** Along a trace from a fresh run, wave k is the unstuck part of level k. */
  lemma {:induction false} TraceFollowsLevels(def: WorkflowDef, outcome: Outcome, idx: map<string, nat>, sh: Shape,
                                              states: seq<seq<StepExecution>>, waves: seq<seq<string>>, k: nat)
    requires Sound(def, outcome, idx, sh) && IsTrace(def, outcome, states, waves) && k < |states|
    requires AtWave(def, outcome, sh, 0, states[0])
    ensures AtWave(def, outcome, sh, k, states[k])
    ensures ReadyAmong(states[k], def.steps) == WaveIds(def, sh, k, |def.steps|)
  {
    hide Iterate, ReadyAmong, WaveIds, Sound;
    if k > 0 {
      TraceFollowsLevels(def, outcome, idx, sh, states, waves, k - 1);
      AtWaveStep(def, outcome, idx, sh, k - 1, states[k - 1]);
      assert StepAt(def, outcome, states, waves, k - 1);
    }
    ReadyIsWave(def, outcome, idx, sh, k, states[k], |def.steps|);
    assert def.steps[..|def.steps|] == def.steps;
  }

  /** `waves` are the unstuck steps level by level, ending above every unstuck step; `rest` holds the results. */
  ghost predicate Executes(def: WorkflowDef, outcome: Outcome, sh: Shape, waves: seq<seq<string>>,
                           rest: seq<StepExecution>)
    requires |sh.stuck| == |sh.level| == |def.steps|
  {
    && (forall k :: 0 <= k < |waves| ==> waves[k] == WaveIds(def, sh, k, |def.steps|) != [])
    && (forall i :: 0 <= i < |def.steps| && !sh.stuck[i] ==> sh.level[i] < |waves|)
    && AtWave(def, outcome, sh, |waves|, rest)
  }

  lemma RunExecutes(def: WorkflowDef, outcome: Outcome, idx: map<string, nat>, sh: Shape, execs: seq<StepExecution>,
                    waves: seq<seq<string>>, rest: seq<StepExecution>)
    requires Sound(def, outcome, idx, sh) && AtWave(def, outcome, sh, 0, execs)
    requires IsRun(def, outcome, execs, waves, rest)
    ensures Executes(def, outcome, sh, waves, rest)
  {
    hide ReadyAmong, Iterate, AtWave;
    var states :| IsTrace(def, outcome, states, waves) && states[0] == execs && states[|waves|] == rest;
    forall k | 0 <= k < |waves| ensures waves[k] == WaveIds(def, sh, k, |def.steps|) != [] {
      TraceFollowsLevels(def, outcome, idx, sh, states, waves, k);
      assert StepAt(def, outcome, states, waves, k);
    }
    TraceFollowsLevels(def, outcome, idx, sh, states, waves, |waves|);
    EmptyWaveIsFinal(def, outcome, idx, sh, |waves|);
  }
}
