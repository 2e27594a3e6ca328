/** Workflow definitions, run records and the readiness rule
    (crates/apollo-core/src/orchestration.rs). */
module Orchestration {

  import opened Options

  /** One step of a workflow; descriptive fields that no modelled code reads are dropped. */
  datatype WorkflowStep = WorkflowStep(stepId: string, dependsOn: seq<string>, optional: bool)

  datatype WorkflowDef = WorkflowDef(steps: seq<WorkflowStep>)

  datatype StepStatus = Pending | Running | Completed | Failed | Skipped {
    predicate Terminal() { Completed? || Failed? || Skipped? }
    predicate Satisfied() { Completed? || Skipped? }
  }

  datatype StepExecution = StepExecution(stepId: string, status: StepStatus)

  datatype WorkflowStatus = WfPending | WfRunning | WfCompleted | WfFailed | WfCancelled

  datatype WorkflowRun = WorkflowRun(status: WorkflowStatus, steps: seq<StepExecution>)

  ghost predicate UniqueIds(def: WorkflowDef) {
    forall i, j :: 0 <= i < j < |def.steps| ==> def.steps[i].stepId != def.steps[j].stepId
  }

  /** A fresh run: one Pending record per step, in definition order. */
  function CreateWorkflowRun(def: WorkflowDef): WorkflowRun {
    WorkflowRun(WfPending, seq(|def.steps|, i requires 0 <= i < |def.steps| =>
      StepExecution(def.steps[i].stepId, Pending)))
  }

  /** The first record carrying the id. */
  function FindExec(execs: seq<StepExecution>, id: string): (r: Option<nat>)
    ensures r.Some? ==> r.value < |execs| && execs[r.value].stepId == id
                        && forall j :: 0 <= j < r.value ==> execs[j].stepId != id
    ensures r.None? ==> forall j :: 0 <= j < |execs| ==> execs[j].stepId != id
  {
    FirstIndex(execs, (e: StepExecution) => e.stepId == id)
  }

  function CompletedIds(execs: seq<StepExecution>): set<string> {
    set e | e in execs && e.status.Satisfied() :: e.stepId
  }

  /** The two filters a definition step must pass to be ready. */
  predicate IsReady(execs: seq<StepExecution>, step: WorkflowStep) {
    var exec := FindExec(execs, step.stepId);
    && (exec.Some? ==> execs[exec.value].status == Pending)
    && forall d :: d in step.dependsOn ==> d in CompletedIds(execs)
  }

  function ReadyAmong(execs: seq<StepExecution>, steps: seq<WorkflowStep>): seq<string> {
    if steps == [] then []
    else
      var init := ReadyAmong(execs, steps[..|steps| - 1]);
      var step := steps[|steps| - 1];
      if IsReady(execs, step) then init + [step.stepId] else init
  }

  function ReadyStepsWithDef(run: WorkflowRun, def: WorkflowDef): seq<string> {
    ReadyAmong(run.steps, def.steps)
  }
}
