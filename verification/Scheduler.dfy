/** Scheduled jobs: storage, firing, and one turn of the tick loop (crates/apollo-core/src/scheduler.rs and
    run_scheduler_loop in crates/apollo-node/src/main.rs). The clock is an argument; ids need not be distinct. */
module Scheduler {
  import opened Options
  import opened CronExpr
  import opened CronSearch

  datatype Schedule = CronJob(expression: string) | Interval(secs: nat) | Once(at: nat)

  datatype NextRun = Panic | Never | Next(ts: nat)

  /** Schedule::next_after */
  ghost function NextAfter(s: Schedule, after: nat): NextRun {
    match s
    case Once(at) => if at > after then Next(at) else Never
    case Interval(secs) => Next(after + secs)
    case CronJob(expression) =>
      match NextCronOf(expression, after)
      case CronPanic => Panic
      case NoTime => Never
      case At(ts) => Next(ts)
  }

  method ComputeNext(s: Schedule, after: nat) returns (r: NextRun)
    ensures r == NextAfter(s, after)
  {
    match s {
      case Once(at) => r := if at > after then Next(at) else Never;
      case Interval(secs) => r := Next(after + secs);
      case CronJob(expression) =>
        hide NextCronOf;
        var c := NextCron(expression, after);
        r := if c.CronPanic? then Panic else if c.NoTime? then Never else Next(c.ts);
    }
  }

  datatype Job = Job(id: string, schedule: Schedule, enabled: bool, createdAt: nat, updatedAt: nat,
                     lastRun: Option<nat>, nextRun: nat, runCount: nat, failCount: nat)

  datatype RunRecord = RunRecord(jobId: string, firedAt: nat, ok: bool)

  predicate IsDue(j: Job, now: nat) {
    j.enabled && j.nextRun <= now
  }

  /** The expression parses without the panicking step; create_job lets no other job into the store. */
  predicate NeverPanics(s: Schedule) {
    s.CronJob? ==> CronOf(s.expression) != CronPanics
  }

  ghost function NextOr(s: Schedule, now: nat, fallback: nat): nat {
    match NextAfter(s, now)
    case Next(ts) => ts
    case _ => fallback
  }

  /** create_job's record. */
  ghost function CreatedJob(j: Job, now: nat): Job {
    j.(createdAt := now, updatedAt := now, nextRun := NextOr(j.schedule, now, now + 60))
  }

  /** mark_fired's update of the job. */
  ghost function FiredJob(j: Job, now: nat, ok: bool): Job {
    j.(lastRun := Some(now), runCount := j.runCount + 1, failCount := if ok then j.failCount else j.failCount + 1,
       nextRun := NextOr(j.schedule, now, now + 86400), enabled := j.enabled && !j.schedule.Once?)
  }

  function Position(jobs: seq<Job>, id: string): (r: Option<nat>)
    ensures r.Some? ==> r.value < |jobs| && jobs[r.value].id == id
                        && forall i :: 0 <= i < r.value ==> jobs[i].id != id
    ensures r.None? ==> forall i :: 0 <= i < |jobs| ==> jobs[i].id != id
  {
    FirstIndex(jobs, (j: Job) => j.id == id)
  }

  /** The enabled jobs whose time has come, in store order. */
  function DueAmong(jobs: seq<Job>, now: nat): seq<Job> {
    if jobs == [] then []
    else
      var init := DueAmong(jobs[..|jobs| - 1], now);
      if IsDue(jobs[|jobs| - 1], now) then init + [jobs[|jobs| - 1]] else init
  }

  /** The end of a task spawned for a due job: its call of mark_fired. */
  datatype End = End(id: string, at: nat, ok: bool)

  /** mark_fired on the stored jobs: the first one with the id, if there is one, is updated. */
  ghost function Marked(jobs: seq<Job>, e: End): seq<Job> {
    match Position(jobs, e.id)
    case None => jobs
    case Some(p) => jobs[p := FiredJob(jobs[p], e.at, e.ok)]
  }

  /** Several calls, one after the other. */
  ghost function MarkedAll(jobs: seq<Job>, ends: seq<End>): seq<Job> {
    if ends == [] then jobs else Marked(MarkedAll(jobs, ends[..|ends| - 1]), ends[|ends| - 1])
  }

  lemma PanicsWhen(s: Schedule, now: nat)
    ensures NextAfter(s, now) == Panic <==> !NeverPanics(s)
  {
    hide CronOf, NextTime;
  }

  /** `from` holds, ascending, the positions of the due jobs, and `due` those jobs. */
  ghost predicate ListsDue(jobs: seq<Job>, now: nat, due: seq<Job>, from: seq<nat>) {
    && |due| == |from| && Ascending(from)
    && (forall k :: 0 <= k < |from| ==> from[k] < |jobs| && due[k] == jobs[from[k]])
    && (forall i: nat :: i in from <==> i < |jobs| && IsDue(jobs[i], now))
  }

  lemma {:induction false} DueAmongLists(jobs: seq<Job>, now: nat) returns (from: seq<nat>)
    ensures ListsDue(jobs, now, DueAmong(jobs, now), from)
  {
    from := [];
    if jobs != [] {
      var m := |jobs| - 1;
      from := DueAmongLists(jobs[..m], now);
      assert jobs == jobs[..m] + [jobs[m]];
      hide ListsDue, IsDue;
      OneMoreListed(jobs[..m], jobs[m], now, DueAmong(jobs[..m], now), from);
      if IsDue(jobs[m], now) { from := from + [m]; }
    }
  }

  lemma OneMoreListed(jobs: seq<Job>, j: Job, now: nat, due: seq<Job>, from: seq<nat>)
    requires ListsDue(jobs, now, due, from)
    ensures if IsDue(j, now) then ListsDue(jobs + [j], now, due + [j], from + [|jobs|])
      else ListsDue(jobs + [j], now, due, from)
  {
    hide IsDue;
    var more, from' := jobs + [j], if IsDue(j, now) then from + [|jobs|] else from;
    forall i: nat ensures i in from' <==> i < |more| && IsDue(more[i], now) {
      assert i in from' <==> i in from || (IsDue(j, now) && i == |jobs|);
      if i < |jobs| { assert more[i] == jobs[i]; }
    }
  }

  class JobStore {
    var jobs: seq<Job>
    var history: seq<RunRecord>

    ghost predicate Valid()
      reads this
    {
      forall i :: 0 <= i < |jobs| ==> NeverPanics(jobs[i].schedule)
    }

    constructor ()
      ensures Valid() && jobs == [] && history == []
    {
      jobs, history := [], [];
    }

    /** `freshId` stands for the generated UUID; an id the caller supplies is taken as it is, stored before or not.
        A panic in the cron parser leaves the store as it was. */
    method CreateJob(job: Job, freshId: string, now: nat) returns (created: Option<Job>)
      requires Valid()
      modifies this`jobs
      ensures Valid()
      ensures var j := if job.id == "" then job.(id := freshId) else job;
              if NeverPanics(job.schedule)
              then created == Some(CreatedJob(j, now)) && jobs == old(jobs) + [created.value]
              else created == None && jobs == old(jobs)
    {
      var j := if job.id == "" then job.(id := freshId) else job;
      PanicsWhen(j.schedule, now);
      var next := ComputeNext(j.schedule, now);
      if next == Panic { return None; }
      j := j.(createdAt := now, updatedAt := now, nextRun := if next.Next? then next.ts else now + 60);
      jobs := jobs + [j];
      created := Some(j);
    }

    /** Only the first job with the id changes; an unknown id only leaves a history line. */
    method MarkFired(id: string, ok: bool, now: nat)
      requires Valid()
      modifies this
      ensures Valid()
      ensures history == old(history) + [RunRecord(id, now, ok)]
      ensures jobs == Marked(old(jobs), End(id, now, ok))
    {
      var pos := Position(jobs, id);
      if pos.Some? {
        var j := jobs[pos.value];
        j := j.(lastRun := Some(now), runCount := j.runCount + 1);
        if !ok { j := j.(failCount := j.failCount + 1); }
        PanicsWhen(j.schedule, now);
        var next := ComputeNext(j.schedule, now);
        j := j.(nextRun := if next.Next? then next.ts else now + 86400);
        if j.schedule.Once? { j := j.(enabled := false); }
        jobs := jobs[pos.value := j];
      }
      history := history + [RunRecord(id, now, ok)];
    }

    /** Exactly the due jobs, in store order; `from` says where each is stored. */
    method DueJobs(now: nat) returns (due: seq<Job>, ghost from: seq<nat>)
      ensures ListsDue(jobs, now, due, from) && due == DueAmong(jobs, now)
    {
      from := DueAmongLists(jobs, now);
      due := DueAmong(jobs, now);
    }

    /** One turn of the scheduler loop: the due jobs are launched, and before the next turn the calls `ends`
        arrive, in this order, from tasks launched now or earlier. */
    method Tick(now: nat, ends: seq<End>) returns (launched: seq<Job>, ghost from: seq<nat>)
      requires Valid()
      modifies this
      ensures Valid() && ListsDue(old(jobs), now, launched, from)
      ensures jobs == MarkedAll(old(jobs), ends)
      ensures |history| == |old(history)| + |ends| && old(history) == history[..|old(history)|]
      ensures forall k :: 0 <= k < |ends| ==>
        history[|old(history)| + k] == RunRecord(ends[k].id, ends[k].at, ends[k].ok)
    {
      launched, from := DueJobs(now);
      hide Marked, ListsDue;
      for k := 0 to |ends|
        invariant Valid() && jobs == MarkedAll(old(jobs), ends[..k])
        invariant |history| == |old(history)| + k && old(history) == history[..|old(history)|]
        invariant forall j :: 0 <= j < k ==>
          history[|old(history)| + j] == RunRecord(ends[j].id, ends[j].at, ends[j].ok)
      {
        assert ends[..k + 1][..k] == ends[..k];
        MarkFired(ends[k].id, ends[k].ok, ends[k].at);
      }
      assert ends[..|ends|] == ends;
    }
  }
}
