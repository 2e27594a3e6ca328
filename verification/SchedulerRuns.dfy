/** Whole runs of the scheduler loop: which records change, which jobs are launched, and how often
    (run_scheduler_loop in crates/apollo-node/src/main.rs over crates/apollo-core/src/scheduler.rs). */
module SchedulerRuns {
  import opened Options
  import opened Scheduler

  // ---- what the calls of one round do to one record ----

  ghost predicate FirstWithId(jobs: seq<Job>, i: nat)
    requires i < |jobs|
  {
    forall j :: 0 <= j < i ==> jobs[j].id != jobs[i].id
  }

  ghost predicate OnlyWithId(jobs: seq<Job>, i: nat)
    requires i < |jobs|
  {
    forall j :: 0 <= j < |jobs| && j != i ==> jobs[j].id != jobs[i].id
  }

  ghost predicate SameJobs(a: seq<Job>, b: seq<Job>) {
    |a| == |b| && forall i :: 0 <= i < |a| ==> a[i].id == b[i].id && a[i].schedule == b[i].schedule
  }

  ghost function EndIds(ends: seq<End>): multiset<string> {
    if ends == [] then multiset{} else EndIds(ends[..|ends| - 1]) + multiset{ends[|ends| - 1].id}
  }

  /** The last of the calls that names the id. */
  ghost function LastEnd(ends: seq<End>, id: string): End {
    if ends == [] then End(id, 0, false)
    else if ends[|ends| - 1].id == id then ends[|ends| - 1] else LastEnd(ends[..|ends| - 1], id)
  }

  lemma MarkedAt(jobs: seq<Job>, e: End)
    ensures SameJobs(Marked(jobs, e), jobs)
    ensures forall i :: 0 <= i < |jobs| ==>
      Marked(jobs, e)[i] == if e.id == jobs[i].id && FirstWithId(jobs, i)
        then FiredJob(jobs[i], e.at, e.ok) else jobs[i]
  {
    hide NextOr, Position;
    var p := Position(jobs, e.id);
  }

  /** A record changes only if it is the first with its id and some call names the id; then the last such call
      decides its next time, and a Once job is disabled. */
  lemma MarkedAllAt(jobs: seq<Job>, ends: seq<End>, i: nat)
    requires i < |jobs|
    ensures SameJobs(MarkedAll(jobs, ends), jobs)
    ensures var j, next := jobs[i], MarkedAll(jobs, ends)[i];
            var n, last := EndIds(ends)[j.id], LastEnd(ends, j.id);
            && (!FirstWithId(jobs, i) || n == 0 ==> next == j)
            && (FirstWithId(jobs, i) && n > 0 ==> next.nextRun == NextOr(j.schedule, last.at, last.at + 86400))
            && (!j.enabled || (FirstWithId(jobs, i) && n > 0 && j.schedule.Once?) ==> !next.enabled)
            && (!j.schedule.Once? ==> next.enabled == j.enabled)
  {
    MarkedAllKeeps(jobs, ends);
    FoldedAt(jobs, ends, i);
    hide MarkedAll;
    FoldedIs(jobs[i], ends);
  }

  lemma {:induction false} MarkedAllKeeps(jobs: seq<Job>, ends: seq<End>)
    ensures SameJobs(MarkedAll(jobs, ends), jobs)
  {
    if ends != [] {
      var m := |ends| - 1;
      MarkedAllKeeps(jobs, ends[..m]);
      hide Marked;
      MarkedAt(MarkedAll(jobs, ends[..m]), ends[m]);
    }
  }

  /** A record after the calls that name its id. */
  ghost function Folded(j: Job, ends: seq<End>): Job {
    if ends == [] then j
    else
      var m := |ends| - 1;
      var before := Folded(j, ends[..m]);
      if ends[m].id == j.id then FiredJob(before, ends[m].at, ends[m].ok) else before
  }

  lemma {:induction false} FoldedAt(jobs: seq<Job>, ends: seq<End>, i: nat)
    requires i < |jobs|
    ensures |MarkedAll(jobs, ends)| == |jobs|
    ensures MarkedAll(jobs, ends)[i] == if FirstWithId(jobs, i) then Folded(jobs[i], ends) else jobs[i]
  {
    if ends != [] {
      var m := |ends| - 1;
      var before := MarkedAll(jobs, ends[..m]);
      FoldedAt(jobs, ends[..m], i);
      MarkedAllKeeps(jobs, ends[..m]);
      hide MarkedAll, Marked, FiredJob;
      MarkedAt(before, ends[m]);
      assert FirstWithId(before, i) <==> FirstWithId(jobs, i);
      assert MarkedAll(jobs, ends) == Marked(before, ends[m]) by { MarkedAllLast(jobs, ends); }
    }
  }

  lemma MarkedAllLast(jobs: seq<Job>, ends: seq<End>)
    requires ends != []
    ensures MarkedAll(jobs, ends) == Marked(MarkedAll(jobs, ends[..|ends| - 1]), ends[|ends| - 1])
  {
  }

  lemma {:induction false} FoldedIs(j: Job, ends: seq<End>)
    ensures var next, n, last := Folded(j, ends), EndIds(ends)[j.id], LastEnd(ends, j.id);
            && next.id == j.id && next.schedule == j.schedule
            && (n == 0 ==> next == j)
            && (n > 0 ==> next.nextRun == NextOr(j.schedule, last.at, last.at + 86400))
            && (!j.enabled || (n > 0 && j.schedule.Once?) ==> !next.enabled)
            && (!j.schedule.Once? ==> next.enabled == j.enabled)
  {
    if ends != [] {
      FoldedIs(j, ends[..|ends| - 1]);
      hide NextOr;
    }
  }

  // ---- the ids of the due jobs ----

  /** One task is launched per due job. */
  ghost function LaunchedIds(jobs: seq<Job>, now: nat): multiset<string> {
    IdsOf(DueAmong(jobs, now))
  }

  ghost function IdsOf(jobs: seq<Job>): multiset<string> {
    if jobs == [] then multiset{} else IdsOf(jobs[..|jobs| - 1]) + multiset{jobs[|jobs| - 1].id}
  }

  lemma LaunchedStep(jobs: seq<Job>, now: nat)
    requires jobs != []
    ensures var m := |jobs| - 1;
      LaunchedIds(jobs, now) == LaunchedIds(jobs[..m], now) + if IsDue(jobs[m], now)
        then multiset{jobs[m].id} else multiset{}
  {
    var init := DueAmong(jobs[..|jobs| - 1], now);
    assert (init + [jobs[|jobs| - 1]])[..|init|] == init;
  }

  lemma {:induction false} NoneLaunched(jobs: seq<Job>, now: nat, id: string)
    requires forall j :: 0 <= j < |jobs| && jobs[j].id == id ==> !IsDue(jobs[j], now)
    ensures LaunchedIds(jobs, now)[id] == 0
  {
    if jobs != [] {
      hide LaunchedIds;
      LaunchedStep(jobs, now);
      NoneLaunched(jobs[..|jobs| - 1], now, id);
    } else {
      assert DueAmong(jobs, now) == [];
    }
  }

  lemma {:induction false} DueIsLaunched(jobs: seq<Job>, now: nat, i: nat)
    requires i < |jobs| && IsDue(jobs[i], now)
    ensures LaunchedIds(jobs, now)[jobs[i].id] >= 1
    ensures OnlyWithId(jobs, i) ==> LaunchedIds(jobs, now)[jobs[i].id] == 1
  {
    var m := |jobs| - 1;
    hide LaunchedIds;
    LaunchedStep(jobs, now);
    if i < m {
      DueIsLaunched(jobs[..m], now, i);
    } else if OnlyWithId(jobs, i) {
      NoneLaunched(jobs[..m], now, jobs[i].id);
    }
  }

  // ---- runs ----

  /** One turn: its time, and the calls of mark_fired that arrive before the next one, in order: from tasks launched
      now or earlier, and from jobs run by hand. */
  datatype Round = Round(now: nat, ends: seq<End>)

  ghost predicate RoundAt(states: seq<seq<Job>>, rounds: seq<Round>, k: nat)
    requires k < |rounds| && k + 1 < |states|
  {
    states[k + 1] == MarkedAll(states[k], rounds[k].ends)
  }

  /** The stored jobs before, between and after consecutive rounds; no job is created, updated or deleted. */
  ghost predicate IsSchedule(states: seq<seq<Job>>, rounds: seq<Round>) {
    && |states| == |rounds| + 1
    && forall k {:trigger RoundAt(states, rounds, k)} :: 0 <= k < |rounds| ==> RoundAt(states, rounds, k)
  }

  /** The calls arriving in round k are those of the tasks it launched, one each. */
  ghost predicate SettledAt(states: seq<seq<Job>>, rounds: seq<Round>, k: nat)
    requires k < |rounds| && k < |states|
  {
    EndIds(rounds[k].ends) == LaunchedIds(states[k], rounds[k].now)
  }

  /** No task is still running when the next round begins. */
  ghost predicate IsSettled(states: seq<seq<Job>>, rounds: seq<Round>) {
    && IsSchedule(states, rounds)
    && forall k {:trigger SettledAt(states, rounds, k)} :: 0 <= k < |rounds| ==> SettledAt(states, rounds, k)
  }

  /** Job i is launched in round k. */
  ghost predicate FiresIn(states: seq<seq<Job>>, rounds: seq<Round>, i: nat, k: nat)
    requires k < |rounds| && k < |states|
  {
    i < |states[k]| && IsDue(states[k][i], rounds[k].now)
  }

  /** Some call of round k updates record i: it names its id, and no record before it has the id. */
  ghost predicate Reached(states: seq<seq<Job>>, rounds: seq<Round>, i: nat, k: nat)
    requires k < |rounds| && k < |states|
  {
    i < |states[k]| && FirstWithId(states[k], i) && EndIds(rounds[k].ends)[states[k][i].id] > 0
  }

  /** When the last call to name record i's id in round k was made. */
  ghost function LastAt(states: seq<seq<Job>>, rounds: seq<Round>, i: nat, k: nat): nat
    requires k < |rounds| && k < |states|
  {
    if i < |states[k]| then LastEnd(rounds[k].ends, states[k][i].id).at else 0
  }

  ghost predicate ClockAdvances(rounds: seq<Round>) {
    forall k, l :: 0 <= k <= l < |rounds| ==> rounds[k].now <= rounds[l].now
  }

  lemma {:induction false} ScheduleKeepsJobs(states: seq<seq<Job>>, rounds: seq<Round>, n: nat)
    requires IsSchedule(states, rounds) && n < |states|
    ensures SameJobs(states[n], states[0])
    ensures forall i :: 0 <= i < |states[0]| && !states[0][i].schedule.Once? ==>
      states[n][i].enabled == states[0][i].enabled
  {
    if n > 0 {
      ScheduleKeepsJobs(states, rounds, n - 1);
      assert RoundAt(states, rounds, n - 1);
      hide MarkedAll;
      if states[n - 1] == [] {
        NothingToMark(rounds[n - 1].ends);
      }
      forall i | 0 <= i < |states[0]|
        ensures SameJobs(states[n], states[n - 1])
        ensures !states[0][i].schedule.Once? ==> states[n][i].enabled == states[0][i].enabled
      {
        MarkedAllAt(states[n - 1], rounds[n - 1].ends, i);
      }
    }
  }

  lemma {:induction false} NothingToMark(ends: seq<End>)
    ensures MarkedAll([], ends) == []
  {
    if ends != [] { NothingToMark(ends[..|ends| - 1]); }
  }

  // ---- which launches repeat ----

  /** A record that no call reaches stays as it is. */
  lemma {:induction false} UnreachedStays(states: seq<seq<Job>>, rounds: seq<Round>, i: nat, k: nat, l: nat)
    requires IsSchedule(states, rounds) && k <= l < |states| && i < |states[k]|
    requires forall m {:trigger Reached(states, rounds, i, m)} :: k <= m < l ==> !Reached(states, rounds, i, m)
    ensures |states[l]| == |states[k]| && states[l][i] == states[k][i]
    decreases l
  {
    if k < l {
      UnreachedStays(states, rounds, i, k, l - 1);
      assert RoundAt(states, rounds, l - 1) && !Reached(states, rounds, i, l - 1);
      MarkedAllAt(states[l - 1], rounds[l - 1].ends, i);
    }
  }

  /** A record behind another with its id is never reached, hence never updated, by any calls. */
  lemma ShadowedNeverChanges(states: seq<seq<Job>>, rounds: seq<Round>, i: nat, n: nat)
    requires IsSchedule(states, rounds) && n < |states| && i < |states[0]| && !FirstWithId(states[0], i)
    ensures |states[n]| == |states[0]| && states[n][i] == states[0][i]
  {
    forall m | 0 <= m < n ensures !Reached(states, rounds, i, m) {
      FirstStays(states, rounds, i, m);
    }
    UnreachedStays(states, rounds, i, 0, n);
  }

  lemma FirstStays(states: seq<seq<Job>>, rounds: seq<Round>, i: nat, n: nat)
    requires IsSchedule(states, rounds) && n < |states| && i < |states[0]|
    ensures |states[n]| == |states[0]| && states[n][i].id == states[0][i].id
    ensures FirstWithId(states[n], i) <==> FirstWithId(states[0], i)
    ensures OnlyWithId(states[n], i) <==> OnlyWithId(states[0], i)
  {
    ScheduleKeepsJobs(states, rounds, n);
  }

  lemma {:induction false} DisabledStays(states: seq<seq<Job>>, rounds: seq<Round>, i: nat, k: nat, n: nat)
    requires IsSchedule(states, rounds) && k <= n < |states| && i < |states[k]| && !states[k][i].enabled
    ensures i < |states[n]| && !states[n][i].enabled
    decreases n
  {
    if k < n {
      DisabledStays(states, rounds, i, k, n - 1);
      assert RoundAt(states, rounds, n - 1);
      MarkedAllAt(states[n - 1], rounds[n - 1].ends, i);
    }
  }

  /** A job no call reaches, its task still running, say, is launched again at every later round. */
  lemma UnreachedLaunchesAgain(states: seq<seq<Job>>, rounds: seq<Round>, i: nat, k: nat, l: nat)
    requires IsSchedule(states, rounds) && k <= l < |rounds| && FiresIn(states, rounds, i, k)
    requires forall m {:trigger Reached(states, rounds, i, m)} :: k <= m < l ==> !Reached(states, rounds, i, m)
    requires rounds[k].now <= rounds[l].now
    ensures |states[l]| == |states[k]| && states[l][i] == states[k][i] && FiresIn(states, rounds, i, l)
  {
    UnreachedStays(states, rounds, i, k, l);
  }

  lemma ReachedOnceIsDisabled(states: seq<seq<Job>>, rounds: seq<Round>, i: nat, k: nat, l: nat)
    requires IsSchedule(states, rounds) && k < l < |states| && i < |states[0]| && states[0][i].schedule.Once?
    requires Reached(states, rounds, i, k)
    ensures i < |states[l]| && !states[l][i].enabled
  {
    ScheduleKeepsJobs(states, rounds, k);
    assert RoundAt(states, rounds, k);
    MarkedAllAt(states[k], rounds[k].ends, i);
    DisabledStays(states, rounds, i, k + 1, l);
  }

  /** A Once job launched in one round is launched again in a later one exactly when no call reaches it in between. */
  lemma OnceLaunchesAgainIff(states: seq<seq<Job>>, rounds: seq<Round>, i: nat, k: nat, l: nat)
    requires IsSchedule(states, rounds) && k <= l < |rounds| && rounds[k].now <= rounds[l].now
    requires i < |states[0]| && states[0][i].schedule.Once? && FiresIn(states, rounds, i, k)
    ensures FiresIn(states, rounds, i, l) <==>
      forall m {:trigger Reached(states, rounds, i, m)} :: k <= m < l ==> !Reached(states, rounds, i, m)
  {
    if m :| k <= m < l && Reached(states, rounds, i, m) {
      ReachedOnceIsDisabled(states, rounds, i, m, l);
    } else {
      UnreachedLaunchesAgain(states, rounds, i, k, l);
    }
  }

  // ---- interval jobs, and Once jobs before they fire ----

  /** A new interval job waits one interval. A new Once job waits for its time, or for 60 seconds if that has passed. */
  lemma CreatedTimes(j: Job, now: nat)
    ensures var created := CreatedJob(j, now);
            && created.createdAt == created.updatedAt == now
            && created.id == j.id && created.schedule == j.schedule && created.enabled == j.enabled
            && match j.schedule
               case Interval(secs) => created.nextRun == now + secs
               case Once(at) => created.nextRun == (if at > now then at else now + 60)
               case CronJob(_) => true
  {
    if j.schedule.CronJob? { hide NextOr; }
  }

  /** From its creation until a call reaches it, an interval job is launched in exactly the rounds from one interval
      after its creation on, and a Once job created before its time in exactly the rounds from that time on. */
  lemma FirstLaunchIff(states: seq<seq<Job>>, rounds: seq<Round>, i: nat, l: nat, j: Job, created: nat)
    requires IsSchedule(states, rounds) && l < |rounds| && i < |states[0]| && states[0][i] == CreatedJob(j, created)
    requires forall m {:trigger Reached(states, rounds, i, m)} :: 0 <= m < l ==> !Reached(states, rounds, i, m)
    ensures j.schedule.Interval? ==>
      (FiresIn(states, rounds, i, l) <==> j.enabled && created + j.schedule.secs <= rounds[l].now)
    ensures j.schedule.Once? && j.schedule.at > created ==>
      (FiresIn(states, rounds, i, l) <==> j.enabled && j.schedule.at <= rounds[l].now)
  {
    UnreachedStays(states, rounds, i, 0, l);
    CreatedTimes(j, created);
    hide CreatedJob;
  }

  /** After the last call to reach it, made at some time, an interval job is launched in exactly the rounds from one
      interval after that time on, until the next call reaches it. */
  lemma IntervalLaunchesIff(states: seq<seq<Job>>, rounds: seq<Round>, i: nat, k: nat, l: nat)
    requires IsSchedule(states, rounds) && k < l < |rounds| && i < |states[0]| && states[0][i].schedule.Interval?
    requires Reached(states, rounds, i, k)
    requires forall m {:trigger Reached(states, rounds, i, m)} :: k < m < l ==> !Reached(states, rounds, i, m)
    ensures FiresIn(states, rounds, i, l) <==>
      states[0][i].enabled && LastAt(states, rounds, i, k) + states[0][i].schedule.secs <= rounds[l].now
  {
    ScheduleKeepsJobs(states, rounds, k);
    ScheduleKeepsJobs(states, rounds, k + 1);
    assert RoundAt(states, rounds, k);
    MarkedAllAt(states[k], rounds[k].ends, i);
    UnreachedStays(states, rounds, i, k + 1, l);
  }

  // ---- what the counters count ----

  ghost function AllEnds(rounds: seq<Round>, n: nat): seq<End>
    requires n <= |rounds|
  {
    if n == 0 then [] else AllEnds(rounds, n - 1) + rounds[n - 1].ends
  }

  ghost function Failures(ends: seq<End>, id: string): nat {
    if ends == [] then 0
    else
      var m := |ends| - 1;
      Failures(ends[..m], id) + (if ends[m].id == id && !ends[m].ok then 1 else 0)
  }

  lemma {:induction false} MarkedTwice(jobs: seq<Job>, a: seq<End>, b: seq<End>)
    ensures MarkedAll(MarkedAll(jobs, a), b) == MarkedAll(jobs, a + b)
  {
    if b == [] {
      assert a + b == a;
    } else {
      var m := |b| - 1;
      MarkedTwice(jobs, a, b[..m]);
      assert (a + b)[..|a + b| - 1] == a + b[..m];
      hide Marked;
    }
  }

  /** A run is one long sequence of calls. */
  lemma {:induction false} RunIsOneFold(states: seq<seq<Job>>, rounds: seq<Round>, n: nat)
    requires IsSchedule(states, rounds) && n <= |rounds|
    ensures states[n] == MarkedAll(states[0], AllEnds(rounds, n))
  {
    if n > 0 {
      RunIsOneFold(states, rounds, n - 1);
      assert RoundAt(states, rounds, n - 1);
      MarkedTwice(states[0], AllEnds(rounds, n - 1), rounds[n - 1].ends);
    }
  }

  lemma {:induction false} FoldedCounts(j: Job, ends: seq<End>)
    ensures var next, n := Folded(j, ends), EndIds(ends)[j.id];
            && next.id == j.id && next.createdAt == j.createdAt && next.updatedAt == j.updatedAt
            && next.runCount == j.runCount + n && next.failCount == j.failCount + Failures(ends, j.id)
            && next.lastRun == if n > 0 then Some(LastEnd(ends, j.id).at) else j.lastRun
  {
    if ends != [] {
      FoldedCounts(j, ends[..|ends| - 1]);
      hide NextOr;
    }
  }

  /** Over any run a record counts the calls that named its id, and those that failed, and keeps the time of the last,
      if no record before it has the id; otherwise it counts none. */
  lemma CountsAreCalls(states: seq<seq<Job>>, rounds: seq<Round>, i: nat, n: nat)
    requires IsSchedule(states, rounds) && n <= |rounds| && i < |states[0]|
    ensures |states[n]| == |states[0]|
    ensures var before, after, ends := states[0][i], states[n][i], AllEnds(rounds, n);
            var calls := EndIds(ends)[before.id];
            if FirstWithId(states[0], i)
            then && after.runCount == before.runCount + calls
                 && after.failCount == before.failCount + Failures(ends, before.id)
                 && after.lastRun == (if calls > 0 then Some(LastEnd(ends, before.id).at) else before.lastRun)
            else after == before
  {
    RunIsOneFold(states, rounds, n);
    FoldedAt(states[0], AllEnds(rounds, n), i);
    FoldedCounts(states[0][i], AllEnds(rounds, n));
  }

  // ---- jobs that fire once ----

  ghost predicate FiresTwice(states: seq<seq<Job>>, rounds: seq<Round>, i: nat)
    requires |states| == |rounds| + 1
  {
    exists k, l :: 0 <= k < l < |rounds| && FiresIn(states, rounds, i, k) && FiresIn(states, rounds, i, l)
  }

  /** In any run, slow tasks, repeated ids and jobs run by hand included, a Once job fires at most once exactly when
      a call reaches it in every round that launches it, the last round excepted. */
  lemma OnceRunIff(states: seq<seq<Job>>, rounds: seq<Round>, i: nat)
    requires IsSchedule(states, rounds) && ClockAdvances(rounds) && i < |states[0]| && states[0][i].schedule.Once?
    ensures !FiresTwice(states, rounds, i) <==>
      forall k {:trigger FiresIn(states, rounds, i, k)} ::
        0 <= k && k + 1 < |rounds| && FiresIn(states, rounds, i, k) ==> Reached(states, rounds, i, k)
  {
    hide FiresIn, Reached;
    if FiresTwice(states, rounds, i) {
      var k: nat, l: nat :| k < l < |rounds| && FiresIn(states, rounds, i, k) && FiresIn(states, rounds, i, l);
      OnceLaunchesAgainIff(states, rounds, i, k, l);
      assert !Reached(states, rounds, i, k);
    } else {
      forall k: nat | k + 1 < |rounds| && FiresIn(states, rounds, i, k) ensures Reached(states, rounds, i, k) {
        OnceLaunchesAgainIff(states, rounds, i, k, k + 1);
      }
    }
  }

  /** In a settled round, calls reach a launched job if no job before it has its id. */
  lemma LaunchedIsReached(states: seq<seq<Job>>, rounds: seq<Round>, i: nat, k: nat)
    requires IsSettled(states, rounds) && i < |states[0]| && FirstWithId(states[0], i)
    requires k < |rounds| && FiresIn(states, rounds, i, k)
    ensures Reached(states, rounds, i, k)
  {
    FirstStays(states, rounds, i, k);
    assert SettledAt(states, rounds, k);
    DueIsLaunched(states[k], rounds[k].now, i);
  }

  /** Some order in which the tasks launched now may end. */
  ghost function EndsOf(jobs: seq<Job>, now: nat): seq<End> {
    if jobs == [] then [] else EndsOf(jobs[..|jobs| - 1], now) + [End(jobs[|jobs| - 1].id, now, true)]
  }

  lemma {:induction false} EndsOfIds(jobs: seq<Job>, now: nat)
    ensures EndIds(EndsOf(jobs, now)) == IdsOf(jobs)
  {
    if jobs != [] {
      EndsOfIds(jobs[..|jobs| - 1], now);
      var init := EndsOf(jobs[..|jobs| - 1], now);
      assert EndsOf(jobs, now)[..|init|] == init;
    }
  }

  /** The loop sleeps this many seconds between rounds. */
  const TICK: nat := 30

  lemma SomeEnds(jobs: seq<Job>, now: nat) returns (ends: seq<End>)
    ensures EndIds(ends) == LaunchedIds(jobs, now)
  {
    ends := EndsOf(DueAmong(jobs, now), now);
    EndsOfIds(DueAmong(jobs, now), now);
  }

  /** Two consecutive rounds of the loop, in each of which every task ends. */
  lemma TwoRounds(jobs: seq<Job>, now: nat) returns (states: seq<seq<Job>>, rounds: seq<Round>)
    ensures IsSettled(states, rounds) && states[0] == jobs && |rounds| == 2
    ensures rounds[0].now == now && rounds[1].now == now + 30
  {
    hide MarkedAll, LaunchedIds, EndIds;
    var first := SomeEnds(jobs, now);
    var between := MarkedAll(jobs, first);
    var second := SomeEnds(between, now + TICK);
    states, rounds := [jobs, between, MarkedAll(between, second)], [Round(now, first), Round(now + TICK, second)];
    forall k: nat | k < 2 ensures RoundAt(states, rounds, k) && SettledAt(states, rounds, k) {
    }
  }

  /** Hence an enabled Once job fires at most once, in every run in which tasks end before the next round, exactly when
      no job stored before it has its id. */
  lemma OnceFiresAtMostOnceIff(jobs: seq<Job>, i: nat)
    requires i < |jobs| && jobs[i].schedule.Once? && jobs[i].enabled
    ensures (forall states, rounds :: IsSettled(states, rounds) && states[0] == jobs ==> !FiresTwice(states, rounds, i))
       <==> FirstWithId(jobs, i)
  {
    hide FirstWithId, FiresTwice, MarkedAll, RoundAt, SettledAt;
    if FirstWithId(jobs, i) {
      forall states, rounds | IsSettled(states, rounds) && states[0] == jobs ensures !FiresTwice(states, rounds, i) {
        NeverTwice(states, rounds, i);
      }
    } else {
      var states, rounds := TwoRounds(jobs, jobs[i].nextRun);
      FiresBothTimes(states, rounds, i);
    }
  }

  lemma NeverTwice(states: seq<seq<Job>>, rounds: seq<Round>, i: nat)
    requires IsSettled(states, rounds) && i < |states[0]| && states[0][i].schedule.Once? && FirstWithId(states[0], i)
    ensures !FiresTwice(states, rounds, i)
  {
    forall k: nat, l: nat | k < l < |rounds| && FiresIn(states, rounds, i, k) ensures !FiresIn(states, rounds, i, l) {
      LaunchedIsReached(states, rounds, i, k);
      ReachedOnceIsDisabled(states, rounds, i, k, l);
    }
  }

  lemma FiresBothTimes(states: seq<seq<Job>>, rounds: seq<Round>, i: nat)
    requires IsSettled(states, rounds) && |rounds| == 2 && i < |states[0]| && !FirstWithId(states[0], i)
    requires states[0][i].enabled && states[0][i].nextRun == rounds[0].now < rounds[1].now
    ensures FiresTwice(states, rounds, i)
  {
    ShadowedNeverChanges(states, rounds, i, 1);
    assert FiresIn(states, rounds, i, 0) && FiresIn(states, rounds, i, 1);
  }
}
