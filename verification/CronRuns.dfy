/** Cron jobs under the scheduler loop: which minutes they fire for, and when a fallback time takes over
    (crates/apollo-core/src/scheduler.rs, run_scheduler_loop in crates/apollo-node/src/main.rs). */
module CronRuns {
  import opened Options
  import Cal = Calendar
  import opened CronExpr
  import opened CronSearch
  import opened CronLiveness
  import opened CronTexts
  import opened Scheduler
  import opened SchedulerRuns

  // ---- consecutive allowed minutes ----

  /** From one minute that satisfies p to the very next one. */
  ghost predicate NextHit(p: nat -> bool, from: nat, to: nat) {
    from < to && to % 60 == 0 && p(to) && forall ts: nat {:trigger p(ts)} :: from < ts < to && ts % 60 == 0 ==> !p(ts)
  }

  ghost predicate MovesAt(p: nat -> bool, next: seq<nat>, fired: seq<bool>, k: nat)
    requires k < |fired| && k + 1 < |next|
  {
    if fired[k] then NextHit(p, next[k], next[k + 1]) else next[k + 1] == next[k]
  }

  /** A waiting time that moves to the next hit whenever it fires, and otherwise stays. */
  ghost predicate Moves(p: nat -> bool, next: seq<nat>, fired: seq<bool>) {
    && |next| == |fired| + 1 && next[0] % 60 == 0 && p(next[0])
    && forall k {:trigger MovesAt(p, next, fired, k)} :: 0 <= k < |fired| ==> MovesAt(p, next, fired, k)
  }

  ghost predicate FiredAt(next: seq<nat>, fired: seq<bool>, ts: nat)
    requires |fired| < |next|
  {
    exists k :: 0 <= k < |fired| && fired[k] && next[k] == ts
  }

  lemma MovesPrefix(p: nat -> bool, next: seq<nat>, fired: seq<bool>)
    requires Moves(p, next, fired) && fired != []
    ensures Moves(p, next[..|fired|], fired[..|fired| - 1])
  {
    var next', fired' := next[..|fired|], fired[..|fired| - 1];
    forall k | 0 <= k < |fired'| ensures MovesAt(p, next', fired', k) {
      assert MovesAt(p, next, fired, k);
    }
  }

  lemma {:induction false} MovesAscend(p: nat -> bool, next: seq<nat>, fired: seq<bool>, k: nat)
    requires Moves(p, next, fired) && k <= |fired|
    ensures next[k] <= next[|fired|] && (k < |fired| && fired[k] ==> next[k] < next[|fired|])
  {
    var m := |fired| - 1;
    if k <= m {
      MovesPrefix(p, next, fired);
      MovesAscend(p, next[..m + 1], fired[..m], k);
      assert MovesAt(p, next, fired, m);
    }
  }

  /** Between the first waiting time and the last, exactly the hits have fired. */
  lemma {:induction false} FiredAreHits(p: nat -> bool, next: seq<nat>, fired: seq<bool>, ts: nat)
    requires Moves(p, next, fired) && ts % 60 == 0 && next[0] <= ts < next[|fired|]
    ensures FiredAt(next, fired, ts) <==> p(ts)
  {
    var m := |fired| - 1;
    if fired != [] {
      assert MovesAt(p, next, fired, m);
      MovesPrefix(p, next, fired);
      var next', fired' := next[..m + 1], fired[..m];
      if ts < next[m] {
        FiredAreHits(p, next', fired', ts);
        if FiredAt(next', fired', ts) {
          var k :| 0 <= k < |fired'| && fired'[k] && next'[k] == ts;
          assert fired[k] && next[k] == ts;
        }
        if FiredAt(next, fired, ts) {
          var k :| 0 <= k < |fired| && fired[k] && next[k] == ts;
          assert fired'[k] && next'[k] == ts;
        }
      } else if ts == next[m] {
        HitsAreWaitedFor(p, next, fired, m);
      } else if FiredAt(next, fired, ts) {
        var k :| 0 <= k < |fired| && fired[k] && next[k] == ts;
        MovesAscend(p, next', fired', k);
      }
    }
  }

  /** Every waiting time is a hit. */
  lemma {:induction false} HitsAreWaitedFor(p: nat -> bool, next: seq<nat>, fired: seq<bool>, k: nat)
    requires Moves(p, next, fired) && k <= |fired|
    ensures p(next[k]) && next[k] % 60 == 0
  {
    if k > 0 {
      HitsAreWaitedFor(p, next, fired, k - 1);
      assert MovesAt(p, next, fired, k - 1);
    }
  }

  /** No hit fires twice. */
  lemma FiredOnce(p: nat -> bool, next: seq<nat>, fired: seq<bool>, k: nat, l: nat)
    requires Moves(p, next, fired) && k < l < |fired| && fired[k] && fired[l]
    ensures next[k] < next[l]
  {
    var next', fired' := next[..l + 1], fired[..l];
    forall j | 0 <= j < l ensures MovesAt(p, next', fired', j) {
      assert MovesAt(p, next, fired, j);
    }
    assert Moves(p, next', fired');
    MovesAscend(p, next', fired', k);
  }

  // ---- cron jobs ----

  /** The schedule asks next_cron for the times of c. */
  ghost predicate Runs(s: Schedule, c: Cron) {
    s.CronJob? && forall t: nat {:trigger NextTime(c, t)} ::
      NextAfter(s, t) == match NextTime(c, t) case None => Never case Some(ts) => Next(ts)
  }

  lemma ParsedRuns(expression: string, c: Cron)
    requires CronOf(expression) == CronAccepted(c)
    ensures Runs(CronJob(expression), c)
  {
    hide CronOf, NextTime;
  }

  lemma NextIsFound(s: Schedule, c: Cron, now: nat)
    requires Runs(s, c)
    ensures forall fallback: nat ::
      NextOr(s, now, fallback) == if NextTime(c, now).Some? then NextTime(c, now).value else fallback
  {
    hide NextTime, NextAfter;
  }

  /** Marked at `at`, in time for the minute `due`: no allowed minute has passed since, and one is within reach. */
  ghost predicate Prompt(c: Cron, due: nat, at: nat) {
    NoneIn(Matcher(c), due + 1, at + 1) && HasMinute(c, at)
  }

  /** Marked at `at`, before the minute `due`, and `due` is what the search finds from there. */
  ghost predicate Undisturbed(c: Cron, due: nat, at: nat) {
    at < due < SearchLimit(at) && NoneIn(Matcher(c), at + 1, due)
  }

  /** After firing, a cron job waits for the very next allowed minute exactly when no allowed minute has passed
      between the one it fired for and the marking, and some allowed minute lies in the search window. */
  lemma FiringMovesOnIff(s: Schedule, c: Cron, due: nat, at: nat)
    requires Runs(s, c) && due % 60 == 0 && due <= at
    ensures NextHit(Matcher(c), due, NextOr(s, at, at + 86400)) <==> Prompt(c, due, at)
  {
    hide Matches, NextTime, NextAfter, Runs;
    NextTimeIsLeast(c, at);
    HasMinuteIff(c, at);
    FallbackIsNeverAllowed(s, c, at);
    NextIsFound(s, c, at);
  }

  /** A marking outside the job's own rounds leaves its waiting time as it is exactly when it comes before that
      minute, and the search from there finds the minute again. */
  lemma MarkingKeepsIff(s: Schedule, c: Cron, due: nat, at: nat)
    requires Runs(s, c) && due % 60 == 0 && Matches(c, due)
    ensures NextOr(s, at, at + 86400) == due <==> Undisturbed(c, due, at)
  {
    hide Matches, NextTime, NextAfter, Runs;
    NextTimeIsLeast(c, at);
    forall ts: nat ensures Matcher(c)(ts) == Matches(c, ts) {
    }
    HasMinuteIff(c, at);
    FallbackIsNeverAllowed(s, c, at);
    NextIsFound(s, c, at);
  }

  /** Marking within the minute is in time if some allowed minute lies in the search window. */
  lemma WithinTheMinute(c: Cron, minute: nat, second: nat)
    requires second < 60
    ensures Prompt(c, 60 * minute, 60 * minute + second) <==> HasMinute(c, 60 * minute + second)
  {
    hide HasMinute, Matches;
    var due, at := 60 * minute, 60 * minute + second;
    forall ts: nat | due < ts && ts % 60 == 0 ensures at < ts {
      SameMinute(due, at, ts);
    }
  }

  lemma SameMinute(m: nat, t: nat, ts: nat)
    requires m % 60 == 0 && ts % 60 == 0 && m < ts && t < m + 60
    ensures t < ts
  {
    assert ts / 60 > m / 60;
  }

  /** A new cron job waits for the least allowed minute after its creation exactly when there is one in the search
      window; otherwise it becomes due after 60 seconds, in a minute it does not allow. */
  lemma CreatedWaitsIff(j: Job, c: Cron, now: nat)
    requires Runs(j.schedule, c)
    ensures NextHit(Matcher(c), now, CreatedJob(j, now).nextRun) <==> HasMinute(c, now)
    ensures !HasMinute(c, now) ==> CreatedJob(j, now).nextRun == now + 60 && !Matches(c, now + 60)
  {
    hide Matches, NextTime, NextAfter, Runs;
    NextTimeIsLeast(c, now);
    HasMinuteIff(c, now);
    NextIsFound(j.schedule, c, now);
    if NextTime(c, now) == None && Matches(c, now + 60) {
      var start := MatchesItsMinute(c, now + 60);
      assert false;
    }
  }

  /** Whenever it is created, a cron job waits for the least allowed minute after: exactly for the expressions with an
      allowed day in every stretch of 1460 days. */
  lemma CreatedJobsWaitIff(j: Job, c: Cron)
    requires Runs(j.schedule, c) && CronOk(c)
    ensures (forall now: nat :: NextHit(Matcher(c), now, CreatedJob(j, now).nextRun)) <==> EveryWindowAllows(c)
  {
    hide Matches, NextTime, EveryWindowAllows, Runs, CronOk, CreatedJob, NextHit, HasMinute;
    AlwaysFiresIff(c);
    forall now: nat
      ensures NextHit(Matcher(c), now, CreatedJob(j, now).nextRun) <==> NextTime(c, now).Some?
    {
      CreatedWaitsIff(j, c, now);
      HasMinuteIff(c, now);
    }
    if forall now: nat :: NextHit(Matcher(c), now, CreatedJob(j, now).nextRun) {
      forall now: nat ensures NextTime(c, now).Some? {
        assert NextHit(Matcher(c), now, CreatedJob(j, now).nextRun);
      }
    }
  }

  // ---- whole runs of one cron job ----

  /** Any run with a cron job that waits at first for an allowed minute; the last call to reach the job in a round is
      not before that round. */
  ghost predicate CronRun(states: seq<seq<Job>>, rounds: seq<Round>, i: nat, c: Cron) {
    && IsSchedule(states, rounds) && i < |states[0]|
    && Runs(states[0][i].schedule, c) && states[0][i].nextRun % 60 == 0 && Matches(c, states[0][i].nextRun)
    && forall k {:trigger LastAt(states, rounds, i, k)} :: 0 <= k < |rounds| && Reached(states, rounds, i, k) ==>
         rounds[k].now <= LastAt(states, rounds, i, k)
  }

  /** If job i fires in round k, a call reaches it in time; otherwise calls that reach it leave its waiting time. */
  ghost predicate InTime(states: seq<seq<Job>>, rounds: seq<Round>, i: nat, c: Cron, k: nat)
    requires k < |rounds| && k < |states| && i < |states[k]|
  {
    var due, at := states[k][i].nextRun, LastAt(states, rounds, i, k);
    if FiresIn(states, rounds, i, k) then Reached(states, rounds, i, k) && Prompt(c, due, at)
    else Reached(states, rounds, i, k) ==> Undisturbed(c, due, at)
  }

  ghost predicate AlwaysInTime(states: seq<seq<Job>>, rounds: seq<Round>, i: nat, c: Cron)
    requires |states| == |rounds| + 1
  {
    forall k {:trigger InTime(states, rounds, i, c, k)} :: 0 <= k < |rounds| ==>
      i < |states[k]| && InTime(states, rounds, i, c, k)
  }

  /** The successive `nextRun` values of job i, and the rounds it fired in. */
  ghost function NextRuns(states: seq<seq<Job>>, i: nat): (next: seq<nat>)
    ensures |next| == |states|
  {
    seq(|states|, k requires 0 <= k < |states| => if i < |states[k]| then states[k][i].nextRun else 0)
  }

  ghost function Firings(states: seq<seq<Job>>, rounds: seq<Round>, i: nat): (fired: seq<bool>)
    requires |states| == |rounds| + 1
    ensures |fired| == |rounds|
  {
    seq(|rounds|, k requires 0 <= k < |rounds| => FiresIn(states, rounds, i, k))
  }

  /** In a round, the job keeps its time, or the last call to reach it decides the next one. */
  lemma RoundOf(states: seq<seq<Job>>, rounds: seq<Round>, i: nat, c: Cron, k: nat)
    requires CronRun(states, rounds, i, c) && k < |rounds|
    ensures |states[k]| == |states[k + 1]| == |states[0]| && Runs(states[k][i].schedule, c)
    ensures var j, at := states[k][i], LastAt(states, rounds, i, k);
            if Reached(states, rounds, i, k)
            then rounds[k].now <= at && states[k + 1][i].nextRun == NextOr(j.schedule, at, at + 86400)
            else states[k + 1][i] == j
  {
    hide Runs, Matches, NextOr, MarkedAll, LastEnd;
    ScheduleKeepsJobs(states, rounds, k);
    ScheduleKeepsJobs(states, rounds, k + 1);
    assert RoundAt(states, rounds, k);
    MarkedAllAt(states[k], rounds[k].ends, i);
    assert Reached(states, rounds, i, k) ==> rounds[k].now <= LastAt(states, rounds, i, k);
  }

  lemma RoundMovesIff(states: seq<seq<Job>>, rounds: seq<Round>, i: nat, c: Cron, k: nat)
    requires CronRun(states, rounds, i, c) && k < |rounds| && i < |states[k]|
    requires states[k][i].nextRun % 60 == 0 && Matches(c, states[k][i].nextRun)
    ensures MovesAt(Matcher(c), NextRuns(states, i), Firings(states, rounds, i), k)
      <==> InTime(states, rounds, i, c, k)
  {
    assert |states| == |rounds| + 1;
    hide CronRun, Runs, Matches, Prompt, Undisturbed, LastAt, NextOr, Reached;
    RoundOf(states, rounds, i, c, k);
    var j, at := states[k][i], LastAt(states, rounds, i, k);
    if Reached(states, rounds, i, k) {
      if FiresIn(states, rounds, i, k) {
        hide NextHit;
        FiringMovesOnIff(j.schedule, c, j.nextRun, at);
      } else {
        MarkingKeepsIff(j.schedule, c, j.nextRun, at);
      }
    }
  }

  lemma {:induction false} AllowedMinuteBefore(states: seq<seq<Job>>, rounds: seq<Round>, i: nat, c: Cron, k: nat)
    requires CronRun(states, rounds, i, c) && AlwaysInTime(states, rounds, i, c) && k <= |rounds|
    ensures |states[k]| == |states[0]| && states[k][i].nextRun % 60 == 0 && Matches(c, states[k][i].nextRun)
  {
    if k > 0 {
      AllowedMinuteBefore(states, rounds, i, c, k - 1);
      hide CronRun, Matches, NextTime, InTime;
      RoundOf(states, rounds, i, c, k - 1);
      assert InTime(states, rounds, i, c, k - 1);
      RoundMovesIff(states, rounds, i, c, k - 1);
    }
  }

  /** No missed and no doubled minute: the `nextRun` of a cron job steps through consecutive allowed minutes, one step
      per firing, exactly when in every round that launches it a call reaches it in time, and calls that reach it in
      other rounds, such as runs by hand, leave its waiting time. */
  lemma RunMovesIff(states: seq<seq<Job>>, rounds: seq<Round>, i: nat, c: Cron)
    requires CronRun(states, rounds, i, c)
    ensures Moves(Matcher(c), NextRuns(states, i), Firings(states, rounds, i)) <==> AlwaysInTime(states, rounds, i, c)
  {
    var p, next, fired := Matcher(c), NextRuns(states, i), Firings(states, rounds, i);
    assert p(next[0]) && next[0] % 60 == 0;
    assert forall ts: nat :: p(ts) == Matches(c, ts);
    hide Matches, NextTime, MovesAt, InTime, CronRun, FiresIn, Matcher;
    if AlwaysInTime(states, rounds, i, c) {
      forall k | 0 <= k < |rounds| ensures MovesAt(p, next, fired, k) {
        AllowedMinuteBefore(states, rounds, i, c, k);
        assert InTime(states, rounds, i, c, k);
        RoundMovesIff(states, rounds, i, c, k);
      }
    }
    if Moves(p, next, fired) {
      forall k | 0 <= k < |rounds| ensures i < |states[k]| && InTime(states, rounds, i, c, k) {
        RoundOf(states, rounds, i, c, k);
        HitsAreWaitedFor(p, next, fired, k);
        assert MovesAt(p, next, fired, k);
        RoundMovesIff(states, rounds, i, c, k);
      }
    }
  }

  /** Minute by minute: between its first and its last `nextRun` the job has fired for a whole minute iff its
      expression allows it. */
  lemma NoMissedMinute(states: seq<seq<Job>>, rounds: seq<Round>, i: nat, c: Cron, ts: nat)
    requires CronRun(states, rounds, i, c) && AlwaysInTime(states, rounds, i, c) && ts % 60 == 0
    requires NextRuns(states, i)[0] <= ts < NextRuns(states, i)[|rounds|]
    ensures FiredAt(NextRuns(states, i), Firings(states, rounds, i), ts) <==> Matches(c, ts)
  {
    var next, fired := NextRuns(states, i), Firings(states, rounds, i);
    hide Matches, NextTime, NextRuns, Firings, FiredAt, Moves, CronRun, AlwaysInTime;
    RunMovesIff(states, rounds, i, c);
    FiredAreHits(Matcher(c), next, fired, ts);
  }

  /** It fires for no minute in two rounds. */
  lemma NoDoubledMinute(states: seq<seq<Job>>, rounds: seq<Round>, i: nat, c: Cron, k: nat, l: nat)
    requires CronRun(states, rounds, i, c) && AlwaysInTime(states, rounds, i, c) && k < l < |rounds|
    requires FiresIn(states, rounds, i, k) && FiresIn(states, rounds, i, l)
    ensures NextRuns(states, i)[k] < NextRuns(states, i)[l]
  {
    var next, fired := NextRuns(states, i), Firings(states, rounds, i);
    assert fired[k] && fired[l];
    hide Matches, NextTime, NextRuns, Firings, Moves, CronRun, AlwaysInTime, FiresIn;
    RunMovesIff(states, rounds, i, c);
    FiredOnce(Matcher(c), next, fired, k, l);
  }

  /** When every task ends before the next round, no job is run by hand, and no other job has the id, being in time is
      a matter of the job's own rounds. */
  lemma SettledRunMovesIff(states: seq<seq<Job>>, rounds: seq<Round>, i: nat, c: Cron)
    requires CronRun(states, rounds, i, c) && IsSettled(states, rounds) && OnlyWithId(states[0], i)
    ensures Moves(Matcher(c), NextRuns(states, i), Firings(states, rounds, i)) <==>
      forall k {:trigger FiresIn(states, rounds, i, k)} :: 0 <= k < |rounds| && FiresIn(states, rounds, i, k) ==>
        Prompt(c, states[k][i].nextRun, LastAt(states, rounds, i, k))
  {
    RunMovesIff(states, rounds, i, c);
    hide CronRun, Prompt, Undisturbed, Matcher, Moves, NextRuns, Firings, LastAt;
    forall k | 0 <= k < |rounds|
      ensures i < |states[k]| && (Reached(states, rounds, i, k) <==> FiresIn(states, rounds, i, k))
    {
      ReachedIffLaunched(states, rounds, i, k);
    }
    hide Reached, FiresIn;
    if forall k {:trigger FiresIn(states, rounds, i, k)} :: 0 <= k < |rounds| && FiresIn(states, rounds, i, k) ==>
      Prompt(c, states[k][i].nextRun, LastAt(states, rounds, i, k))
    {
      forall k | 0 <= k < |rounds| ensures InTime(states, rounds, i, c, k) {
        assert FiresIn(states, rounds, i, k) ==> Prompt(c, states[k][i].nextRun, LastAt(states, rounds, i, k));
      }
    } else {
      var k :| 0 <= k < |rounds| && FiresIn(states, rounds, i, k)
        && !Prompt(c, states[k][i].nextRun, LastAt(states, rounds, i, k));
      assert !InTime(states, rounds, i, c, k);
    }
  }

  lemma ReachedIffLaunched(states: seq<seq<Job>>, rounds: seq<Round>, i: nat, k: nat)
    requires IsSettled(states, rounds) && i < |states[0]| && OnlyWithId(states[0], i) && k < |rounds|
    ensures i < |states[k]| && (Reached(states, rounds, i, k) <==> FiresIn(states, rounds, i, k))
  {
    FirstStays(states, rounds, i, k);
    assert SettledAt(states, rounds, k);
    if FiresIn(states, rounds, i, k) {
      LaunchedIsReached(states, rounds, i, k);
    } else {
      NoneLaunched(states[k], rounds[k].now, states[k][i].id);
    }
  }

  /** A job run by hand two seconds after its minute, before the loop gets to it: the loop never launches it, and its
      waiting time passes over the allowed minute. */
  lemma HandRunPassesOver(j: Job, c: Cron, minute: nat) returns (states: seq<seq<Job>>, rounds: seq<Round>)
    requires Runs(j.schedule, c) && minute > 0 && j.nextRun == 60 * minute && Matches(c, j.nextRun)
    ensures states != [] && states[0] == [j] && CronRun(states, rounds, 0, c)
    ensures var next, fired := NextRuns(states, 0), Firings(states, rounds, 0);
            next[0] == j.nextRun < next[|rounds|] && !FiredAt(next, fired, j.nextRun)
  {
    hide Matches, NextTime, NextAfter, Runs;
    var due, call := j.nextRun, End(j.id, j.nextRun + 2, true);
    var next := FiredJob(j, due + 2, true);
    rounds := [Round(due - 1, [call]), Round(due - 1 + TICK, [])];
    states := [[j], [next], [next]];
    OneCall(j, call);
    assert MarkedAll([next], []) == [next];
    NextIsFound(j.schedule, c, due + 2);
    NextTimeIsLeast(c, due + 2);
    if NextTime(c, due + 2).Some? { SameMinute(due, due + 30, NextTime(c, due + 2).value); }
    hide FiredJob, MarkedAll;
    assert !FiresIn(states, rounds, 0, 0) && !FiresIn(states, rounds, 0, 1);
    forall k: nat | k < 2 ensures RoundAt(states, rounds, k) {
    }
    forall k | 0 <= k < 2 && Reached(states, rounds, 0, k) ensures rounds[k].now <= LastAt(states, rounds, 0, k) {
    }
  }

  lemma OneCall(j: Job, e: End)
    requires e.id == j.id
    ensures MarkedAll([j], [e]) == [FiredJob(j, e.at, e.ok)] && LastEnd([e], j.id) == e
    ensures EndIds([e]) == multiset{e.id}
  {
    hide FiredJob, Marked;
    assert MarkedAll([j], [e]) == Marked([j], e);
    MarkedAt([j], e);
  }

  // ---- the fallback ----

  lemma MomentStart(day: nat, hour: nat, minute: nat)
    ensures Cal.MomentOf(day, hour, minute) % 60 == 0
  {
    assert Cal.MomentOf(day, hour, minute) == (day * 1440 + hour * 60 + minute) * 60;
  }

  lemma AllowedMomentMatches(c: Cron, day: nat, hour: nat, minute: nat)
    requires Allows(c, day, hour, minute)
    ensures Matches(c, Cal.MomentOf(day, hour, minute))
  {
    hide Allows;
  }

  lemma MatchesItsMinute(c: Cron, ts: nat) returns (start: nat)
    requires Matches(c, ts)
    ensures start % 60 == 0 && start <= ts < start + 60 && Matches(c, start)
  {
    hide Allows;
    var day: nat, hour: nat, minute: nat :|
      Cal.MomentOf(day, hour, minute) <= ts < Cal.MomentOf(day, hour, minute) + 60 && Allows(c, day, hour, minute);
    hide *;
    AllowedMomentMatches(c, day, hour, minute);
    MomentStart(day, hour, minute);
    start := Cal.MomentOf(day, hour, minute);
  }

  /** After a cron job fires, its new time lies in an allowed minute iff the search window holds one:
      the one-day fallback never does. */
  lemma FallbackIsNeverAllowed(s: Schedule, c: Cron, now: nat)
    requires Runs(s, c)
    ensures Matches(c, NextOr(s, now, now + 86400)) <==> HasMinute(c, now)
    ensures !HasMinute(c, now) ==> NextOr(s, now, now + 86400) == now + 86400
  {
    hide Matches, NextTime, NextAfter, Runs;
    NextTimeIsLeast(c, now);
    HasMinuteIff(c, now);
    NextIsFound(s, c, now);
    if NextTime(c, now) == None && Matches(c, now + 86400) {
      var start := MatchesItsMinute(c, now + 86400);
      assert false;
    }
  }

  /** Whenever it fires, a cron job's next run is allowed: exactly for the expressions with an allowed day in every
      stretch of 1460 days. */
  lemma NextRunsAreAllowedIff(j: Job, c: Cron)
    requires Runs(j.schedule, c) && CronOk(c)
    ensures (forall now: nat, ok: bool :: Matches(c, FiredJob(j, now, ok).nextRun)) <==> EveryWindowAllows(c)
  {
    hide Matches, NextTime, NextOr, EveryWindowAllows, Runs, CronOk, HasMinute;
    forall now: nat, ok: bool ensures Matches(c, FiredJob(j, now, ok).nextRun) <==> NextTime(c, now).Some? {
      FallbackIsNeverAllowed(j.schedule, c, now);
      HasMinuteIff(c, now);
    }
    AlwaysFiresIff(c);
    if forall now: nat, ok: bool :: Matches(c, FiredJob(j, now, ok).nextRun) {
      forall now: nat ensures NextTime(c, now).Some? {
        assert Matches(c, FiredJob(j, now, true).nextRun);
      }
    }
  }

  /** A job for one minute of 29 February, marked within that minute, is due again one day later, on a day its
      expression does not allow. */
  lemma LeapDayJobMisfires(j: Job, c: Cron, day: nat, hour: nat, minute: nat, second: nat, ok: bool)
    requires j.enabled && Runs(j.schedule, c)
    requires c.months == [2] && c.doms == [29] && c.hours == [hour] && c.minutes == [minute] && hour < 24 && minute < 60
    requires LeapDay(day) && second < 60
    ensures var now := Cal.MomentOf(day, hour, minute) + second;
            IsDue(FiredJob(j, now, ok), now + 86400) && !Matches(c, now + 86400)
  {
    var now := Cal.MomentOf(day, hour, minute) + second;
    assert !j.schedule.Once?;
    hide Matches, NextTime, LeapDay, Cal.MomentOf, Runs, NextOr, HasMinute;
    LeapDayScheduleEnds(c, day, hour, minute, second);
    HasMinuteIff(c, now);
    FallbackIsNeverAllowed(j.schedule, c, now);
  }

  /** Such a job: the text for midnight on 29 February. */
  lemma LeapDayTextMisfires(j: Job, day: nat, second: nat, ok: bool) returns (c: Cron)
    requires j.enabled && j.schedule == CronJob("0 0 29 2 *") && LeapDay(day) && second < 60
    ensures CronOf("0 0 29 2 *") == CronAccepted(c) && Allows(c, day, 0, 0)
    ensures var now := Cal.MomentOf(day, 0, 0) + second;
            IsDue(FiredJob(j, now, ok), now + 86400) && !Matches(c, now + 86400)
  {
    hide *;
    c := LeapDayText();
    ParsedRuns("0 0 29 2 *", c);
    LeapDayJobMisfires(j, c, day, 0, 0, second, ok);
    LeapDayIsAllowed(c, day);
  }

  lemma LeapDayIsAllowed(c: Cron, day: nat)
    requires c.minutes == [0] && c.hours == [0] && c.doms == [29] && c.months == [2] && LeapDay(day)
    requires forall w: nat :: w < 7 ==> w in c.dows
    ensures Allows(c, day, 0, 0)
  {
    hide Cal.DateOf;
  }

  /** Another: the text for midnight on 1 January, if a Monday; marked on 1 January 2018, day 17532, it is due on
      2 January. */
  lemma NewYearMondayTextMisfires(j: Job, ok: bool)
    requires j.enabled && j.schedule == CronJob("0 0 1 1 1")
    ensures var c, now := Cron([0], [0], [1], [1], [1]), Cal.MomentOf(17532, 0, 0);
            && CronOf("0 0 1 1 1") == CronAccepted(c) && Matches(c, now)
            && IsDue(FiredJob(j, now, ok), now + 86400) && !Matches(c, now + 86400)
  {
    var c := Cron([0], [0], [1], [1], [1]);
    NewYearMondayText();
    ParsedRuns("0 0 1 1 1", c);
    NewYearMondaysEnd(c);
    hide CronOf, Runs, Allows, NextTime, HasYearlyDay, CronOk, Cal.MomentOf, NextOr, HasMinute;
    AllowedMomentMatches(c, 17532, 0, 0);
    hide Matches;
    HasMinuteIff(c, Cal.MomentOf(17532, 0, 0));
    FallbackIsNeverAllowed(j.schedule, c, Cal.MomentOf(17532, 0, 0));
  }

  /** Five stars fire at the next minute, from any time. */
  lemma FiveStarsFire(after: nat) returns (next: nat)
    ensures NextAfter(CronJob("* * * * *"), after) == Next(next) && after < next <= after + 60 && next % 60 == 0
  {
    hide *;
    var c := FiveStars();
    next := NextMinute(after);
    EveryMinuteMatches(c, next);
    NextIfAllowed(c, after);
    ParsedNext("* * * * *", c, after);
  }

  lemma ParsedNext(expression: string, c: Cron, after: nat)
    requires CronOf(expression) == CronAccepted(c) && NextTime(c, after).Some?
    ensures NextAfter(CronJob(expression), after) == Next(NextTime(c, after).value)
  {
    ParsedRuns(expression, c);
    hide CronOf, NextTime, NextAfter;
  }

  /** An allowed next minute is the one found. */
  lemma NextIfAllowed(c: Cron, after: nat)
    requires Matches(c, NextMinute(after))
    ensures NextTime(c, after) == Some(NextMinute(after))
    ensures after < NextMinute(after) <= after + 60 && NextMinute(after) % 60 == 0
  {
    WholeMinutesAfter(after, 0);
    hide Matches, NextTime;
    NextTimeIsLeast(c, after);
    if NextTime(c, after).Some? { WholeMinutesAfter(after, NextTime(c, after).value); }
  }

  lemma EveryMinuteMatches(c: Cron, ts: nat)
    requires forall v: nat :: v <= 59 ==> v in c.minutes
    requires forall v: nat :: v <= 23 ==> v in c.hours
    requires forall v: nat :: 1 <= v <= 31 ==> v in c.doms
    requires forall v: nat :: 1 <= v <= 12 ==> v in c.months
    requires forall v: nat :: v <= 6 ==> v in c.dows
    ensures Matches(c, ts)
  {
    hide Cal.DateOf, Matches;
    MatchesIsPartsAllowed(c, ts);
  }

  /** A cron text that does not parse is stored all the same: due 60 seconds after its creation, and again one day
      after each firing. */
  lemma RejectedJobFires(j: Job, now: nat, ok: bool)
    requires j.enabled && j.schedule.CronJob? && CronOf(j.schedule.expression) == CronRejected
    ensures CreatedJob(j, now).nextRun == now + 60 && IsDue(CreatedJob(j, now), now + 60)
    ensures FiredJob(j, now, ok).nextRun == now + 86400 && IsDue(FiredJob(j, now, ok), now + 86400)
  {
    hide CronOf;
  }
}
