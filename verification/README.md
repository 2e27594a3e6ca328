# Apollo: workflow planning, scheduling and bookkeeping, verified

Models of the algorithmic parts of Apollo, with proofs of what they promise. `dafny verify dfyconfig.toml` checks
everything.

**Workflows.** `Orchestration`, `DependencyGraph`, `ArchSelector`, `WorkflowEngine`, `WaveInduction`, `PlanExecution`.
The static analysis (Kahn's queue with in-place level relaxation, the parent walk along a critical path) and the
wave-by-wave engine are written step by step, as in the source. The main theorem joins them: whatever the agents do, the
k-th wave launched is the k-th planned group, in order, minus the *stuck* steps. A step is stuck when it or one of its
transitive predecessors names a missing step or lies on a cycle, or when one of those predecessors is required and fails.
What an agent does is the parameter `outcome`, per launch; the run file is a field of the engine.

**Schedules.** `Calendar`, `Chars`, `CronExpr`, `CronTexts`, `CronSearch`, `CronLiveness`, `Scheduler`, `SchedulerRuns`,
`CronRuns`. The calendar decomposition is a bijection in date order; the skipping search for the next allowed minute
returns the least one in its window, and the expressions for which it always finds one are characterised exactly; and over
whole runs of the tick loop, whatever calls arrive and when, a cron job's waiting time steps through consecutive allowed
minutes, one per firing, so that none is missed and none doubled, exactly when each launch is marked in time and no other
call, a run by hand say, moves it. Time is an argument of every operation and does not run backwards; the calls that mark
jobs as fired arrive in any order.

**Bookkeeping.** `Messaging` (numbered topics, cursor polling, compaction), `SparseVectors`, `MemoryScores` and
`MemorySearch` (TF-IDF cosine ranking), `Health` (least-squares memory trend), `ShellWords` (quote-aware splitting),
`LogRotation` (numbered generations), `RateLimiter` (minimum spacing per key). Floats are reals; `ln` and `sqrt` are
parameters of which only strict monotonicity, ln(1) = 0, ln(1/2) > -1, and being a non-negative square root are used.

Where the code and its documentation or evident intention part, the model follows the code:

- A required step's failure leaves its dependents Pending and the engine polling for ever; so do cycles, dangling
  dependency names and repeated step ids. `EngineFinishesIff` gives the exact condition for given outcomes,
  `AlwaysFinishesIff` the one on the definition alone.
- The four-year cron window is 1460 days, which is too short for some expressions: 29 Februaries are at least 1461 days
  apart, and midnight on 1 January, if a Monday, has gaps of six years and more. After firing such a job gets no next
  time, and the one-day fallback makes it due on a day its expression excludes (`LeapDayTextMisfires`,
  `NewYearMondayTextMisfires`). `AlwaysFiresIff`, `CreatedJobsWaitIff` and `NextRunsAreAllowedIff` give the exact
  condition for every expression: each stretch of 1460 days in one 400-year calendar cycle has an allowed day.
- A cron text that does not parse is stored like any other: it becomes due after 60 seconds and again a day after each
  firing (`RejectedJobFires`). So is one that parses but finds no time (`CreatedWaitsIff`).
- A client may store a second job under an id already taken. Only the first record with an id is ever marked, so the
  others stay due and are launched at every tick, Once jobs included (`ShadowedNeverChanges`).
- A task that is still running at the next tick is launched again (`UnreachedLaunchesAgain`). `OnceRunIff` says for every
  run when a Once job is launched at most once, repeated ids and slow tasks included; `OnceFiresAtMostOnceIff` is the case
  of runs whose tasks all end before the next tick.
- A job may be run by hand between ticks, which marks it like a launch: after its minute has come and before the loop
  gets to it, that passes over the minute (`HandRunPassesOver`). `RunMovesIff` says for every run when no minute is missed
  or doubled, such calls included; `SettledRunMovesIff` is the case of runs without them.
- Both day fields of a cron expression must allow the day; the `crontab` page of IEEE Std 1003.1 asks for either.
- A step of zero (`*/0`) divides by zero: parsing it is the outcome `Panics`, not a precondition.
- The rate limiter rounds its spacing down to whole milliseconds, so the configured rate is kept exactly for the divisors
  of 1000 (`KeepsRateIff`).
- The event log's comment shows two older generations; the code keeps three besides the live file.
- `peek_latest` with a limit of 0 returns one message.

## Model

| member | source | states |
|---|---|---|
| `ArchSelector.AnalyseDag` | crates/apollo-core/src/arch_selector.rs:87-193 | for every definition, cycles, self-dependencies and repeated edges included: the groups are the steps by length of the longest dependency chain of steps free of cyclic ancestors, in definition order; the width is the size of the widest group; the critical path names a real dependency chain with as many steps as there are groups, ending at the last step at the deepest level; no in-degree counter underflows and the parent walk ends |
| `ArchSelector.Kahn` | crates/apollo-core/src/arch_selector.rs:103-132 | the queue pops a Kahn order (each popped step once, after its predecessors, stopping only when every other step has an unpopped predecessor), and each level is the length of the longest chain into the step |
| `ArchSelector.RelaxSuccessors` | crates/apollo-core/src/arch_selector.rs:125-131 | one pop: each successor's counter drops by its number of edges from the node, its level is raised above the node's, and exactly the successors whose counter reaches 0 are queued, each once |
| `ArchSelector.BuildSuccessors` | crates/apollo-core/src/arch_selector.rs:112-120 | the successor lists are the transpose of the dependency lists, with multiplicities |
| `ArchSelector.LongestPaths` | crates/apollo-core/src/arch_selector.rs:142-153 | dp is the relaxed level plus 1, and a recorded parent is a popped predecessor one level down, missing exactly where dp is 1 |
| `ArchSelector.CriticalPath` | crates/apollo-core/src/arch_selector.rs:154-164 | the walk ends and yields a dependency chain with as many steps as the largest dp |
| `ArchSelector.GroupByLevel` | crates/apollo-core/src/arch_selector.rs:134-139 | the groups list the ids level by level in definition order |
| `ArchSelector.KahnPopsGrounded` | crates/apollo-core/src/arch_selector.rs:122-132 | exactly the steps with no ancestor on a cycle are popped |
| `ArchSelector.RelaxedIsLevel` | crates/apollo-core/src/arch_selector.rs:123-132 | relaxation along a Kahn order computes longest-chain lengths, off and on cycles |
| `ArchSelector.ChainRaisesLevel` | crates/apollo-core/src/arch_selector.rs:126-126 | levels rise by at least one along each edge of a chain of cycle-free steps |
| `ArchSelector.GroupIsIndependent` | crates/apollo-core/src/arch_selector.rs:134-139 | on acyclic input with unique ids, no dependency chain leads from one step of a group to another of the same group |
| `ArchSelector.CriticalPathIsLongest` | crates/apollo-core/src/arch_selector.rs:142-164 | on acyclic input no dependency chain has more steps than there are groups, which is the critical path's length |
| `ArchSelector.NoGroupIsEmpty` | crates/apollo-core/src/arch_selector.rs:136-139 | no planned group is empty |
| `ArchSelector.GroupsPartitionSteps` | crates/apollo-core/src/arch_selector.rs:136-139 | together the groups hold every step id exactly as often as the definition |
| `DependencyGraph.LevelCharacterised` | crates/apollo-core/src/arch_selector.rs:125-127 | a level is determined by lying above all cycle-free predecessors and exactly one above some of them |
| `DependencyGraph.CycleThroughPred` | crates/apollo-core/src/arch_selector.rs:128-130 | a chain that meets its own end earlier puts a predecessor on a repeating chain, so a blocked step has a blocked predecessor |
| `WorkflowEngine.Engine.Run` | crates/apollo-node/src/main.rs:1832-1931 | the loop performs a complete run of ready-wave iterations; it ends finished exactly when all records are terminal, with status Failed iff a required step failed; from the records it leaves no later iteration changes anything, whatever the agents do |
| `WorkflowEngine.IdleIsFinal` | crates/apollo-node/src/main.rs:1848-1857 | with nothing ready an iteration changes nothing |
| `WorkflowEngine.Engine.LaunchWave` | crates/apollo-node/src/main.rs:1859-1916 | one non-idle iteration is the two stored updates, and strictly lowers the number of Pending records |
| `WorkflowEngine.Engine.SaveAsRunning` | crates/apollo-node/src/main.rs:1859-1867 | exactly the first record of each ready id becomes Running |
| `WorkflowEngine.Engine.SaveResults` | crates/apollo-node/src/main.rs:1894-1916 | exactly those records become Completed, or Skipped when optional and failing, or Failed, by the last result for their id |
| `WorkflowEngine.IterateProgress` | crates/apollo-node/src/main.rs:1845-1916 | a non-empty ready list lowers the Pending count, and records stay aligned with the definition |
| `WorkflowEngine.ReadyMembers` | crates/apollo-core/src/orchestration.rs:419-433 | an id is listed as ready iff some step with that id passes both filters |
| `WorkflowEngine.ReadyIff` | crates/apollo-core/src/orchestration.rs:419-433 | an id is listed iff some step with it has each dependency among the ids of Completed or Skipped records, and the first record with the id, if any, is Pending |
| `WorkflowEngine.LaunchedWasReady` | crates/apollo-node/src/main.rs:1845-1866 | a launched record was Pending, and its step's dependencies were all Completed or Skipped |
| `WorkflowEngine.IterationMoves` | crates/apollo-node/src/main.rs:1859-1916 | statuses only move from Pending to Running to terminal, nothing stays Running, and no optional step becomes Failed |
| `WorkflowEngine.IterationStatuses` | crates/apollo-node/src/main.rs:1859-1916 | one iteration, repeated ids included: the first record of a ready id ends Completed iff the last launch of the id succeeds, else Skipped or Failed as the first step with the id is optional or not; other records stay |
| `WorkflowEngine.TraceSafety` | crates/apollo-node/src/main.rs:1838-1917 | over every run, repeated ids and separate outcomes of their launches included: nothing is Running at a loop head, a record that has left Pending never changes again, and no optional step is Failed |
| `WaveInduction.ReadyAtWave` | crates/apollo-core/src/orchestration.rs:419-433 | after k waves a step is ready iff its level is k and it is not stuck |
| `WaveInduction.TraceFollowsLevels` | crates/apollo-node/src/main.rs:1838-1917 | the inductive run invariant: after k waves exactly the unstuck steps below level k have settled, and the ready list is the unstuck part of level k |
| `WaveInduction.EmptyWaveIsFinal` | crates/apollo-node/src/main.rs:1848-1857 | an empty ready list means every unstuck step has been launched |
| `PlanExecution.StuckStep` | crates/apollo-node/src/main.rs:1848-1857 | a step is stuck iff it names a missing step or depends directly on a stuck or failing or cyclic one |
| `PlanExecution.PlanEqualsExecution` | crates/apollo-node/src/main.rs:1838-1917 | for unique ids and every outcome: wave k is planned group k minus the stuck steps, in order, and groups of which nothing is left come last |
| `PlanExecution.UnobstructedRunIsThePlan` | crates/apollo-core/src/arch_selector.rs:403-407 | without cycles, missing names or required failures the waves are exactly the planned groups, so as many as the phase count |
| `PlanExecution.WavesFitTheWidth` | crates/apollo-core/src/arch_selector.rs:140-140 | no wave launches more steps than the reported parallel width |
| `PlanExecution.FinalStatuses` | crates/apollo-node/src/main.rs:1894-1917 | a run leaves exactly the stuck steps Pending; every other step settles by its outcome |
| `PlanExecution.StatusesByOutcome` | crates/apollo-node/src/main.rs:1899-1915 | over a whole run a step that is not stuck ends Completed iff its agent starts, Skipped iff it does not and the step is optional, Failed iff it does not and the step is required |
| `PlanExecution.LaunchedExactlyOnce` | crates/apollo-node/src/main.rs:1859-1892 | over a whole run every step that is not stuck is launched exactly once and every stuck one never |
| `PlanExecution.EngineFinishesIff` | crates/apollo-node/src/main.rs:1848-1857 | the loop ends iff step ids are distinct and no step is stuck |
| `PlanExecution.AlwaysFinishesIff` | crates/apollo-node/src/main.rs:1838-1857 | every run finishes, whatever the agents do, iff step ids are distinct, dependencies are acyclic and all name steps, and every step others depend on is optional |
| `PlanExecution.RunExists` | crates/apollo-node/src/main.rs:1838-1917 | every definition has a complete run under every outcome |
| `PlanExecution.DuplicateNeverFinishes` | crates/apollo-node/src/main.rs:1861-1866 | with a repeated step id some record stays Pending for ever |
| `PlanExecution.FinishedStatus` | crates/apollo-node/src/main.rs:1920-1926 | the final status is Completed iff every step is Completed or Skipped |
| `PlanExecution.StuckMeansFailedAncestor` | crates/apollo-node/src/main.rs:1848-1857 | on acyclic definitions without missing names, stuck means depending, even transitively, on a Failed step |
| `PlanExecution.AnalyseAndRun` | crates/apollo-node/src/main.rs:1832-1931 | analysis then execution: the reported groups and width predict the waves actually launched |
| `Calendar.DaysToYmd` | crates/apollo-core/src/scheduler.rs:310-326 | both loops end and give the one valid date whose Gregorian day count is the argument |
| `Calendar.UnixToParts` | crates/apollo-core/src/scheduler.rs:296-308 | the five fields of a time stamp |
| `Calendar.PartsOfEpoch` | crates/apollo-core/src/scheduler.rs:296-308 | time 0 is midnight on Thursday 1 January |
| `Calendar.MinuteTicks` | crates/apollo-core/src/scheduler.rs:299-299 | 60 seconds later the minute is the next one modulo 60 |
| `Calendar.HourTicks` | crates/apollo-core/src/scheduler.rs:300-300 | 3600 seconds later the hour is the next one modulo 24, in the same minute |
| `Calendar.DaysBeforeYearClosedForm` | crates/apollo-core/src/scheduler.rs:311-317 | the year loop's sum is 365 days a year plus the leap years by the 4, 100, 400 rule |
| `Calendar.DaysBeforeMonthClosedForm` | crates/apollo-core/src/scheduler.rs:318-324 | where each month starts, by one formula over month number and leap year |
| `Calendar.DayNumberClosedForm` | crates/apollo-core/src/scheduler.rs:310-326 | the day count of every valid date in closed form |
| `Calendar.DayNumberInjective` | crates/apollo-core/src/scheduler.rs:310-326 | different valid dates have different day counts |
| `Calendar.DateOfDayNumber` | crates/apollo-core/src/scheduler.rs:310-326 | decomposing a date's day count gives the date back |
| `Calendar.DateOfNext` | crates/apollo-core/src/scheduler.rs:310-326 | consecutive days are successive dates, over month ends, leap days and year ends |
| `Calendar.EpochIsThursday` | crates/apollo-core/src/scheduler.rs:302-302 | day 0 is 1970-01-01, a Thursday |
| `Calendar.WeekdaysAdvance` | crates/apollo-core/src/scheduler.rs:302-302 | weekdays advance by one modulo 7 |
| `Calendar.PartsOfMoment` | crates/apollo-core/src/scheduler.rs:296-308 | day, hour and minute fields have given values iff the time stamp lies in that minute of that day |
| `CronExpr.SplitJoins` | crates/apollo-core/src/scheduler.rs:272-272 | splitting on commas loses nothing and leaves no comma behind |
| `CronExpr.ParseField` | crates/apollo-core/src/scheduler.rs:270-292 | the list built, filtered, sorted and deduplicated is the ascending list of denoted values; the first faulty part decides between rejection and division by zero; an empty list is rejected |
| `CronExpr.AcceptedValues` | crates/apollo-core/src/scheduler.rs:270-292 | an accepted field is a non-empty, strictly ascending list of exactly the values some part denotes within range |
| `CronExpr.ParseCron` | crates/apollo-core/src/scheduler.rs:240-249 | five fields or rejection, parsed in order, the first failing field deciding |
| `CronExpr.CronOfOk` | crates/apollo-core/src/scheduler.rs:241-249 | an accepted expression supplies what the search needs: non-empty ascending lists within range |
| `CronTexts.SplitWhitespaceJoins` | crates/apollo-core/src/scheduler.rs:241-241 | splitting on whitespace gives back words joined by spaces |
| `CronTexts.ParseDecimal` | crates/apollo-core/src/scheduler.rs:276-284 | the decimal text of a number below 2^32 reads as the number, with or without a plus sign; larger ones are not numbers |
| `CronTexts.NotNumbers` | crates/apollo-core/src/scheduler.rs:276-284 | neither the empty text nor one with another character is a number |
| `CronTexts.DashPart` | crates/apollo-core/src/scheduler.rs:278-282 | the text before the first dash and all the text after it are the bounds of a range, both numbers or the part is malformed |
| `CronTexts.RangeText` | crates/apollo-core/src/scheduler.rs:278-282 | the text of a range accepts exactly the numbers from its first to its second bound that lie in range, and is rejected if there are none |
| `CronTexts.StepText` | crates/apollo-core/src/scheduler.rs:275-277 | the text of a step n accepts exactly every n-th number from the least one on; a step of zero panics |
| `CronTexts.NumberText` | crates/apollo-core/src/scheduler.rs:283-285 | the text of a number accepts it if it is in range, and is rejected otherwise |
| `CronTexts.ListText` | crates/apollo-core/src/scheduler.rs:272-291 | a comma joins two fields: the first fault decides, and without one the values are those of both |
| `CronTexts.FiveFields` | crates/apollo-core/src/scheduler.rs:241-249 | five accepted fields joined by spaces are the minutes, hours, days, months and weekdays, in this order |
| `CronTexts.FiveStars` | crates/apollo-core/src/scheduler.rs:241-249 | five stars allow all minutes 0 to 59, hours 0 to 23, days 1 to 31, months 1 to 12 and weekdays 0 to 6 |
| `CronTexts.LiteralField` | crates/apollo-core/src/scheduler.rs:283-291 | a field that is one number within range allows exactly that number |
| `CronSearch.MatchesIsPartsAllowed` | crates/apollo-core/src/scheduler.rs:259-264 | the five membership tests hold iff the minute containing the time stamp is an allowed minute of an allowed day |
| `CronSearch.DaySkipSound` | crates/apollo-core/src/scheduler.rs:261-262 | jumping to midnight passes no allowed minute |
| `CronSearch.HourSkipSound` | crates/apollo-core/src/scheduler.rs:263-263 | jumping to the next hour passes no allowed minute |
| `CronSearch.MonthSkipSound` | crates/apollo-core/src/scheduler.rs:260-260 | jumping over days of disallowed months passes no allowed minute |
| `CronSearch.FirstAboveIs` | crates/apollo-core/src/scheduler.rs:335-336 | on an ascending list the first larger month is the least larger one, and there is none exactly when the code wraps |
| `CronSearch.AdvanceToMonth` | crates/apollo-core/src/scheduler.rs:332-345 | from a disallowed month: succeeds within 400 probes, at midnight on the first of the cyclically next allowed month, and every day passed lies in a disallowed month |
| `CronSearch.SkipSound` | crates/apollo-core/src/scheduler.rs:258-266 | skipping a stretch without hits does not change the least hit |
| `CronSearch.SearchCron` | crates/apollo-core/src/scheduler.rs:251-267 | the skipping loop ends and returns the least allowed whole minute of the window, or none |
| `CronSearch.NextCron` | crates/apollo-core/src/scheduler.rs:240-268 | on the text of an expression: panic, nothing, or that minute |
| `CronSearch.NextTimeIsLeast` | crates/apollo-core/src/scheduler.rs:251-267 | a time is found iff some allowed whole minute lies strictly after the argument and below the limit, and it is the least such |
| `CronSearch.HasMinuteIff` | crates/apollo-core/src/scheduler.rs:251-267 | a time is found iff some allowed whole minute lies in the window |
| `CronLiveness.YearlyScheduleFires` | crates/apollo-core/src/scheduler.rs:251-267 | all weekdays and a month and day that meet in every year: found within 366 days |
| `CronLiveness.WeeklyScheduleFires` | crates/apollo-core/src/scheduler.rs:251-267 | months and days unrestricted: found within 7 days for any weekdays |
| `CronLiveness.AlwaysFiresIff` | crates/apollo-core/src/scheduler.rs:251-267 | for every parsed expression: the search succeeds from every starting time iff every 1460 consecutive days starting in one 400-year cycle have a day allowed by month, day and weekday |
| `CronLiveness.CalendarCycle` | crates/apollo-core/src/scheduler.rs:296-326 | month, day and weekday repeat every 146097 days |
| `CronLiveness.YearlyDayIff` | crates/apollo-core/src/scheduler.rs:251-267 | with all weekdays allowed that test comes down to some allowed month having an allowed day of every year |
| `CronLiveness.AlwaysFiresAnyWeekday` | crates/apollo-core/src/scheduler.rs:251-267 | hence, with all weekdays allowed, the search succeeds from every starting time iff there is such a day |
| `CronLiveness.OneMinuteScheduleFiresIff` | crates/apollo-core/src/scheduler.rs:251-267 | a schedule for one minute of the day that has just fired gets a next time iff one of the next 1460 days is allowed |
| `CronLiveness.NewYearMondaysEnd` | crates/apollo-core/src/scheduler.rs:254-267 | midnight on 1 January, if a Monday, is allowed on 1 January 2018, and the search from there finds nothing |
| `CronLiveness.RareScheduleStops` | crates/apollo-core/src/scheduler.rs:254-267 | an expression without a day that every year has allows none of the 1460 days after a 29 February, whatever its weekdays |
| `CronLiveness.LeapDayScheduleEnds` | crates/apollo-core/src/scheduler.rs:254-255 | a job for one minute of 29 February that has just fired gets no next time |
| `Scheduler.ComputeNext` | crates/apollo-core/src/scheduler.rs:49-57 | the next time of each kind of schedule, panic included; what it means for stored jobs is stated by `CreatedTimes`, `FirstLaunchIff` and `IntervalLaunchesIff` |
| `Scheduler.JobStore.CreateJob` | crates/apollo-core/src/scheduler.rs:130-141 | appends the job, under the id given, stored before or not, with creation times and next run filled in, or changes nothing when the parser panics |
| `Scheduler.JobStore.MarkFired` | crates/apollo-core/src/scheduler.rs:172-206 | updates exactly the first job with the id, if any, disables it if a Once job, and always adds a history line |
| `Scheduler.JobStore.DueJobs` | crates/apollo-core/src/scheduler.rs:223-227 | the jobs at exactly the positions that are enabled and due, in store order |
| `Scheduler.JobStore.Tick` | crates/apollo-node/src/main.rs:2074-2112 | one tick launches the due jobs, and the stored jobs then change by the calls of ended tasks, one after the other |
| `SchedulerRuns.MarkedAllAt` | crates/apollo-core/src/scheduler.rs:172-188 | under any sequence of calls a record changes only if it is the first with its id and a call names it; then the last such call decides its next time, and a Once job is disabled |
| `SchedulerRuns.DueIsLaunched` | crates/apollo-node/src/main.rs:2075-2077 | a due job is launched, exactly once under its id if no other job has it |
| `SchedulerRuns.ShadowedNeverChanges` | crates/apollo-core/src/scheduler.rs:175-178 | a record behind another with its id is never updated |
| `SchedulerRuns.UnreachedLaunchesAgain` | crates/apollo-node/src/main.rs:2071-2077 | a due job that no call reaches is unchanged and launched again at every later tick |
| `SchedulerRuns.OnceLaunchesAgainIff` | crates/apollo-node/src/main.rs:2071-2107 | a launched Once job is launched again at a later tick iff no call naming its id, with no record before it under that id, arrives in between |
| `SchedulerRuns.OnceRunIff` | crates/apollo-node/src/main.rs:2066-2114 | over any run a Once job is launched at most once iff such a call arrives in every tick that launches it, the last one excepted |
| `SchedulerRuns.OnceFiresAtMostOnceIff` | crates/apollo-core/src/scheduler.rs:172-188 | an enabled Once job fires at most once in every run whose tasks end before the next tick iff no job stored before it has its id |
| `SchedulerRuns.CreatedTimes` | crates/apollo-core/src/scheduler.rs:130-137 | a new interval job waits one interval; a new Once job waits for its time, or 60 seconds if that has passed; creation times are set, the rest kept |
| `SchedulerRuns.FirstLaunchIff` | crates/apollo-node/src/main.rs:2074-2077 | until a call reaches it, an interval job is launched in exactly the ticks from one interval after its creation on, and a Once job created before its time in exactly those from that time on |
| `SchedulerRuns.IntervalLaunchesIff` | crates/apollo-node/src/main.rs:2066-2114 | after a call that reaches it, an interval job is launched in exactly the ticks from one interval after that call on, until the next call |
| `SchedulerRuns.CountsAreCalls` | crates/apollo-core/src/scheduler.rs:178-181 | over any run the counters of a record count the calls that named its id and those that failed, and its last run is the time of the last, unless an earlier record has the id |
| `CronRuns.FiringMovesOnIff` | crates/apollo-core/src/scheduler.rs:172-188 | after firing a cron job waits for the very next allowed minute iff no allowed minute passed before the marking and some allowed minute lies in the search window |
| `CronRuns.MarkingKeepsIff` | crates/apollo-core/src/scheduler.rs:172-188 | a marking outside the job's own rounds leaves its waiting time iff it comes before that minute, within the search window, with no allowed minute between |
| `CronRuns.WithinTheMinute` | crates/apollo-core/src/scheduler.rs:172-188 | marking less than 60 seconds after the due minute is in time iff some allowed minute lies in the search window |
| `CronRuns.RunMovesIff` | crates/apollo-node/src/main.rs:2066-2114 | over any run, repeated ids, slow tasks and runs by hand included: the next runs of a cron job are consecutive allowed minutes, one step per firing, iff in every round that launches it a call reaches it in time, and calls that reach it in other rounds leave its waiting time |
| `CronRuns.NoMissedMinute` | crates/apollo-node/src/main.rs:2066-2114 | then a minute between the first and last next run has fired iff it is allowed |
| `CronRuns.NoDoubledMinute` | crates/apollo-node/src/main.rs:2066-2114 | and no minute has fired in two ticks |
| `CronRuns.SettledRunMovesIff` | crates/apollo-node/src/main.rs:2077-2112 | if every launched task ends before the next tick, nothing is run by hand and no other job has the id, the condition is that each launch is marked in time |
| `CronRuns.HandRunPassesOver` | crates/apollo-node/src/main.rs:1531-1544 | a run by hand just after the due minute makes the loop pass over it: the job is never launched for an allowed minute that its waiting time has left behind |
| `CronRuns.CreatedWaitsIff` | crates/apollo-core/src/scheduler.rs:130-141 | a new cron job waits for the least allowed minute after its creation iff some allowed minute lies in the search window; otherwise it is due after 60 seconds, in a disallowed minute |
| `CronRuns.CreatedJobsWaitIff` | crates/apollo-core/src/scheduler.rs:130-141 | it does so whenever it is created iff every 1460 days have an allowed day |
| `CronRuns.FallbackIsNeverAllowed` | crates/apollo-core/src/scheduler.rs:182-182 | after a firing the next time is an allowed minute iff the search window holds one; the one-day fallback never is |
| `CronRuns.NextRunsAreAllowedIff` | crates/apollo-core/src/scheduler.rs:182-182 | a cron job gets an allowed next run from every firing iff every 1460 days have an allowed day |
| `CronRuns.LeapDayJobMisfires` | crates/apollo-core/src/scheduler.rs:182-182 | a 29 February job becomes due a day later, on a day its expression excludes |
| `CronRuns.LeapDayTextMisfires` | crates/apollo-core/src/scheduler.rs:182-182 | so does a stored job with the text `0 0 29 2 *` |
| `CronRuns.NewYearMondayTextMisfires` | crates/apollo-core/src/scheduler.rs:182-182 | and one with the text `0 0 1 1 1`, marked on 1 January 2018 |
| `CronRuns.RejectedJobFires` | crates/apollo-core/src/scheduler.rs:135-135 | a text that does not parse is due 60 seconds after its creation and a day after each firing |
| `CronRuns.FiveStarsFire` | crates/apollo-core/src/scheduler.rs:240-268 | five stars fire at the next whole minute from any time |
| `Messaging.Topic.Publish` | crates/apollo-core/src/messaging.rs:105-143 | is the publish step of the run results: one message under the next sequence number |
| `Messaging.Topic.Compact` | crates/apollo-core/src/messaging.rs:214-230 | is their compaction step: exactly the unexpired messages stay, and the count of the others is reported |
| `Messaging.Topic.PollSince` | crates/apollo-core/src/messaging.rs:146-163 | is their poll step: unexpired messages above the cursor, ascending, at most the limit and 1000, and whatever lies above the cursor and is not returned has expired or follows a full answer |
| `Messaging.Topic.PeekLatest` | crates/apollo-core/src/messaging.rs:197-211 | the bounded queue ends with the last live messages; a limit of 0 counts as 1 |
| `Messaging.LastLiveMeans` | crates/apollo-core/src/messaging.rs:197-211 | what is kept are the last messages of the log that have not reached their time stamp plus ttl |
| `Messaging.CompactedPending` | crates/apollo-core/src/messaging.rs:214-230 | compaction changes no poll's selection, then or later |
| `Messaging.PollFacts` | crates/apollo-core/src/messaging.rs:158-162 | a poll skips no unexpired message below the last one it returns, and none at all below its limit |
| `Messaging.RunKeepsInv` | crates/apollo-core/src/messaging.rs:105-163 | over any interleaving of publish, compact, poll and waiting: numbers ascend up to lastSeq; the consumer receives each message at most once, in order; whatever it skipped has expired |
| `Messaging.ShortPollCatchesUp` | crates/apollo-core/src/messaging.rs:146-163 | after a poll below its limit, every published message was received or has expired |
| `Messaging.SelectedUntilExpiry` | crates/apollo-core/src/messaging.rs:39-47 | over any run a published message is selected by polls from below its number up to but not including its time stamp plus its ttl, for ever without one, unless the poll fills up before it; and by none after |
| `Messaging.CompactedFromExpiry` | crates/apollo-core/src/messaging.rs:214-230 | over any run a compaction leaves out a published message exactly from its time stamp plus its ttl on |
| `Messaging.StampedWithinRun` | crates/apollo-core/src/messaging.rs:129-129 | time stamps lie between the start of the run and the present |
| `Messaging.RunLater` | crates/apollo-core/src/messaging.rs:39-47 | starting a run later shifts all time stamps and changes nothing else |
| `Messaging.CompactionIsInvisible` | crates/apollo-core/src/messaging.rs:214-230 | removing all compactions from a run changes nothing any consumer sees |
| `SparseVectors.CosineSimilarity` | crates/apollo-core/src/memory.rs:400-406 | the three sums give the cosine whatever the visiting order, 0 for an empty or zero vector |
| `SparseVectors.SumSplit` | crates/apollo-core/src/memory.rs:402-404 | a sum over a hash map does not depend on the order of its terms |
| `SparseVectors.CauchySchwarz` | crates/apollo-core/src/memory.rs:402-405 | the squared dot product is at most the product of the squared norms |
| `SparseVectors.CosineBounds` | crates/apollo-core/src/memory.rs:400-406 | any two vectors score between -1 and 1 |
| `SparseVectors.CosineTimesLengths` | crates/apollo-core/src/memory.rs:402-405 | the score times the two lengths is the dot product |
| `SparseVectors.DotOverSharedKeys` | crates/apollo-core/src/memory.rs:402-402 | the dot product is the sum over the shared keys |
| `SparseVectors.PositiveCosine` | crates/apollo-core/src/memory.rs:400-406 | positive vectors score in [0, 1], and above 0 iff they share a key |
| `SparseVectors.SelfCosine` | crates/apollo-core/src/memory.rs:400-406 | a non-empty positive vector scores 1 against itself |
| `MemoryScores.ComputeIdf` | crates/apollo-core/src/memory.rs:375-384 | each query token's weight from the number of entries containing it, once per token |
| `MemoryScores.IdfIsPositive` | crates/apollo-core/src/memory.rs:376-381 | every weight is positive, because the argument of ln is at least 1/2 |
| `MemoryScores.RarerWeighsMore` | crates/apollo-core/src/memory.rs:376-381 | a token in fewer entries weighs more |
| `MemoryScores.AllButOneWeighsOne` | crates/apollo-core/src/memory.rs:376-381 | a token that all entries but one contain weighs exactly 1 |
| `MemoryScores.TfidfVector` | crates/apollo-core/src/memory.rs:387-398 | the share of each token times its weight, tokens of weight 0 dropped |
| `MemoryScores.WeightIs` | crates/apollo-core/src/memory.rs:389-396 | a token of nonzero weight, and no other, has its number of occurrences times its weight over the length of the text |
| `MemoryScores.ScoreRange` | crates/apollo-core/src/memory.rs:217-240 | scores lie in [0, 1], for an empty query too |
| `MemoryScores.PositiveScoreIff` | crates/apollo-core/src/memory.rs:227-240 | an entry scores above 0 iff it shares a token with the query |
| `MemoryScores.ExactMatchScoresOne` | crates/apollo-core/src/memory.rs:227-240 | an entry with the query's tokens scores 1 |
| `MemorySearch.SearchMemory` | crates/apollo-core/src/memory.rs:206-247 | exactly min(limit, eligible) distinct live entries that pass the tag and score filters, with their scores, descending, none left out that scores higher; an empty query scores 1 and ignores the score filter |
| `MemorySearch.AnswersMean` | crates/apollo-core/src/memory.rs:206-247 | a result is stored, not past its ttl, carries every tag asked for and reaches the least score; any such entry that is missing found the list full of entries scoring as high |
| `MemoryScores.LiveUntil` | crates/apollo-core/src/memory.rs:46-52 | an entry is live until its creation time plus its ttl, for ever without one |
| `MemorySearch.AnswersAgree` | crates/apollo-core/src/memory.rs:244-245 | any two answers to a search have the same scores, so the map's order only exchanges ties |
| `Health.HealthRecord.RecordSample` | crates/apollo-core/src/health.rs:135-171 | the history is the last 60 samples, the trend is that of the history, the peak bounds every sample ever seen |
| `Health.DenominatorClosed` | crates/apollo-core/src/health.rs:305-313 | the denominator is n^2 (n^2 - 1) / 12, so the zero guard is never taken |
| `Health.NumeratorSign` | crates/apollo-core/src/health.rs:306-316 | Chebyshev's sum inequality against the sample indices |
| `Health.MonotoneTrend` | crates/apollo-core/src/health.rs:299-318 | growing memory has a trend of at least 0, shrinking memory one of at most 0 |
| `Health.FewSamples` | crates/apollo-core/src/health.rs:300-301 | up to two samples show no trend |
| `Health.TrendIgnoresOffset` | crates/apollo-core/src/health.rs:299-318 | adding a constant to all samples changes nothing |
| `Health.LineTrend` | crates/apollo-core/src/health.rs:299-318 | a steady growth of b per sample gives exactly 2 b per minute |
| `Health.TrendIsLeastSquares` | crates/apollo-core/src/health.rs:298-318 | half the trend is the slope of a line no other line beats in squared error |
| `ShellWords.SplitWords` | crates/apollo-core/src/runtime_registry.rs:75-104 | the loop over characters is the scanner the lemmas are about |
| `ShellWords.WordsAreNonEmpty` | crates/apollo-core/src/runtime_registry.rs:91-102 | no word is ever empty |
| `ShellWords.QuotedWordsAreRead` | crates/apollo-core/src/runtime_registry.rs:81-102 | scanning the quoted text ends outside quotes with the non-empty words, in order |
| `ShellWords.QuotedRoundTrip` | crates/apollo-core/src/runtime_registry.rs:75-104 | words of arbitrary characters, quoted character by character and joined with spaces, come back; exactly the empty ones are lost |
| `ShellWords.SegmentsRoundTrip` | crates/apollo-core/src/runtime_registry.rs:75-104 | words of bare and quoted segments, any white space before, between and after them, come back: a quote mark neither starts nor ends a word, and holds the other mark |
| `LogRotation.LogFiles.Rotate` | crates/apollo-core/src/types.rs:227-232 | the descending renames move every generation up by one, losing only the oldest, and leave no hole |
| `LogRotation.LogFiles.Append` | crates/apollo-core/src/types.rs:219-243 | rotate when the limit is exceeded, then append |
| `LogRotation.RotationKeepsSuffix` | crates/apollo-runtime/src/process.rs:66-79 | what was retained is the lost text followed by what is retained now, and text is lost only when all generations exist |
| `LogRotation.FilesHoldSuffix` | crates/apollo-core/src/types.rs:219-243 | over any events, or any starts of an agent with all it writes until the next one, the files hold a suffix of everything written; once something is lost more than the limit times the generations is retained |
| `LogRotation.FilesAreBounded` | crates/apollo-core/src/types.rs:225-226 | no file exceeds the limit by more than one text |
| `LogRotation.EventLogHolds` | crates/apollo-core/src/types.rs:225-233 | the event log loses nothing before it holds 300 megabytes in three older generations |
| `LogRotation.AgentLogHolds` | crates/apollo-runtime/src/process.rs:66-79 | an agent log loses nothing before it holds 50 megabytes in five |
| `RateLimiter.Limiter.Check` | crates/apollo-node/src/main.rs:393-403 | accepts iff the key is new or its last acceptance is an interval ago, and then records the time |
| `RateLimiter.WindowBound` | crates/apollo-node/src/main.rs:393-403 | every half-open window holds at most width over interval acceptances of a key, rounded up |
| `RateLimiter.EvenRequestsAccepted` | crates/apollo-node/src/main.rs:397-400 | requests one interval apart are all accepted, so the bound is reached |
| `RateLimiter.KeepsRateIff` | crates/apollo-node/src/main.rs:397-397 | no second ever sees more than the configured number of acceptances iff that number divides 1000 |
| `RateLimiter.KeysAreIndependent` | crates/apollo-node/src/main.rs:398-401 | a key's decisions are as if no other key existed |
| `RateLimiter.AcceptsIff` | crates/apollo-node/src/main.rs:397-401 | accepted are a first request and exactly those at least one interval after the last accepted one |
| `RateLimiter.RejectedIsForgotten` | crates/apollo-node/src/main.rs:399-399 | a rejected request changes no later decision |

## Left out

- HTTP handlers, command line, process spawning, signals, TLS, tokens, encryption, archives and storage formats: input and output around the modelled logic.
- Races on the run, job and topic files: every public operation is one atomic step, and saving and loading always succeed.
- Integer overflow: time stamps, sequence numbers and counters are unbounded; the source's 64-bit sums near their maximum are outside the model.
- Rounding of 32- and 64-bit floats: scores and trends are exact reals.
- ArchSelector.AnalyseDag: leaves out the metrics distinct agents, optional ratio, branching, fan-in and timeouts, counts and flags with no further structure.
- Architecture scores, governance checks and the recommended configuration: sums and flags over those metrics.
- The second run file read and the agent registry lookup inside an iteration: a vanished run file ends the loop, which the model does not show.
- Updating and deleting jobs, `has_future`, reading the history: simple edits of the list.
- Clearing and listing topics: a cleared topic restarts its numbers, which the delivery results exclude.
- Tokenisation, lower-casing and the text of a memory entry: entries come with their tokens; the external vector store is not modelled.
- Rename and append failures in log rotation; sizes are counted in characters, and line ends are part of the appended text.
- A rate limit of zero: dividing by it panics, so `RateLimiter.Limiter.Check` asks for a positive one.
- Health.HealthRecord.RecordSample: leaves out the averages, the latency and the health score; crash patterns are not modelled either.
- The runtime's agent CRUD, policies, model router, usage records and tracing: further simple storage.
- LogRotation.LogFiles.Rotate: asks that the log exists, as the size test before it guarantees.
