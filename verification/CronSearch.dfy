/** next_cron's skipping search refines "the least matching minute in the window"
    (crates/apollo-core/src/scheduler.rs, next_cron and advance_to_month). */
module CronSearch {

  import opened Options
  import opened Calendar
  import opened CronExpr

  /** The safety cap on the search: four years of 365 days. */
  const WINDOW: nat := 4 * 365 * 86400

  /** Month, day of the month and weekday are all allowed, as coded. */
  ghost predicate AllowsDay(c: Cron, day: nat) {
    DateOf(day).month in c.months && DateOf(day).day in c.doms && Weekday(day) in c.dows
  }

  ghost predicate Allows(c: Cron, day: nat, hour: nat, minute: nat) {
    AllowsDay(c, day) && hour < 24 && hour in c.hours && minute < 60 && minute in c.minutes
  }

  /** The minute of some day that contains ts is allowed. */
  ghost predicate Matches(c: Cron, ts: nat) {
    exists day: nat, hour: nat, minute: nat {:trigger MomentOf(day, hour, minute)} ::
      MomentOf(day, hour, minute) <= ts < MomentOf(day, hour, minute) + 60 && Allows(c, day, hour, minute)
  }

  ghost predicate PartsAllowed(c: Cron, t: TimeParts) {
    t.month in c.months && t.dom in c.doms && t.dow in c.dows && t.hour in c.hours && t.minute in c.minutes
  }

  /** The code's five membership tests decide exactly that. */
  lemma MatchesIsPartsAllowed(c: Cron, ts: nat)
    ensures Matches(c, ts) <==> PartsAllowed(c, PartsOf(ts))
  {
    hide DateOf, Weekday;
    var day, hour, minute := ts / 86400, PartsOf(ts).hour, PartsOf(ts).minute;
    PartsOfMoment(ts, day, hour, minute);
    if Matches(c, ts) {
      var d: nat, h: nat, m: nat :| MomentOf(d, h, m) <= ts < MomentOf(d, h, m) + 60 && Allows(c, d, h, m);
      hide MomentOf;
      PartsOfMoment(ts, d, h, m);
    }
  }

  // ---- the reference: try every minute in turn ----

  /** No whole minute in [from, to) satisfies p. */
  ghost predicate NoneIn(p: nat -> bool, from: nat, to: nat) {
    forall ts: nat {:trigger p(ts)} :: from <= ts < to && ts % 60 == 0 ==> !p(ts)
  }

  ghost function LeastMinute(p: nat -> bool, from: nat, limit: nat): Option<nat>
    decreases if from < limit then limit - from else 0
  {
    if from >= limit then None else if p(from) then Some(from) else LeastMinute(p, from + 60, limit)
  }

  lemma {:induction false} LeastMinuteIs(p: nat -> bool, from: nat, limit: nat)
    requires from % 60 == 0
    ensures match LeastMinute(p, from, limit)
            case Some(r) => from <= r < limit && r % 60 == 0 && p(r) && NoneIn(p, from, r)
            case None => NoneIn(p, from, limit)
    decreases if from < limit then limit - from else 0
  {
    if from < limit && !p(from) { LeastMinuteIs(p, from + 60, limit); }
  }

  /** Skipping a stretch without hits does not change the result. */
  lemma {:induction false} SkipSound(p: nat -> bool, from: nat, to: nat, limit: nat)
    requires from % 60 == 0 && to % 60 == 0 && from <= to && NoneIn(p, from, to)
    ensures LeastMinute(p, from, limit) == LeastMinute(p, to, limit)
    decreases if from < to then to - from else 0
  {
    if from < to {
      assert !p(from);
      SkipSound(p, from + 60, to, limit);
    }
  }

  /** A hit inside the window is found, or something earlier is. */
  lemma FoundBy(p: nat -> bool, from: nat, limit: nat, hit: nat)
    requires from % 60 == 0 && from <= hit < limit && hit % 60 == 0 && p(hit)
    ensures LeastMinute(p, from, limit).Some? && LeastMinute(p, from, limit).value <= hit
  {
    LeastMinuteIs(p, from, limit);
  }

  /** The first whole minute after t. */
  function NextMinute(t: nat): nat {
    t + 60 - t % 60
  }

  function SearchLimit(after: nat): nat {
    after + 60 + WINDOW
  }

  ghost function Matcher(c: Cron): nat -> bool {
    (ts: nat) => Matches(c, ts)
  }

  /** What next_cron promises for a parsed expression. */
  ghost function NextTime(c: Cron, after: nat): Option<nat> {
    LeastMinute(Matcher(c), NextMinute(after), SearchLimit(after))
  }

  ghost predicate NoMatch(c: Cron, from: nat, to: nat) {
    NoneIn(Matcher(c), from, to)
  }

  // ---- what each skip may jump over ----

  function NextMidnight(ts: nat): nat {
    ts + 86400 - (ts + 86400) % 86400
  }

  function NextHour(ts: nat): nat {
    ts + 3600 - (ts + 3600) % 3600
  }

  lemma SameDay(ts: nat, x: nat)
    ensures ts < NextMidnight(ts) && NextMidnight(ts) % 60 == 0 && NextMidnight(ts) / 86400 == ts / 86400 + 1
    ensures ts <= x < NextMidnight(ts) ==> x / 86400 == ts / 86400
  {
    assert NextMidnight(ts) == (ts / 86400 + 1) * 86400;
  }

  lemma SameHour(ts: nat, x: nat)
    ensures ts < NextHour(ts) && NextHour(ts) % 60 == 0
    ensures ts <= x < NextHour(ts) ==> x / 3600 == ts / 3600
  {
    var q := ts / 3600 + 1;
    assert NextHour(ts) == q * 3600;
    HourStart(q);
    hide NextHour;
    if ts <= x < q * 3600 { HourOf(q - 1, x); }
  }

  lemma HourStart(q: nat)
    ensures (q * 3600) % 60 == 0
  {
    assert q * 3600 == (q * 60) * 60;
  }

  lemma HourOf(q: nat, x: nat)
    requires q * 3600 <= x < q * 3600 + 3600
    ensures x / 3600 == q
  {
  }

  lemma DaySkipSound(c: Cron, ts: nat)
    ensures PartsOf(ts).dom !in c.doms || PartsOf(ts).dow !in c.dows ==> NoMatch(c, ts, NextMidnight(ts))
  {
    hide DateOf, NextMidnight, Matches;
    if PartsOf(ts).dom !in c.doms || PartsOf(ts).dow !in c.dows {
      forall x: nat | ts <= x < NextMidnight(ts) ensures !Matcher(c)(x) {
        SameDay(ts, x);
        MatchesIsPartsAllowed(c, x);
      }
    }
  }

  lemma HourSkipSound(c: Cron, ts: nat)
    ensures PartsOf(ts).hour !in c.hours ==> NoMatch(c, ts, NextHour(ts))
  {
    hide DateOf, NextHour, Matches;
    if PartsOf(ts).hour !in c.hours {
      forall x: nat | ts <= x < NextHour(ts) ensures !Matcher(c)(x) {
        SameHour(ts, x);
        MatchesIsPartsAllowed(c, x);
      }
    }
  }

  lemma MinuteSkipSound(c: Cron, ts: nat)
    requires ts % 60 == 0
    ensures PartsOf(ts).minute !in c.minutes ==> NoMatch(c, ts, ts + 60)
  {
    hide DateOf, PartsOf, Matches;
    if PartsOf(ts).minute !in c.minutes {
      forall x: nat | ts <= x < ts + 60 && x % 60 == 0 ensures !Matcher(c)(x) {
        assert x == ts;
        MatchesIsPartsAllowed(c, x);
      }
    }
  }

  /** Skipping from a disallowed month over days of disallowed months. */
  lemma MonthSkipSound(c: Cron, ts: nat, day: nat)
    requires forall x: nat :: ts / 86400 <= x < day ==> DateOf(x).month !in c.months
    ensures NoMatch(c, ts, day * 86400)
  {
    hide DateOf, Matches;
    forall x: nat | ts <= x < day * 86400 ensures !Matcher(c)(x) {
      assert ts / 86400 <= x / 86400 < day;
      MatchesIsPartsAllowed(c, x);
    }
  }

  // ---- advance_to_month ----

  /** The cyclically next allowed month: the first one above `month`, else the smallest. */
  function NextAllowedMonth(months: seq<nat>, month: nat): (m: nat)
    requires months != []
    ensures m in months
  {
    FirstAbove(months, month, months[0])
  }

  function FirstAbove(months: seq<nat>, month: nat, fallback: nat): (m: nat)
    ensures m in months || m == fallback
  {
    if months == [] then fallback
    else if months[0] > month then months[0]
    else FirstAbove(months[1..], month, fallback)
  }

  lemma {:induction false} FirstAboveIs(months: seq<nat>, month: nat, fallback: nat)
    requires Ascending(months)
    ensures var m := FirstAbove(months, month, fallback);
            if exists k :: 0 <= k < |months| && months[k] > month
            then m > month && (forall k :: 0 <= k < |months| && months[k] > month ==> m <= months[k])
            else m == fallback
  {
    if months != [] && months[0] <= month {
      FirstAboveIs(months[1..], month, fallback);
      assert forall k :: 1 <= k < |months| ==> months[k] == months[1..][k - 1];
    }
  }

  /** The months passed on the way from a disallowed month to the next allowed one. */
  lemma MonthsBetween(months: seq<nat>, month: nat, x: nat)
    requires FieldOk(months, 1, 12) && 1 <= month <= 12 && month !in months
    ensures var m := NextAllowedMonth(months, month);
            && m != month
            && (month < x < m || (m < month && (month < x || x < m)) ==> x !in months)
  {
    FirstAboveIs(months, month, months[0]);
    if x in months {
      var k :| 0 <= k < |months| && months[k] == x;
      assert months[0] <= months[k];
    }
  }

  /** The first of the next allowed month, as a date after d. */
  function FirstOfNext(months: seq<nat>, d: Date): Date
    requires months != []
  {
    var m := NextAllowedMonth(months, d.month);
    Date(if m > d.month then d.year else d.year + 1, m, 1)
  }

  /** A leap day only shows in month starts from March on. */
  lemma EarlyMonths(a: nat, b: nat, month: nat)
    requires 1 <= month <= 12
    ensures DaysBeforeMonth(a, month) <= DaysBeforeMonth(b, month) + 1
    ensures month <= 2 ==> DaysBeforeMonth(a, month) == DaysBeforeMonth(b, month)
    ensures IsLeap(b) ==> DaysBeforeMonth(a, month) <= DaysBeforeMonth(b, month)
  {
    if month > 1 { EarlyMonths(a, b, month - 1); }
  }

  lemma FirstOfNextBound(months: seq<nat>, d: Date)
    requires FieldOk(months, 1, 12) && ValidDate(d) && d.month !in months
    ensures ValidDate(FirstOfNext(months, d)) && DayNumber(d) < DayNumber(FirstOfNext(months, d)) <= DayNumber(d) + 366
  {
    MonthsBetween(months, d.month, d.month);
    var f := FirstOfNext(months, d);
    DayNumberAscends(d, f);
    if f.year == d.year {
      DayNumberBounds(f);
    } else {
      assert DaysBeforeYear(d.year + 1) == DaysBeforeYear(d.year) + YearLength(d.year);
      MonthsAscend(d.year, f.month, d.month);
      EarlyMonths(f.year, d.year, f.month);
    }
  }

  /** Every day from d's to the one before FirstOfNext lies in a disallowed month. */
  lemma DaysBetween(months: seq<nat>, d: Date, x: nat)
    requires FieldOk(months, 1, 12) && ValidDate(d) && d.month !in months
    requires DayNumber(d) <= x && ValidDate(FirstOfNext(months, d)) && x < DayNumber(FirstOfNext(months, d))
    ensures DateOf(x).month !in months && DateOf(x).month != FirstOfNext(months, d).month
  {
    hide MonthLength, DaysBeforeMonth, DaysBeforeYear;
    var f, dx := FirstOfNext(months, d), DateOf(x);
    DateOfDayNumber(d);
    DateOfDayNumber(f);
    if DayNumber(d) < x { DateOfAscends(DayNumber(d), x); }
    DateOfAscends(x, DayNumber(f));
    MonthsBetween(months, d.month, dx.month);
  }

  /** Called on a day of a disallowed month: midnight on the first of the cyclically next allowed month;
      the days skipped all lie in disallowed months, and 400 probes always suffice. */
  method AdvanceToMonth(ts: nat, months: seq<nat>) returns (r: Option<nat>)
    requires FieldOk(months, 1, 12) && DateOf(ts / 86400).month !in months
    ensures r.Some? && r.value > ts && r.value % 86400 == 0
    ensures DateOf(r.value / 86400) == FirstOfNext(months, DateOf(ts / 86400))
    ensures forall x: nat :: ts / 86400 <= x < r.value / 86400 ==> DateOf(x).month !in months
  {
    hide DateOf, DayNumber, ValidDate;
    ghost var day := ts / 86400;
    ghost var d := DateOf(day);
    ghost var f := FirstOfNext(months, d);
    FirstOfNextBound(months, d);
    DateOfDayNumber(f);
    var t := UnixToParts(ts);
    var nextMonth := NextAllowedMonth(months, t.month);
    var candidate := ts + 86400;
    for k := 0 to 400
      invariant candidate == ts + 86400 * (k + 1)
      invariant day + k < DayNumber(f)
    {
      assert candidate / 86400 == day + k + 1;
      var ct := UnixToParts(candidate);
      if ct.month == nextMonth {
        if day + k + 1 < DayNumber(f) { DaysBetween(months, d, day + k + 1); }
        forall x: nat | day <= x < DayNumber(f) ensures DateOf(x).month !in months {
          DaysBetween(months, d, x);
        }
        assert candidate - candidate % 86400 == (candidate / 86400) * 86400;
        return Some(candidate - candidate % 86400);
      }
      candidate := candidate + 86400;
    }
    return None;
  }

  /** `next` is a whole minute after ts, and the search may go on from there. */
  ghost predicate GoodSkip(c: Cron, ts: nat, next: nat) {
    && ts < next && next % 60 == 0
    && forall limit: nat :: LeastMinute(Matcher(c), ts, limit) == LeastMinute(Matcher(c), next, limit)
  }

  lemma Skips(c: Cron, ts: nat, next: nat)
    requires ts % 60 == 0 && ts < next && next % 60 == 0 && NoMatch(c, ts, next)
    ensures GoodSkip(c, ts, next)
  {
    forall limit: nat ensures LeastMinute(Matcher(c), ts, limit) == LeastMinute(Matcher(c), next, limit) {
      SkipSound(Matcher(c), ts, next, limit);
    }
  }

  lemma PartsMonth(ts: nat)
    ensures PartsOf(ts).month == DateOf(ts / 86400).month
  {
  }

  lemma MonthJump(c: Cron, ts: nat, next: nat)
    requires next % 86400 == 0 && forall x: nat :: ts / 86400 <= x < next / 86400 ==> DateOf(x).month !in c.months
    ensures NoMatch(c, ts, next) && next % 60 == 0
  {
    hide DateOf, NoMatch;
    MonthSkipSound(c, ts, next / 86400);
    assert next / 86400 * 86400 == next;
  }

  /** One round of the loop on a minute that some field rejects. */
  method SkipOn(c: Cron, ts: nat, t: TimeParts) returns (next: Option<nat>)
    requires CronOk(c) && ts % 60 == 0 && t == PartsOf(ts) && !PartsAllowed(c, t)
    ensures next.Some? && GoodSkip(c, ts, next.value)
  {
    hide NextMidnight, NextHour, NoMatch, GoodSkip, DateOf, PartsOf, LeastMinute, Matcher, FirstOfNext;
    if t.month !in c.months {
      PartsMonth(ts);
      next := AdvanceToMonth(ts, c.months);
      MonthJump(c, ts, next.value);
    } else if t.dom !in c.doms || t.dow !in c.dows {
      next := Some(NextMidnight(ts));
      DaySkipSound(c, ts);
      SameDay(ts, ts);
    } else if t.hour !in c.hours {
      next := Some(NextHour(ts));
      HourSkipSound(c, ts);
      SameHour(ts, ts);
    } else {
      next := Some(ts + 60);
      MinuteSkipSound(c, ts);
    }
    Skips(c, ts, next.value);
  }

  /** The search loop of next_cron. */
  method SearchCron(c: Cron, after: nat) returns (r: Option<nat>)
    requires CronOk(c)
    ensures r == NextTime(c, after)
  {
    hide PartsOf, CronOk, Matches;
    var start := after + 60;
    var limit := start + 4 * 365 * 86400;
    var ts := start - start % 60;
    assert ts == NextMinute(after) && limit == SearchLimit(after);
    hide NextMinute, SearchLimit, NoneIn;
    while ts < limit
      invariant ts % 60 == 0
      invariant LeastMinute(Matcher(c), ts, limit) == NextTime(c, after)
      decreases if ts < limit then limit - ts else 0
    {
      var t := UnixToParts(ts);
      if t.month in c.months && t.dom in c.doms && t.dow in c.dows && t.hour in c.hours && t.minute in c.minutes {
        MatchesIsPartsAllowed(c, ts);
        assert Matcher(c)(ts);
        return Some(ts);
      }
      var next := SkipOn(c, ts, t);
      if next.None? { return None; }
      ts := next.value;
    }
    return None;
  }

  /** next_cron on an expression: panic, no time, or a time. */
  datatype CronResult = CronPanic | NoTime | At(ts: nat)

  ghost function NextCronOf(expr: string, after: nat): CronResult {
    match CronOf(expr)
    case CronPanics => CronPanic
    case CronRejected => NoTime
    case CronAccepted(c) =>
      match NextTime(c, after)
      case None => NoTime
      case Some(ts) => At(ts)
  }

  method NextCron(expr: string, after: nat) returns (r: CronResult)
    ensures r == NextCronOf(expr, after)
  {
    hide CronOf, NextTime;
    var parsed := ParseCron(expr);
    if parsed.CronPanics? { return CronPanic; }
    if parsed.CronRejected? { return NoTime; }
    CronOfOk(expr);
    var ts := SearchCron(parsed.cron, after);
    r := if ts.None? then NoTime else At(ts.value);
  }

  /** A time is found exactly when some whole minute after `after`, below the search limit, is allowed by all
      five fields, and then it is the least such minute. */
  lemma NextTimeIsLeast(c: Cron, after: nat)
    ensures NextTime(c, after) == None <==>
      forall ts: nat :: after < ts < SearchLimit(after) && ts % 60 == 0 ==> !Matches(c, ts)
    ensures NextTime(c, after).Some? ==>
      var r := NextTime(c, after).value;
      && after < r < SearchLimit(after) && r % 60 == 0 && Matches(c, r)
      && forall ts: nat :: after < ts < r && ts % 60 == 0 ==> !Matches(c, ts)
  {
    hide Matches, NextMinute;
    LeastMinuteIs(Matcher(c), NextMinute(after), SearchLimit(after)) by { WholeMinutesAfter(after, 0); }
    forall ts: nat | ts % 60 == 0 ensures after < ts <==> NextMinute(after) <= ts {
      WholeMinutesAfter(after, ts);
    }
    forall ts: nat ensures Matcher(c)(ts) == Matches(c, ts) {
    }
  }

  /** Some allowed whole minute lies in the search window. */
  ghost predicate HasMinute(c: Cron, after: nat) {
    exists ts: nat {:trigger IsCandidate(c, after, ts)} :: IsCandidate(c, after, ts)
  }

  ghost predicate IsCandidate(c: Cron, after: nat, ts: nat) {
    after < ts < SearchLimit(after) && ts % 60 == 0 && Matches(c, ts)
  }

  lemma HasMinuteIff(c: Cron, after: nat)
    ensures HasMinute(c, after) <==> NextTime(c, after).Some?
  {
    hide Matches, NextTime;
    NextTimeIsLeast(c, after);
    if NextTime(c, after).Some? { assert IsCandidate(c, after, NextTime(c, after).value); }
  }

  lemma WholeMinutesAfter(after: nat, ts: nat)
    requires ts % 60 == 0
    ensures NextMinute(after) % 60 == 0 && (after < ts <==> NextMinute(after) <= ts)
  {
    assert NextMinute(after) == (after / 60 + 1) * 60;
    assert ts == ts / 60 * 60;
  }
}
