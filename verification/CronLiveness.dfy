/** How soon next_cron finds a time, and for exactly which schedules its four-year window is wide enough. */
module CronLiveness {
  import opened Options
  import opened Numbers
  import opened Calendar
  import opened CronExpr
  import opened CronSearch

  lemma MomentFound(c: Cron, after: nat, day: nat, hour: nat, minute: nat)
    requires Allows(c, day, hour, minute) && after < MomentOf(day, hour, minute) < SearchLimit(after)
    ensures NextTime(c, after).Some? && NextTime(c, after).value <= MomentOf(day, hour, minute)
  {
    var ts := MomentOf(day, hour, minute);
    assert ts % 60 == 0 && Matches(c, ts);
    hide Matches;
    WholeMinutesAfter(after, ts);
    FoundBy(Matcher(c), NextMinute(after), SearchLimit(after), ts);
  }

  // ---- a day that exists in every year ----

  predicate InEveryYear(month: nat, day: nat) {
    1 <= month <= 12 && 1 <= day <= MonthLength(1970, month)
  }

  lemma DayInYear(year: nat, month: nat, day: nat)
    requires year >= 1970 && InEveryYear(month, day)
    ensures ValidDate(Date(year, month, day)) && ValidDate(Date(year + 1, month, day))
    ensures 0 <= DayNumber(Date(year, month, day)) < DayNumber(Date(year + 1, month, day))
    ensures DayNumber(Date(year + 1, month, day)) <= DayNumber(Date(year, month, day)) + 366
    ensures DayNumber(Date(1970, month, day)) < 365
    ensures DateOf(DayNumber(Date(year, month, day))) == Date(year, month, day)
  {
    hide DateOf;
    var d := Date(year, month, day);
    DayNumberBounds(d);
    DayNumberBounds(Date(1970, month, day));
    DateOfDayNumber(d);
    assert DaysBeforeYear(year + 1) == DaysBeforeYear(year) + YearLength(year);
    DayNumberAscends(d, Date(year + 1, month, day));
    YearShift(year, month);
  }

  /** From a date to the same date a year on it is 365 or 366 days. */
  lemma YearShift(year: nat, month: nat)
    requires year >= 1970 && 1 <= month <= 12
    ensures YearLength(year) + DaysBeforeMonth(year + 1, month) - DaysBeforeMonth(year, month) <= 366
  {
    EarlyMonths(year + 1, year, month);
  }

  lemma {:induction false} NextOccurrence(after: nat, year: nat, month: nat, day: nat, hour: nat, minute: nat)
    returns (d: nat)
    requires year >= 1970 && InEveryYear(month, day) && hour < 24 && minute < 60
    requires ValidDate(Date(year, month, day)) && DayNumber(Date(year, month, day)) >= 0
    requires MomentOf(DayNumber(Date(year, month, day)), hour, minute) <= after + 366 * 86400
    ensures DateOf(d).month == month && DateOf(d).day == day
    ensures after < MomentOf(d, hour, minute) <= after + 366 * 86400
    decreases after + 367 * 86400 - MomentOf(DayNumber(Date(year, month, day)), hour, minute)
  {
    hide DateOf, DayNumber, ValidDate, InEveryYear;
    DayInYear(year, month, day);
    d := DayNumber(Date(year, month, day));
    if MomentOf(d, hour, minute) <= after {
      d := NextOccurrence(after, year + 1, month, day, hour, minute);
    }
  }

  /** If every weekday is allowed and some allowed month and day meet in every year, a time is found
      within 366 days. */
  lemma YearlyScheduleFires(c: Cron, after: nat, month: nat, day: nat)
    requires CronOk(c) && (forall w: nat :: w < 7 ==> w in c.dows)
    requires month in c.months && day in c.doms && InEveryYear(month, day)
    ensures NextTime(c, after).Some? && NextTime(c, after).value <= after + 366 * 86400
  {
    hide DateOf, Matches, NextTime, DayNumber, ValidDate, InEveryYear;
    var hour, minute := c.hours[0], c.minutes[0];
    assert hour in c.hours && minute in c.minutes;
    DayInYear(1970, month, day);
    var d := NextOccurrence(after, 1970, month, day, hour, minute);
    MomentFound(c, after, d, hour, minute);
  }

  // ---- every day of the month allowed ----

  lemma WeekdayWithin(day: nat, w: nat) returns (d: nat)
    requires w < 7
    ensures day <= d <= day + 6 && Weekday(d) == w
  {
    d := day + (w + 7 - Weekday(day)) % 7;
  }

  /** If months and days of the month are unrestricted, a time is found within 7 days, whatever the weekdays. */
  lemma WeeklyScheduleFires(c: Cron, after: nat)
    requires CronOk(c)
    requires (forall m: nat :: 1 <= m <= 12 ==> m in c.months) && (forall d: nat :: 1 <= d <= 31 ==> d in c.doms)
    ensures NextTime(c, after).Some? && NextTime(c, after).value <= after + 7 * 86400
  {
    hide Matches, NextTime, Weekday, DateOf;
    var hour, minute := c.hours[0], c.minutes[0];
    assert hour in c.hours && minute in c.minutes && c.dows[0] in c.dows;
    var today := after / 86400;
    var start := if MomentOf(today, hour, minute) > after then today else today + 1;
    var d := WeekdayWithin(start, c.dows[0]);
    assert 1 <= DateOf(d).month <= 12 && 1 <= DateOf(d).day <= 31;
    assert after < MomentOf(d, hour, minute) <= after + 7 * 86400;
    MomentFound(c, after, d, hour, minute);
  }

  // ---- which expressions always have a next time ----

  /** Days in 400 Gregorian years; a whole number of weeks. */
  const CYCLE: nat := 146097

  /** The days the search is sure to reach from a moment on the day before. */
  const WINDOW_DAYS: nat := 1460

  ghost predicate AllowsWithin(c: Cron, day: nat) {
    exists d: nat :: day <= d < day + WINDOW_DAYS && AllowsDay(c, d)
  }

  /** Every stretch of 1460 days has an allowed day; by the calendar's period, a finite test. */
  ghost predicate EveryWindowAllows(c: Cron) {
    forall day: nat :: day < CYCLE ==> AllowsWithin(c, day)
  }

  lemma YearCycle(year: nat)
    requires year >= 1970
    ensures DaysBeforeYear(year + 400) == DaysBeforeYear(year) + CYCLE && (IsLeap(year + 400) <==> IsLeap(year))
  {
    DaysBeforeYearClosedForm(year);
    DaysBeforeYearClosedForm(year + 400);
    LeapsCycle(year - 1);
    hide LeapsThrough, DaysBeforeYear;
    LeapCycle(year);
  }

  lemma LeapsCycle(n: nat)
    ensures LeapsThrough(n + 400) == LeapsThrough(n) + 97
  {
    Later(n, 100, 4);
    Later(n, 4, 100);
    Later(n, 1, 400);
  }

  lemma LeapCycle(n: nat)
    ensures IsLeap(n + 400) <==> IsLeap(n)
  {
    Later(n, 100, 4);
    Later(n, 4, 100);
    Later(n, 1, 400);
  }

  lemma Later(n: nat, k: nat, step: nat)
    requires step > 0 && k * step == 400
    ensures (n + 400) / step == n / step + k && (n + 400) % step == n % step
  {
    var q, r := n / step, n % step;
    assert n + 400 == (q + k) * step + r;
    DivisionUnique(n + 400, step, q + k, r);
  }

  lemma {:induction false} MonthCycle(a: nat, b: nat, month: nat)
    requires IsLeap(a) <==> IsLeap(b)
    ensures DaysBeforeMonth(a, month) == DaysBeforeMonth(b, month)
  {
    if month > 1 { MonthCycle(a, b, month - 1); }
  }

  /** The calendar, weekdays included, repeats every 400 years. */
  lemma CalendarCycle(day: nat)
    ensures DateOf(day + CYCLE) == DateOf(day).(year := DateOf(day).year + 400)
    ensures Weekday(day + CYCLE) == Weekday(day)
  {
    var d := DateOf(day);
    var later := d.(year := d.year + 400);
    hide DateOf;
    YearCycle(d.year);
    MonthCycle(d.year, later.year, d.month);
    assert MonthLength(d.year, d.month) == MonthLength(later.year, d.month);
    hide IsLeap, MonthLength, DaysBeforeMonth, DaysBeforeYear, Weekday;
    DateOfDayNumber(later);
    WeekdayCycle(day);
  }

  lemma WeekdayCycle(day: nat)
    ensures Weekday(day + CYCLE) == Weekday(day)
  {
    assert CYCLE == 7 * 20871;
  }

  lemma AllowsDayCycle(c: Cron, day: nat)
    ensures AllowsDay(c, day + CYCLE) <==> AllowsDay(c, day)
  {
    hide DateOf, Weekday;
    CalendarCycle(day);
  }

  lemma AllowsWithinCycle(c: Cron, day: nat)
    ensures AllowsWithin(c, day + CYCLE) <==> AllowsWithin(c, day)
  {
    hide AllowsDay;
    if AllowsWithin(c, day) {
      var d: nat :| day <= d < day + WINDOW_DAYS && AllowsDay(c, d);
      AllowsDayCycle(c, d);
      assert AllowsDay(c, d + CYCLE);
    }
    if AllowsWithin(c, day + CYCLE) {
      var d: nat :| day + CYCLE <= d < day + CYCLE + WINDOW_DAYS && AllowsDay(c, d);
      AllowsDayCycle(c, d - CYCLE);
      assert AllowsDay(c, d - CYCLE);
    }
  }

  lemma {:induction false} EveryDayIsCovered(c: Cron, day: nat)
    requires EveryWindowAllows(c)
    ensures AllowsWithin(c, day)
  {
    hide AllowsWithin;
    if day >= CYCLE {
      EveryDayIsCovered(c, day - CYCLE);
      AllowsWithinCycle(c, day - CYCLE);
    }
  }

  lemma FoundNextDay(c: Cron, after: nat)
    requires CronOk(c) && EveryWindowAllows(c)
    ensures NextTime(c, after).Some?
  {
    var today := after / 86400;
    EveryDayIsCovered(c, today);
    EveryDayIsCovered(c, today + 1);
    hide NextTime, AllowsDay, EveryWindowAllows;
    var hour, minute := c.hours[0], c.minutes[0];
    assert hour in c.hours && minute in c.minutes;
    hide CronOk;
    var d: nat :| today <= d < today + WINDOW_DAYS && AllowsDay(c, d);
    if MomentOf(d, hour, minute) <= after {
      d :| today + 1 <= d < today + 1 + WINDOW_DAYS && AllowsDay(c, d);
    }
    MomentFound(c, after, d, hour, minute);
  }

  /** From the last minute of a day on, a time is found only if one of the next 1460 days is allowed. */
  lemma FoundInWindow(c: Cron, day: nat)
    requires NextTime(c, MomentOf(day, 23, 59)).Some?
    ensures AllowsWithin(c, day + 1)
  {
    hide AllowsDay;
    MinuteOver(MomentOf(day, 23, 59), MomentOf(day, 23, 59));
    var r, d, h, m := FoundMoment(c, MomentOf(day, 23, 59));
    assert AllowsDay(c, d) && day + 1 <= d < day + 1 + WINDOW_DAYS;
  }

  /** A time found belongs to an allowed minute of an allowed day. */
  lemma FoundMoment(c: Cron, after: nat) returns (r: nat, day: nat, hour: nat, minute: nat)
    requires NextTime(c, after).Some?
    ensures NextTime(c, after) == Some(r) && NextMinute(after) <= r < SearchLimit(after)
    ensures MomentOf(day, hour, minute) <= r < MomentOf(day, hour, minute) + 60 && Allows(c, day, hour, minute)
  {
    hide Allows, MomentOf, NextMinute;
    WholeMinutesAfter(after, 0);
    LeastMinuteIs(Matcher(c), NextMinute(after), SearchLimit(after));
    r := NextTime(c, after).value;
    assert Matches(c, r);
    day, hour, minute :| MomentOf(day, hour, minute) <= r < MomentOf(day, hour, minute) + 60
      && Allows(c, day, hour, minute);
  }

  /** The search succeeds from every starting time exactly when every 1460 days of one calendar cycle have an
      allowed day. */
  lemma AlwaysFiresIff(c: Cron)
    requires CronOk(c)
    ensures (forall after: nat :: NextTime(c, after).Some?) <==> EveryWindowAllows(c)
  {
    hide NextTime, AllowsWithin;
    if EveryWindowAllows(c) {
      hide CronOk, EveryWindowAllows;
      forall after: nat ensures NextTime(c, after).Some? { FoundNextDay(c, after); }
    } else {
      var day: nat :| day < CYCLE && !AllowsWithin(c, day);
      AllowsWithinCycle(c, day);
      if NextTime(c, MomentOf(day + CYCLE - 1, 23, 59)).Some? { FoundInWindow(c, day + CYCLE - 1); }
    }
  }

  // ---- the case of unrestricted weekdays ----

  ghost predicate LeapDay(day: nat) {
    DateOf(day).month == 2 && DateOf(day).day == 29
  }

  lemma LeapDaysAreFarApart(a: nat, b: nat)
    requires a < b && LeapDay(a) && LeapDay(b)
    ensures a + 1461 <= b
  {
    var da, db := DateOf(a), DateOf(b);
    DateOfAscends(a, b);
    assert IsLeap(da.year) && IsLeap(db.year) && da.year < db.year;
    assert DaysBeforeMonth(da.year, 2) == 31 == DaysBeforeMonth(db.year, 2);
    hide IsLeap, DaysBeforeYear, DaysBeforeMonth, DateOf, LeapDay, ValidDate;
    LeapYearsApart(da.year, db.year);
    LeapGap(da.year, db.year);
  }

  lemma LeapYearsApart(a: nat, b: nat)
    requires a < b && IsLeap(a) && IsLeap(b)
    ensures a + 4 <= b
  {
    LeapIsFourth(a);
    LeapIsFourth(b);
    hide IsLeap;
    assert a / 4 < b / 4;
  }

  lemma LeapIsFourth(a: nat)
    requires IsLeap(a)
    ensures a == 4 * (a / 4)
  {
    if a % 400 == 0 { FourCenturiesIsCentury(a, a / 400); }
    if a % 100 == 0 { CenturyIsQuarter(a, a / 100); }
  }

  lemma LeapGap(a: nat, b: nat)
    requires 1970 <= a && a + 4 <= b && IsLeap(a)
    ensures DaysBeforeYear(a) + 1461 <= DaysBeforeYear(b)
  {
    assert DaysBeforeYear(a + 1) == DaysBeforeYear(a) + 366;
    YearsAscend(a + 1, b);
  }

  /** Some allowed month has an allowed day that every year has. */
  ghost predicate HasYearlyDay(c: Cron) {
    exists month: nat, day: nat {:trigger InEveryYear(month, day)} ::
      month in c.months && day in c.doms && InEveryYear(month, day)
  }

  lemma RareDaysAreLeapDays(c: Cron, day: nat)
    requires AllowsDay(c, day) && !HasYearlyDay(c)
    ensures LeapDay(day)
  {
    var d := DateOf(day);
    assert InEveryYear(d.month, d.day) || (d.month == 2 && d.day == 29) by { hide DateOf; }
  }

  /** If at most 29 February is left of an expression, nothing is allowed in the 1460 days after one. */
  lemma RareScheduleStops(c: Cron, day: nat)
    requires !HasYearlyDay(c) && LeapDay(day)
    ensures !AllowsWithin(c, day + 1)
  {
    hide AllowsDay, LeapDay, HasYearlyDay;
    if AllowsWithin(c, day + 1) {
      var d: nat :| day + 1 <= d < day + 1 + WINDOW_DAYS && AllowsDay(c, d);
      RareDaysAreLeapDays(c, d);
      LeapDaysAreFarApart(day, d);
      assert false;
    }
  }

  lemma SomeLeapDay() returns (day: nat)
    ensures LeapDay(day) && day + 1 < CYCLE
  {
    var d := Date(1972, 2, 29);
    DateOfDayNumber(d);
    YearsAscend(1970, 1973);
    DayNumberBounds(d);
    day := DayNumber(d);
  }

  lemma YearlyDayWithin(c: Cron, day: nat, month: nat, dom: nat)
    requires (forall w: nat :: w < 7 ==> w in c.dows) && month in c.months && dom in c.doms && InEveryYear(month, dom)
    ensures AllowsWithin(c, day)
  {
    DayInYear(1970, month, dom);
    var d := DayNumber(Date(1970, month, dom));
    hide DayNumber, ValidDate, InEveryYear, DateOf;
    if day > 0 {
      d := NextOccurrence(MomentOf(day - 1, 23, 59), 1970, month, dom, 0, 0);
    }
    assert AllowsDay(c, d);
  }

  /** With every weekday allowed the test comes down to one allowed month having an allowed day of every year. */
  lemma YearlyDayIff(c: Cron)
    requires forall w: nat :: w < 7 ==> w in c.dows
    ensures EveryWindowAllows(c) <==> HasYearlyDay(c)
  {
    hide AllowsWithin, LeapDay;
    if HasYearlyDay(c) {
      var month: nat, dom: nat :| month in c.months && dom in c.doms && InEveryYear(month, dom);
      forall day: nat | day < CYCLE ensures AllowsWithin(c, day) { YearlyDayWithin(c, day, month, dom); }
    } else {
      var day := SomeLeapDay();
      RareScheduleStops(c, day);
    }
  }

  /** Hence, with every weekday allowed, the search succeeds from every starting time exactly then. */
  lemma AlwaysFiresAnyWeekday(c: Cron)
    requires CronOk(c) && forall w: nat :: w < 7 ==> w in c.dows
    ensures (forall after: nat :: NextTime(c, after).Some?) <==> HasYearlyDay(c)
  {
    hide NextTime, EveryWindowAllows, HasYearlyDay, CronOk;
    AlwaysFiresIff(c);
    YearlyDayIff(c);
  }

  // ---- schedules for one minute of the day ----

  /** A schedule for one minute of the day that has just fired gets a next time exactly when one of the next
      1460 days is allowed. */
  lemma OneMinuteScheduleFiresIff(c: Cron, day: nat, hour: nat, minute: nat, second: nat)
    requires c.hours == [hour] && c.minutes == [minute] && hour < 24 && minute < 60 && second < 60
    ensures NextTime(c, MomentOf(day, hour, minute) + second).Some? <==> AllowsWithin(c, day + 1)
  {
    hide AllowsDay;
    var fired := MomentOf(day, hour, minute) + second;
    MinuteOver(MomentOf(day, hour, minute), fired);
    if AllowsWithin(c, day + 1) {
      var d: nat :| day + 1 <= d < day + 1 + WINDOW_DAYS && AllowsDay(c, d);
      hide NextTime;
      MomentFound(c, fired, d, hour, minute);
    }
    if NextTime(c, fired).Some? {
      var r, d, h, m := FoundMoment(c, fired);
      assert AllowsDay(c, d) && day + 1 <= d < day + 1 + WINDOW_DAYS;
    }
  }

  /** For 29 February there is none: the next one is at least 1461 days away. */
  lemma LeapDayScheduleEnds(c: Cron, day: nat, hour: nat, minute: nat, second: nat)
    requires c.months == [2] && c.doms == [29] && c.hours == [hour] && c.minutes == [minute] && hour < 24 && minute < 60
    requires LeapDay(day) && second < 60
    ensures NextTime(c, MomentOf(day, hour, minute) + second) == None
  {
    assert !HasYearlyDay(c);
    hide AllowsWithin, LeapDay, HasYearlyDay, NextTime;
    RareScheduleStops(c, day);
    OneMinuteScheduleFiresIff(c, day, hour, minute, second);
  }

  /** Midnight on 1 January, if a Monday: though every year has the day, 2018 is such a year and none of the
      next 1460 days is one. */
  lemma NewYearMondaysEnd(c: Cron)
    requires c == Cron([0], [0], [1], [1], [1])
    ensures CronOk(c) && HasYearlyDay(c) && Allows(c, 17532, 0, 0) && NextTime(c, MomentOf(17532, 0, 0)) == None
  {
    assert InEveryYear(1, 1);
    NewYear2018(c);
    hide AllowsWithin, NextTime, AllowsDay;
    OneMinuteScheduleFiresIff(c, 17532, 0, 0, 0);
  }

  lemma NewYear2018(c: Cron)
    requires c.months == [1] && c.doms == [1] && c.dows == [1]
    ensures AllowsDay(c, 17532) && !AllowsWithin(c, 17533)
  {
    hide DaysBeforeYear, DateOf;
    NewYears();
    DateOfDayNumber(Date(2018, 1, 1));
    if AllowsWithin(c, 17533) {
      var d: nat :| 17533 <= d < 17533 + WINDOW_DAYS && AllowsDay(c, d);
      NewYearOf(d);
      assert false;
    }
  }

  lemma NewYears()
    ensures DaysBeforeYear(2018) == 17532 && DaysBeforeYear(2019) == 17897 && DaysBeforeYear(2020) == 18262
    ensures DaysBeforeYear(2021) == 18628 && DaysBeforeYear(2022) == 18993
  {
    hide DaysBeforeYear;
    DaysBeforeYearClosedForm(2018);
    DaysBeforeYearClosedForm(2019);
    DaysBeforeYearClosedForm(2020);
    DaysBeforeYearClosedForm(2021);
    DaysBeforeYearClosedForm(2022);
  }

  /** The first days of 2019, 2020 and 2021 are the only ones in the window, and no Mondays. */
  lemma NewYearOf(d: nat)
    requires 17533 <= d < 18993 && DateOf(d).month == 1 && DateOf(d).day == 1
    ensures Weekday(d) != 1
  {
    var year := DateOf(d).year;
    assert d == DaysBeforeYear(year);
    NewYears();
    if year <= 2018 { YearsAscend(year, 2018); }
    if year >= 2022 { YearsAscend(2022, year); }
  }

  lemma MinuteOver(m: nat, t: nat)
    requires m % 60 == 0 && m <= t < m + 60
    ensures NextMinute(t) == m + 60
  {
    assert t / 60 == m / 60;
  }
}
