/** The proleptic Gregorian calendar from 1970 on: the code's decomposition loops against a
    closed-form day count (crates/apollo-core/src/scheduler.rs, days_to_ymd and unix_to_parts). */
module Calendar {

  datatype Date = Date(year: nat, month: nat, day: nat)

  predicate IsLeap(year: nat) {
    (year % 4 == 0 && year % 100 != 0) || year % 400 == 0
  }

  function YearLength(year: nat): nat {
    if IsLeap(year) then 366 else 365
  }

  function MonthLength(year: nat, month: nat): nat {
    if month == 2 then (if IsLeap(year) then 29 else 28)
    else if month == 4 || month == 6 || month == 9 || month == 11 then 30 else 31
  }

  predicate ValidDate(d: Date) {
    d.year >= 1970 && 1 <= d.month <= 12 && 1 <= d.day <= MonthLength(d.year, d.month)
  }

  // ---- counting days ----

  function DaysBeforeYear(year: nat): int
    requires year >= 1970
  {
    if year == 1970 then 0 else DaysBeforeYear(year - 1) + YearLength(year - 1)
  }

  /** Leap years among 1..year. */
  function LeapsThrough(year: nat): int {
    year / 4 - year / 100 + year / 400
  }

  lemma LeapStep(y: nat)
    requires y > 0
    ensures LeapsThrough(y) - LeapsThrough(y - 1) == if IsLeap(y) then 1 else 0
  {
    Quarters(y);
    Centuries(y);
    FourCenturies(y);
    if y % 100 == 0 { CenturyIsQuarter(y, y / 100); }
    if y % 400 == 0 { FourCenturiesIsCentury(y, y / 400); }
  }

  lemma CenturyIsQuarter(y: nat, q: nat)
    requires y == 100 * q
    ensures y % 4 == 0
  {
    var e := 25 * q - y / 4;
    assert y % 4 == 4 * e;
  }

  lemma FourCenturiesIsCentury(y: nat, q: nat)
    requires y == 400 * q
    ensures y % 100 == 0
  {
    var e := 4 * q - y / 100;
    assert y % 100 == 100 * e;
  }

  lemma Quarters(y: nat)
    requires y > 0
    ensures y / 4 - (y - 1) / 4 == if y % 4 == 0 then 1 else 0
  {
  }

  lemma Centuries(y: nat)
    requires y > 0
    ensures y / 100 - (y - 1) / 100 == if y % 100 == 0 then 1 else 0
  {
  }

  lemma FourCenturies(y: nat)
    requires y > 0
    ensures y / 400 - (y - 1) / 400 == if y % 400 == 0 then 1 else 0
  {
  }

  /** The year count in closed form. */
  lemma {:induction false} DaysBeforeYearClosedForm(year: nat)
    requires year >= 1970
    ensures DaysBeforeYear(year) == 365 * (year - 1970) + LeapsThrough(year - 1) - LeapsThrough(1969)
  {
    if year > 1970 {
      DaysBeforeYearClosedForm(year - 1);
      LeapStep(year - 1);
      hide IsLeap, LeapsThrough;
    }
  }

  function DaysBeforeMonth(year: nat, month: nat): nat {
    if month <= 1 then 0 else DaysBeforeMonth(year, month - 1) + MonthLength(year, month - 1)
  }

  /** Where each month starts, by one formula: from March on a month starts a day or two before the even spacing. */
  lemma {:induction false} DaysBeforeMonthClosedForm(year: nat, month: nat)
    requires 1 <= month <= 13
    ensures DaysBeforeMonth(year, month)
         == (367 * month - 362) / 12 - (if month <= 2 then 0 else if IsLeap(year) then 1 else 2)
  {
    if month > 1 { DaysBeforeMonthClosedForm(year, month - 1); }
  }

  /** Days from 1970-01-01 to d. */
  function DayNumber(d: Date): int
    requires ValidDate(d)
  {
    DaysBeforeYear(d.year) + DaysBeforeMonth(d.year, d.month) + d.day - 1
  }

  /** The day count of a date in closed form. */
  lemma DayNumberClosedForm(d: Date)
    requires ValidDate(d)
    ensures DayNumber(d) == 365 * (d.year - 1970) + (d.year - 1) / 4 - (d.year - 1) / 100 + (d.year - 1) / 400 - 477
      + (367 * d.month - 362) / 12 - (if d.month <= 2 then 0 else if IsLeap(d.year) then 1 else 2) + d.day - 1
  {
    DaysBeforeYearClosedForm(d.year);
    DaysBeforeMonthClosedForm(d.year, d.month);
  }

  ghost predicate Earlier(a: Date, b: Date) {
    a.year < b.year || (a.year == b.year && (a.month < b.month || (a.month == b.month && a.day < b.day)))
  }

  lemma TwelveMonths(year: nat)
    ensures DaysBeforeMonth(year, 13) == YearLength(year)
    ensures DaysBeforeMonth(year, 3) == if IsLeap(year) then 60 else 59
  {
    var leap := if IsLeap(year) then 1 else 0;
    assert DaysBeforeMonth(year, 2) == 31;
    assert DaysBeforeMonth(year, 3) == 59 + leap;
    assert DaysBeforeMonth(year, 5) == 120 + leap;
    assert DaysBeforeMonth(year, 7) == 181 + leap;
    assert DaysBeforeMonth(year, 9) == 243 + leap;
    assert DaysBeforeMonth(year, 11) == 304 + leap;
    assert DaysBeforeMonth(year, 13) == 365 + leap;
  }

  lemma {:induction false} MonthsAscend(year: nat, a: nat, b: nat)
    requires 1 <= a <= b
    ensures DaysBeforeMonth(year, a) + 28 * (b - a) <= DaysBeforeMonth(year, b)
    decreases b - a
  {
    if a < b { MonthsAscend(year, a, b - 1); }
  }

  lemma {:induction false} YearsAscend(a: nat, b: nat)
    requires 1970 <= a <= b
    ensures DaysBeforeYear(a) + 365 * (b - a) <= DaysBeforeYear(b) <= DaysBeforeYear(a) + 366 * (b - a)
    decreases b - a
  {
    if a < b {
      YearsAscend(a, b - 1);
    }
  }

  lemma DayNumberBounds(d: Date)
    requires ValidDate(d)
    ensures DaysBeforeYear(d.year) <= DayNumber(d) < DaysBeforeYear(d.year + 1)
    ensures 0 <= DayNumber(d)
  {
    TwelveMonths(d.year);
    MonthsAscend(d.year, d.month + 1, 13);
    YearsAscend(1970, d.year);
  }

  /** The day count is strictly monotone in the order of dates, hence injective. */
  lemma DayNumberAscends(a: Date, b: Date)
    requires ValidDate(a) && ValidDate(b) && Earlier(a, b)
    ensures DayNumber(a) < DayNumber(b)
  {
    if a.year < b.year {
      DayNumberBounds(a);
      DayNumberBounds(b);
      YearsAscend(a.year + 1, b.year);
    } else if a.month < b.month {
      MonthsAscend(a.year, a.month + 1, b.month);
    }
  }

  lemma DayNumberInjective(a: Date, b: Date)
    requires ValidDate(a) && ValidDate(b) && DayNumber(a) == DayNumber(b)
    ensures a == b
  {
    if a != b {
      if Earlier(a, b) { DayNumberAscends(a, b); } else { DayNumberAscends(b, a); }
    }
  }

  // ---- the inverse: which date has a given day number ----

  ghost function YearFrom(days: nat, year: nat): (y: nat)
    requires year >= 1970 && DaysBeforeYear(year) <= days
    ensures y >= 1970 && DaysBeforeYear(y) <= days < DaysBeforeYear(y + 1)
    decreases days - DaysBeforeYear(year)
  {
    if days < DaysBeforeYear(year + 1) then year else YearFrom(days, year + 1)
  }

  ghost function MonthFrom(days: nat, year: nat, month: nat): (m: nat)
    requires 1 <= month <= 12 && DaysBeforeMonth(year, month) <= days < YearLength(year)
    ensures 1 <= m <= 12 && DaysBeforeMonth(year, m) <= days < DaysBeforeMonth(year, m + 1)
    decreases 13 - month
  {
    TwelveMonths(year);
    if days < DaysBeforeMonth(year, month + 1) then month else MonthFrom(days, year, month + 1)
  }

  lemma DateExists(days: nat) returns (d: Date)
    ensures ValidDate(d) && DayNumber(d) == days
  {
    var y := YearFrom(days, 1970);
    var rest := days - DaysBeforeYear(y);
    var m := MonthFrom(rest, y, 1);
    d := Date(y, m, rest - DaysBeforeMonth(y, m) + 1);
  }

  /** The date of a day number; the only one, by DayNumberInjective. */
  ghost function DateOf(days: nat): (d: Date)
    ensures ValidDate(d) && DayNumber(d) == days
  {
    assert exists d :: ValidDate(d) && DayNumber(d) == days by { var d := DateExists(days); }
    var d :| ValidDate(d) && DayNumber(d) == days;
    d
  }

  lemma DateOfDayNumber(d: Date)
    requires ValidDate(d)
    ensures DayNumber(d) >= 0 && DateOf(DayNumber(d)) == d
  {
    DayNumberBounds(d);
    DayNumberInjective(d, DateOf(DayNumber(d)));
  }

  /** The order of day numbers is the order of dates. */
  lemma DateOfAscends(a: nat, b: nat)
    requires a < b
    ensures Earlier(DateOf(a), DateOf(b))
  {
    if !Earlier(DateOf(a), DateOf(b)) && DateOf(a) != DateOf(b) {
      DayNumberAscends(DateOf(b), DateOf(a));
    }
  }

  function DayAfter(d: Date): Date
    requires ValidDate(d)
  {
    if d.day < MonthLength(d.year, d.month) then Date(d.year, d.month, d.day + 1)
    else if d.month < 12 then Date(d.year, d.month + 1, 1)
    else Date(d.year + 1, 1, 1)
  }

  /** Consecutive day numbers are successive dates. */
  lemma DateOfNext(days: nat)
    ensures DateOf(days + 1) == DayAfter(DateOf(days))
  {
    hide DateOf;
    var d := DateOf(days);
    TwelveMonths(d.year);
    assert DayNumber(DayAfter(d)) == days + 1;
    DateOfDayNumber(DayAfter(d));
  }

  /** The decomposition: subtract whole years, then whole months. */
  method DaysToYmd(days: nat) returns (date: Date)
    ensures date == DateOf(days)
  {
    var left, year := days, 1970;
    while true
      invariant year >= 1970 && days == DaysBeforeYear(year) + left
      decreases left
    {
      var dy := if IsLeap(year) then 366 else 365;
      if left < dy { break; }
      left := left - dy;
      year := year + 1;
    }
    var months := [31, if IsLeap(year) then 29 else 28, 31, 30, 31, 30, 31, 31, 30, 31, 30, 31];
    var month := 1;
    TwelveMonths(year);
    while month <= 12
      invariant 1 <= month <= 12
      invariant days == DaysBeforeYear(year) + DaysBeforeMonth(year, month) + left
      invariant DaysBeforeMonth(year, month) + left < YearLength(year)
      decreases 13 - month
    {
      assert months[month - 1] == MonthLength(year, month);
      if left < months[month - 1] { break; }
      left := left - months[month - 1];
      month := month + 1;
    }
    date := Date(year, month, left + 1);
    DateOfDayNumber(date);
  }

  // ---- times of day ----

  datatype TimeParts = TimeParts(minute: nat, hour: nat, dom: nat, month: nat, dow: nat)

  function Weekday(days: nat): nat {
    (days + 4) % 7
  }

  ghost function PartsOf(ts: nat): TimeParts {
    var d := DateOf(ts / 86400);
    TimeParts(ts / 60 % 60, ts / 3600 % 24, d.day, d.month, Weekday(ts / 86400))
  }

  method UnixToParts(ts: nat) returns (t: TimeParts)
    ensures t == PartsOf(ts)
  {
    hide DateOf, DayNumber, ValidDate;
    var minute := ts / 60 % 60;
    var hour := ts / 3600 % 24;
    var days := ts / 86400;
    var dow := (days + 4) % 7;
    var date := DaysToYmd(days);
    t := TimeParts(minute, hour, date.day, date.month, dow);
  }

  /** Time 0 is midnight on Thursday 1970-01-01. */
  lemma PartsOfEpoch()
    ensures PartsOf(0) == TimeParts(0, 0, 1, 1, 4)
  {
    EpochIsThursday();
    hide DateOf, DayNumber, ValidDate;
    assert 0 / 86400 == 0;
  }

  lemma EpochIsThursday()
    ensures Weekday(0) == 4 && DateOf(0) == Date(1970, 1, 1)
  {
    hide DateOf;
    assert DayNumber(Date(1970, 1, 1)) == 0;
    DateOfDayNumber(Date(1970, 1, 1));
  }

  lemma WeekdaysAdvance(days: nat)
    ensures Weekday(days + 1) == (Weekday(days) + 1) % 7
  {
  }

  /** The first second of a minute of a day. */
  ghost function MomentOf(day: nat, hour: nat, minute: nat): nat {
    day * 86400 + hour * 3600 + minute * 60
  }

  lemma TimeSplits(ts: nat)
    ensures ts == ts / 86400 * 86400 + ts / 3600 % 24 * 3600 + ts / 60 % 60 * 60 + ts % 60
  {
    assert ts / 60 / 60 == ts / 3600;
    assert ts / 3600 / 24 == ts / 86400;
  }

  lemma TimeOfDay(day: nat, hour: nat, minute: nat, second: nat)
    requires hour < 24 && minute < 60 && second < 60
    ensures var ts := MomentOf(day, hour, minute) + second; ts / 3600 % 24 == hour && ts / 60 % 60 == minute
  {
    var ts := MomentOf(day, hour, minute) + second;
    assert ts / 3600 == day * 24 + hour;
    assert ts / 60 == (day * 24 + hour) * 60 + minute;
  }

  /** A minute lasts 60 seconds, an hour 60 minutes and a day 24 hours. */
  lemma MinuteTicks(ts: nat)
    ensures var t := PartsOf(ts); PartsOf(ts + 60).minute == if t.minute == 59 then 0 else t.minute + 1
  {
    HourAndMinute(ts);
    HourAndMinute(ts + 60);
    hide PartsOf;
    MinuteStep(ts);
  }

  lemma HourTicks(ts: nat)
    ensures var t, u := PartsOf(ts), PartsOf(ts + 3600);
            u.minute == t.minute && u.hour == if t.hour == 23 then 0 else t.hour + 1
  {
    HourAndMinute(ts);
    HourAndMinute(ts + 3600);
    hide PartsOf;
    HourStep(ts);
  }

  lemma HourAndMinute(ts: nat)
    ensures PartsOf(ts).minute == ts / 60 % 60 && PartsOf(ts).hour == ts / 3600 % 24
  {
    hide DateOf, Weekday;
  }

  lemma MinuteStep(ts: nat)
    ensures (ts + 60) / 60 % 60 == if ts / 60 % 60 == 59 then 0 else ts / 60 % 60 + 1
  {
    var q := ts / 60;
    assert (ts + 60) / 60 == q + 1;
    NextOfSixty(q);
  }

  lemma HourStep(ts: nat)
    ensures (ts + 3600) / 3600 % 24 == if ts / 3600 % 24 == 23 then 0 else ts / 3600 % 24 + 1
    ensures (ts + 3600) / 60 % 60 == ts / 60 % 60
  {
    var q, h := ts / 60, ts / 3600;
    assert (ts + 3600) / 60 == q + 60 && (ts + 3600) / 3600 == h + 1;
    NextOfTwentyFour(h);
    SixtyLater(q);
  }

  lemma NextOfSixty(n: nat)
    ensures (n + 1) % 60 == if n % 60 == 59 then 0 else n % 60 + 1
  {
  }

  lemma NextOfTwentyFour(n: nat)
    ensures (n + 1) % 24 == if n % 24 == 23 then 0 else n % 24 + 1
  {
  }

  lemma SixtyLater(n: nat)
    ensures (n + 60) % 60 == n % 60
  {
  }

  /** A time stamp lies in exactly one minute of one day, and its parts say which. */
  lemma PartsOfMoment(ts: nat, day: nat, hour: nat, minute: nat)
    requires hour < 24 && minute < 60
    ensures MomentOf(day, hour, minute) <= ts < MomentOf(day, hour, minute) + 60
       <==> ts / 86400 == day && PartsOf(ts).hour == hour && PartsOf(ts).minute == minute
  {
    hide DateOf;
    TimeSplits(ts);
    if MomentOf(day, hour, minute) <= ts < MomentOf(day, hour, minute) + 60 {
      assert ts / 86400 == day;
      TimeOfDay(day, hour, minute, ts - MomentOf(day, hour, minute));
    }
  }
}
