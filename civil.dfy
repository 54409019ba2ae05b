/**
 * Proleptic Gregorian civil dates, as JavaScript's `Date` constructor and
 * getters compute them in utils/date.ts: month lengths, leap years, a day
 * count, weekdays (0 = Sunday) and stepping by whole months.
 */
module Civil {

  /** A calendar date. `month` runs 1..12, as in the ISO key; JavaScript's
      `getMonth()` runs 0..11, and every formula here is shifted by one. */
  datatype Date = Date(year: int, month: int, day: int)

  /** Divisible by 4, and not by 100 unless also by 400. */
  predicate IsLeapYear(y: int)
  {
    y % 4 == 0 && (y % 100 != 0 || y % 400 == 0)
  }

  /** The length of month `m`, which utils/date.ts:9 reads as the day of
      day 0 of the following month. */
  function DaysIn(y: int, m: int): (n: int)
    requires 1 <= m <= 12
    ensures 28 <= n <= 31
    ensures m == 2 ==> (n == 29 <==> IsLeapYear(y))
  {
    if m == 2 then (if IsLeapYear(y) then 29 else 28)
    else if m == 4 || m == 6 || m == 9 || m == 11 then 30
    else 31
  }

  /** Every `Date` object the source holds denotes one of these. */
  predicate ValidDate(d: Date)
  {
    1 <= d.month <= 12 && 1 <= d.day <= DaysIn(d.year, d.month)
  }

  /** Chronological order: by year, then month, then day. */
  predicate Precedes(a: Date, b: Date)
  {
    a.year < b.year
    || (a.year == b.year && (a.month < b.month || (a.month == b.month && a.day < b.day)))
  }

  function YearLength(y: int): int
  {
    if IsLeapYear(y) then 366 else 365
  }

  /** Days from 0000-01-01 to January 1 of year `y` (negative before year 0):
      365 per year plus one per leap year in between. */
  function DaysBeforeYear(y: int): int
  {
    365 * y + (y + 3) / 4 - (y + 99) / 100 + (y + 399) / 400
  }

  /** Days from January 1 to day 1 of month `m`. */
  function DaysBeforeMonth(y: int, m: int): int
    requires 1 <= m <= 12
  {
    [0, 31, 59, 90, 120, 151, 181, 212, 243, 273, 304, 334][m - 1]
      + (if m > 2 && IsLeapYear(y) then 1 else 0)
  }

  /** Days since 0000-01-01 (day 0). */
  function DayNumber(d: Date): int
    requires 1 <= d.month <= 12
  {
    DaysBeforeYear(d.year) + DaysBeforeMonth(d.year, d.month) + d.day - 1
  }

  /** Day of the week, 0 = Sunday as `Date.prototype.getDay`; 0000-01-01
      was a Saturday. */
  function Weekday(d: Date): (w: int)
    requires 1 <= d.month <= 12
    ensures 0 <= w < 7
  {
    (DayNumber(d) + 6) % 7
  }

  /** `(y + k - 1) / k` counts multiples of `k`; it steps by one exactly at one. */
  lemma MultipleStep4(y: int)
    ensures (y + 4) / 4 - (y + 3) / 4 == if y % 4 == 0 then 1 else 0
  {
  }

  lemma MultipleStep100(y: int)
    ensures (y + 100) / 100 - (y + 99) / 100 == if y % 100 == 0 then 1 else 0
  {
  }

  lemma MultipleStep400(y: int)
    ensures (y + 400) / 400 - (y + 399) / 400 == if y % 400 == 0 then 1 else 0
  {
  }

  lemma YearStep(y: int)
    ensures DaysBeforeYear(y + 1) == DaysBeforeYear(y) + YearLength(y)
  {
    MultipleStep4(y);
    MultipleStep100(y);
    MultipleStep400(y);
  }

  /** The date after `d`, rolling over month and year ends. */
  function NextDay(d: Date): (r: Date)
    requires ValidDate(d)
    ensures ValidDate(r) && Precedes(d, r)
    ensures DayNumber(r) == DayNumber(d) + 1
  {
    YearStep(d.year);
    if d.day < DaysIn(d.year, d.month) then Date(d.year, d.month, d.day + 1)
    else if d.month < 12 then Date(d.year, d.month + 1, 1)
    else Date(d.year + 1, 1, 1)
  }

  lemma ModSeven(x: int, k: int)
    ensures (x + k) % 7 == (x % 7 + k) % 7
  {
    var q := x / 7;
    assert x + k == 7 * q + (x % 7 + k);
  }

  /** Dates `k` days apart are `k` weekdays apart. */
  lemma WeekdayShift(a: Date, b: Date, k: int)
    requires 1 <= a.month <= 12 && 1 <= b.month <= 12
    requires DayNumber(b) == DayNumber(a) + k
    ensures Weekday(b) == (Weekday(a) + k) % 7
  {
    ModSeven(DayNumber(a) + 6, k);
  }

  lemma NextDayWeekday(d: Date)
    requires ValidDate(d)
    ensures Weekday(NextDay(d)) == (Weekday(d) + 1) % 7
  {
    WeekdayShift(d, NextDay(d), 1);
  }

  /** Counts months from January of year 0. */
  function MonthIndex(d: Date): int
  {
    12 * d.year + d.month - 1
  }

  function FirstOfMonth(d: Date): Date
  {
    Date(d.year, d.month, 1)
  }

  /** Day 1 of the month before (App.tsx:39); the `Date` constructor
      carries a month below January into the previous year. */
  function MonthBefore(d: Date): (r: Date)
    requires 1 <= d.month <= 12
    ensures ValidDate(r) && r.day == 1
    ensures MonthIndex(r) == MonthIndex(d) - 1
  {
    if d.month == 1 then Date(d.year - 1, 12, 1) else Date(d.year, d.month - 1, 1)
  }

  /** Day 1 of the month after (App.tsx:43); a month past December carries
      into the next year. */
  function MonthAfter(d: Date): (r: Date)
    requires 1 <= d.month <= 12
    ensures ValidDate(r) && r.day == 1
    ensures MonthIndex(r) == MonthIndex(d) + 1
  {
    if d.month == 12 then Date(d.year + 1, 1, 1) else Date(d.year, d.month + 1, 1)
  }

  /** Stepping back and then forward lands on day 1 of the month left. */
  lemma MonthStepsInverse(d: Date)
    requires ValidDate(d)
    ensures MonthAfter(MonthBefore(d)) == FirstOfMonth(d)
    ensures MonthBefore(MonthAfter(d)) == FirstOfMonth(d)
  {
  }

  /** `getDaysInMonth` (utils/date.ts:6-11): every date of `d`'s month, in order. */
  function DaysOfMonth(d: Date): (days: seq<Date>)
    requires ValidDate(d)
    ensures |days| == DaysIn(d.year, d.month)
    ensures forall i :: 0 <= i < |days| ==>
      ValidDate(days[i]) && days[i].year == d.year && days[i].month == d.month
    ensures forall x :: ValidDate(x) && x.year == d.year && x.month == d.month ==> x in days
    ensures days[0] == FirstOfMonth(d)
    ensures forall i :: 0 <= i < |days| - 1 ==> days[i + 1] == NextDay(days[i])
  {
    var days := seq(DaysIn(d.year, d.month), i => Date(d.year, d.month, i + 1));
    assert forall x :: ValidDate(x) && x.year == d.year && x.month == d.month ==> days[x.day - 1] == x;
    days
  }

  /** `getFirstDayOfMonth` (utils/date.ts:13-15): the weekday of day 1. */
  function FirstDayOfMonth(d: Date): (w: int)
    requires ValidDate(d)
    ensures 0 <= w < 7
  {
    Weekday(FirstOfMonth(d))
  }

  /** The answer does not depend on the day of the argument. */
  lemma FirstDayIgnoresDay(a: Date, b: Date)
    requires ValidDate(a) && ValidDate(b) && a.year == b.year && a.month == b.month
    ensures FirstDayOfMonth(a) == FirstDayOfMonth(b)
  {
  }

  /** Day 1 of the next month falls `DaysIn` days after day 1 of this one. */
  lemma MonthAfterDayNumber(d: Date)
    requires ValidDate(d)
    ensures DayNumber(MonthAfter(d)) == DayNumber(FirstOfMonth(d)) + DaysIn(d.year, d.month)
  {
    YearStep(d.year);
  }

  /** The next month starts `DaysIn` weekdays later. */
  lemma NextMonthFirstDay(d: Date)
    requires ValidDate(d)
    ensures FirstDayOfMonth(MonthAfter(d)) == (FirstDayOfMonth(d) + DaysIn(d.year, d.month)) % 7
  {
    MonthAfterDayNumber(d);
    WeekdayShift(FirstOfMonth(d), MonthAfter(d), DaysIn(d.year, d.month));
  }

  lemma {:induction false} DaysBeforeYearMonotone(y1: int, y2: int)
    requires y1 <= y2
    ensures DaysBeforeYear(y1) <= DaysBeforeYear(y2)
    decreases y2 - y1
  {
    if y1 < y2 {
      YearStep(y1);
      DaysBeforeYearMonotone(y1 + 1, y2);
    }
  }

  /** A valid date lies inside its year: day numbers stay below next year's start. */
  lemma WithinYear(d: Date)
    requires ValidDate(d)
    ensures DaysBeforeYear(d.year) <= DayNumber(d) < DaysBeforeYear(d.year + 1)
  {
    YearStep(d.year);
  }

  /** Chronological order is the order of day numbers. */
  lemma PrecedesIsEarlier(a: Date, b: Date)
    requires ValidDate(a) && ValidDate(b)
    ensures Precedes(a, b) <==> DayNumber(a) < DayNumber(b)
  {
    WithinYear(a);
    WithinYear(b);
    if a.year < b.year {
      DaysBeforeYearMonotone(a.year + 1, b.year);
    } else if b.year < a.year {
      DaysBeforeYearMonotone(b.year + 1, a.year);
    }
  }

  /** The Unix epoch, 1970-01-01, was a Thursday. */
  lemma EpochIsThursday()
    ensures Weekday(Date(1970, 1, 1)) == 4
  {
  }
}
