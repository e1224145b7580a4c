/**
 * The calendar arithmetic of src/datetime.ts: leap years, the day of the year, the week
 * of the year and of the month, comparison by years and months, and shifting a time by
 * seconds, minutes, hours or days.
 *
 * A date is given by its local calendar fields, as `getFullYear`, `getMonth` (0 for
 * January) and `getDate` read them; a time is a whole number of milliseconds. Weekdays
 * come from the proleptic Gregorian calendar that JavaScript dates follow, counted with
 * 0 for Sunday as `getDay` does.
 */
module Dates {
  import opened JsValues

  /** `isLeapYear` as the source writes it: `year % 400 === 0 || year % 4 === 0`. */
  predicate IsLeapYearAsWritten(year: int) {
    year % 400 == 0 || year % 4 == 0
  }

  /** The Gregorian rule: every fourth year, except the centuries not divisible by 400. */
  predicate IsLeapYear(year: int) {
    year % 4 == 0 && (year % 100 != 0 || year % 400 == 0)
  }

  /** The `% 400` test of the source adds nothing to `% 4`, so every century counts as a
      leap year: 1900 and 2100 do, though February of those years has 28 days. The two
      rules differ exactly on the centuries not divisible by 400. */
  lemma LeapYearAsWrittenMeaning(year: int)
    ensures IsLeapYearAsWritten(year) <==> year % 4 == 0
    ensures IsLeapYearAsWritten(year) != IsLeapYear(year) <==> year % 100 == 0 && year % 400 != 0
    ensures IsLeapYearAsWritten(1900) && !IsLeapYear(1900)
  {
    if year % 400 == 0 {
      var q := year / 400;
      assert year == 4 * (100 * q);
    }
    if year % 100 == 0 {
      var q := year / 100;
      assert year == 4 * (25 * q);
    }
  }

  /** The Gregorian rule over the years 2000 to 2100. */
  lemma LeapYearExamples()
    ensures IsLeapYear(2000) && IsLeapYear(2020) && !IsLeapYear(2022) && !IsLeapYear(2100)
  {
  }

  // ---------------------------------------------------------------------------
  // getDayOfYear (src/datetime.ts:383, 456-467)

  /** `DaysOfMonth`: the month lengths, with 0 for February. */
  const DaysOfMonth: seq<int> := [31, 0, 31, 30, 31, 30, 31, 31, 30, 31, 30, 31]

  /** `DaysOfMonth[i] || (leapYear ? 29 : 28)`. */
  function MonthLength(month: int, leapYear: bool): (n: int)
    requires 0 <= month < 12
    ensures 28 <= n <= 31
  {
    if DaysOfMonth[month] != 0 then DaysOfMonth[month] else if leapYear then 29 else 28
  }

  /** The calendar fields of a date. */
  datatype DateFields = DateFields(year: int, month: int, date: int)

  predicate ValidDate(d: DateFields) {
    0 <= d.month < 12 && 1 <= d.date <= MonthLength(d.month, IsLeapYear(d.year))
  }

  /** The fields a JavaScript date can have. */
  type CalendarDate = d: DateFields | ValidDate(d) witness DateFields(1970, 0, 1)

  /** The days of the months before `month`. */
  function DaysBefore(month: int, leapYear: bool): int
    requires 0 <= month <= 12
  {
    if month == 0 then 0 else DaysBefore(month - 1, leapYear) + MonthLength(month - 1, leapYear)
  }

  /** The loop of `getDayOfYear`: the day of the month plus the lengths of the months
      before it. */
  method CountDays(month: int, date: int, leapYear: bool) returns (dates: int)
    requires 0 <= month < 12
    ensures dates == date + DaysBefore(month, leapYear)
  {
    dates := date;
    for i := 0 to month
      invariant dates == date + DaysBefore(i, leapYear)
    {
      var ds := MonthLength(i, leapYear);
      dates := dates + ds;
    }
  }

  /** `getDayOfYear(date)` with the source's leap-year test: one day more than the
      Gregorian count from March on in a century year not divisible by 400, and never
      more than 366. */
  method DayOfYearAsWritten(d: CalendarDate) returns (dates: int)
    ensures dates == d.date + DaysBefore(d.month, IsLeapYearAsWritten(d.year))
    ensures dates == d.date + DaysBefore(d.month, IsLeapYear(d.year)) + AsWrittenSurplus(d)
    ensures 1 <= dates <= 366
  {
    dates := CountDays(d.month, d.date, IsLeapYearAsWritten(d.year));
    DayOfYearAsWrittenRange(d);
  }

  /** The extra day the as-written leap-year test adds: 1 from March on in a year it
      wrongly takes for a leap year. */
  function AsWrittenSurplus(d: CalendarDate): int {
    if IsLeapYearAsWritten(d.year) && !IsLeapYear(d.year) && d.month >= 2 then 1 else 0
  }

  /** The as-written day of the year is the Gregorian one plus the surplus, and lies in
      1..366. */
  lemma DayOfYearAsWrittenRange(d: CalendarDate)
    ensures d.date + DaysBefore(d.month, IsLeapYearAsWritten(d.year)) ==
      d.date + DaysBefore(d.month, IsLeapYear(d.year)) + AsWrittenSurplus(d)
    ensures 1 <= d.date + DaysBefore(d.month, IsLeapYearAsWritten(d.year)) <= 366
  {
    DaysBeforeTable(d.month, IsLeapYearAsWritten(d.year));
    DaysBeforeTable(d.month, IsLeapYear(d.year));
    CenturyDivides(d.year);
    DayOfYearRange(d);
    if AsWrittenSurplus(d) == 1 {
      DaysBeforeTable(d.month + 1, false);
      DaysBeforeTable(12, false);
      if d.month + 1 < 12 {
        DaysBeforeGrows(d.month + 1, 12, false);
      }
    }
  }

  /** `getDayOfYear(date)` with the Gregorian leap-year test. */
  method DayOfYear(d: CalendarDate) returns (dates: int)
    ensures dates == d.date + DaysBefore(d.month, IsLeapYear(d.year))
    ensures 1 <= dates <= YearLength(d.year)
  {
    dates := CountDays(d.month, d.date, IsLeapYear(d.year));
    DayOfYearRange(d);
  }

  function YearLength(year: int): int {
    if IsLeapYear(year) then 366 else 365
  }

  /** The well-known table of days before each month, with one more from March on in a
      leap year. */
  function CumulativeDays(month: int, leapYear: bool): int
    requires 0 <= month <= 12
  {
    [0, 31, 59, 90, 120, 151, 181, 212, 243, 273, 304, 334, 365][month] +
      (if leapYear && month >= 2 then 1 else 0)
  }

  /** The loop adds up to the table. */
  lemma {:induction false} DaysBeforeTable(month: int, leapYear: bool)
    requires 0 <= month <= 12
    ensures DaysBefore(month, leapYear) == CumulativeDays(month, leapYear)
  {
    if month > 0 {
      DaysBeforeTable(month - 1, leapYear);
    }
  }

  /** More months before means more days before. */
  lemma {:induction false} DaysBeforeGrows(m1: int, m2: int, leapYear: bool)
    requires 0 <= m1 < m2 <= 12
    ensures DaysBefore(m2, leapYear) >= DaysBefore(m1 + 1, leapYear)
    decreases m2
  {
    if m2 > m1 + 1 {
      DaysBeforeGrows(m1, m2 - 1, leapYear);
    }
  }

  /** The day of the year runs from 1 to the length of the year. */
  lemma DayOfYearRange(d: CalendarDate)
    ensures 1 <= d.date + DaysBefore(d.month, IsLeapYear(d.year)) <= YearLength(d.year)
  {
    var leap := IsLeapYear(d.year);
    DaysBeforeTable(d.month + 1, leap);
    DaysBeforeTable(12, leap);
    if d.month + 1 < 12 {
      DaysBeforeGrows(d.month + 1, 12, leap);
    }
  }

  /** Later in the year means a larger day of the year: two dates of one year have the
      same day of the year only when they are the same date. */
  lemma DayOfYearOrder(d1: CalendarDate, d2: CalendarDate)
    requires d1.year == d2.year
    requires d1.month < d2.month || (d1.month == d2.month && d1.date < d2.date)
    ensures d1.date + DaysBefore(d1.month, IsLeapYear(d1.year)) < d2.date + DaysBefore(d2.month, IsLeapYear(d2.year))
  {
    if d1.month < d2.month {
      DaysBeforeGrows(d1.month, d2.month, IsLeapYear(d1.year));
    }
  }

  /** The as-written test counts February 1900 as 29 days long, so 1 March 1900 comes out
      as day 61 of its year; it is day 60. */
  lemma DayOfYear1900()
    ensures 1 + DaysBefore(2, IsLeapYearAsWritten(1900)) == 61
    ensures 1 + DaysBefore(2, IsLeapYear(1900)) == 60
  {
    DaysBeforeTable(2, true);
    DaysBeforeTable(2, false);
  }

  // ---------------------------------------------------------------------------
  // weekdays (`getDay`)

  /** Days from 1 January of year 1 to 1 January of `year`. */
  function DaysBeforeYear(year: int): int {
    365 * (year - 1) + (year - 1) / 4 - (year - 1) / 100 + (year - 1) / 400
  }

  /** Days from 1 January of year 1 to the date. */
  function DayNumber(d: CalendarDate): int {
    DaysBeforeYear(d.year) + CumulativeDays(d.month, IsLeapYear(d.year)) + d.date - 1
  }

  /** `getDay()`: 0 for Sunday through 6 for Saturday; 1 January of year 1 was a Monday. */
  function Weekday(d: CalendarDate): (w: int)
    ensures 0 <= w < 7
  {
    (DayNumber(d) + 1) % 7
  }

  /** Dividing the next number by a constant divisor goes one further exactly at a
      multiple. */
  lemma DivStep(n: int)
    ensures (n + 1) / 4 == n / 4 + (if (n + 1) % 4 == 0 then 1 else 0)
    ensures (n + 1) / 100 == n / 100 + (if (n + 1) % 100 == 0 then 1 else 0)
    ensures (n + 1) / 400 == n / 400 + (if (n + 1) % 400 == 0 then 1 else 0)
  {
  }

  /** One more year adds 365 days and the leap days its number brings. */
  lemma DaysBeforeYearStep(year: int)
    ensures DaysBeforeYear(year + 1) - DaysBeforeYear(year) ==
      365 + (year / 4 - (year - 1) / 4) - (year / 100 - (year - 1) / 100) + (year / 400 - (year - 1) / 400)
  {
  }

  /** A multiple of 400 is a multiple of 100, and a multiple of 100 one of 4. */
  lemma CenturyDivides(year: int)
    ensures year % 400 == 0 ==> year % 100 == 0
    ensures year % 100 == 0 ==> year % 4 == 0
  {
    if year % 400 == 0 {
      var q := year / 400;
      assert year == 100 * (4 * q);
    }
    if year % 100 == 0 {
      var q := year / 100;
      assert year == 4 * (25 * q);
    }
  }

  /** A year is as long as the leap-year rule says: the day numbers of two New Year's
      days differ by 365 or 366. */
  lemma YearLengthMeaning(year: int)
    ensures DaysBeforeYear(year + 1) - DaysBeforeYear(year) == YearLength(year)
  {
    DaysBeforeYearStep(year);
    DivStep(year - 1);
    CenturyDivides(year);
  }

  /** The weekday after day number `n` is the next one round the week. */
  lemma WeekdayStep(n: int)
    ensures (n + 2) % 7 == ((n + 1) % 7 + 1) % 7
  {
  }

  /** The day after a date in the same month has the next day number and weekday. */
  lemma NextDayInMonth(d: CalendarDate, e: CalendarDate)
    requires e.year == d.year && e.month == d.month && e.date == d.date + 1
    ensures DayNumber(e) == DayNumber(d) + 1
    ensures Weekday(e) == (Weekday(d) + 1) % 7
  {
    WeekdayStep(DayNumber(d));
  }

  /** The first of the next month follows the last day of a month. */
  lemma NextDayNewMonth(d: CalendarDate, e: CalendarDate)
    requires e.year == d.year && e.month == d.month + 1 && e.date == 1
    requires d.date == MonthLength(d.month, IsLeapYear(d.year))
    ensures DayNumber(e) == DayNumber(d) + 1
    ensures Weekday(e) == (Weekday(d) + 1) % 7
  {
    var leap := IsLeapYear(d.year);
    DaysBeforeTable(d.month, leap);
    DaysBeforeTable(e.month, leap);
    assert CumulativeDays(e.month, leap) == CumulativeDays(d.month, leap) + d.date;
    WeekdayStep(DayNumber(d));
  }

  /** New Year's day follows 31 December. */
  lemma NextDayNewYear(d: CalendarDate, e: CalendarDate)
    requires e.year == d.year + 1 && e.month == 0 && e.date == 1 && d.month == 11 && d.date == 31
    ensures DayNumber(e) == DayNumber(d) + 1
    ensures Weekday(e) == (Weekday(d) + 1) % 7
  {
    YearLengthMeaning(d.year);
    assert CumulativeDays(11, IsLeapYear(d.year)) + 31 == YearLength(d.year);
    WeekdayStep(DayNumber(d));
  }

  // ---------------------------------------------------------------------------
  // getWeekOfYear / getWeekOfMonth (src/datetime.ts:474-486, 493-505)

  /** `Math.ceil(n / 7)`. */
  function CeilDiv7(n: int): int {
    (n + 6) / 7
  }

  lemma CeilDiv7Meaning(n: int)
    ensures 7 * (CeilDiv7(n) - 1) < n <= 7 * CeilDiv7(n)
  {
  }

  /** One week more when the first day is a Saturday or a Sunday (`d === 0 || d > 5`). */
  function ExtraWeek(weekday: int): int {
    if weekday == 0 || weekday > 5 then 1 else 0
  }

  /** `getWeekOfYear(date)`: it counts the day of the year with the leap-year test as
      written, so its week is the Gregorian one or, in a century year not divisible by
      400, possibly one more. */
  method WeekOfYear(d: CalendarDate) returns (w: int)
    ensures var first := DateFields(d.year, 0, 1);
      ValidDate(first) && w == CeilDiv7(d.date + DaysBefore(d.month, IsLeapYearAsWritten(d.year))) + ExtraWeek(Weekday(first))
    ensures 1 <= w <= 54
  {
    var firstDayOfYear: CalendarDate := DateFields(d.year, 0, 1);
    var extraWeek := ExtraWeek(Weekday(firstDayOfYear));
    var dayOfYear := DayOfYearAsWritten(d);
    w := CeilDiv7(dayOfYear) + extraWeek;
  }

  /** `getWeekOfMonth(date)`. */
  function WeekOfMonth(d: CalendarDate): int {
    var firstDayOfMonth: CalendarDate := DateFields(d.year, d.month, 1);
    CeilDiv7(d.date) + ExtraWeek(Weekday(firstDayOfMonth))
  }

  /** Weeks of the year run from 1 to 54 and weeks of the month from 1 to 6; from one day
      to the next in the same year or month the week stays or goes up by one. */
  lemma WeekBounds(doy: int, extra: int, date: int)
    requires 1 <= doy <= 366 && 0 <= extra <= 1 && 1 <= date <= 31
    ensures 1 <= CeilDiv7(doy) + extra <= 54
    ensures 1 <= CeilDiv7(date) + extra <= 6
    ensures CeilDiv7(doy + 1) - CeilDiv7(doy) in {0, 1}
  {
  }

  /** The week of the year of a date, from its day of the year as `getDayOfYear` counts
      it and the weekday of 1 January: it lies in 1..54, the day lies in that week, and
      it is the Gregorian week or one more. */
  lemma WeekOfYearMeaning(d: CalendarDate)
    ensures var doy, extra := d.date + DaysBefore(d.month, IsLeapYearAsWritten(d.year)), ExtraWeek(Weekday(DateFields(d.year, 0, 1)));
      1 <= CeilDiv7(doy) + extra <= 54 &&
      7 * (CeilDiv7(doy) - 1) < doy <= 7 * CeilDiv7(doy)
    ensures var doy := d.date + DaysBefore(d.month, IsLeapYear(d.year));
      CeilDiv7(doy + AsWrittenSurplus(d)) - CeilDiv7(doy) in {0, 1}
    ensures 1 <= WeekOfMonth(d) <= 6
  {
    DayOfYearAsWrittenRange(d);
    DayOfYearRange(d);
  }

  /** 4 March 1900: the source counts day 64 and week 10, because it takes 1900 for a
      leap year; the Gregorian count is day 63 and week 9. 1 January 1900 was a Monday. */
  lemma WeekOfYear1900()
    ensures ValidDate(DateFields(1900, 2, 4)) && ValidDate(DateFields(1900, 0, 1))
    ensures 4 + DaysBefore(2, IsLeapYearAsWritten(1900)) == 64
    ensures 4 + DaysBefore(2, IsLeapYear(1900)) == 63
    ensures Weekday(DateFields(1900, 0, 1)) == 1
    ensures CeilDiv7(64) + ExtraWeek(Weekday(DateFields(1900, 0, 1))) == 10
    ensures CeilDiv7(63) + ExtraWeek(Weekday(DateFields(1900, 0, 1))) == 9
  {
    DaysBeforeTable(2, true);
    DaysBeforeTable(2, false);
    assert DaysBeforeYear(1900) == 693595;
  }

  /** 30 October 2022 is day 303 of its year and in week 45: 1 January 2022 was a
      Saturday. */
  lemma WeekExample()
    ensures ValidDate(DateFields(2022, 9, 30)) && ValidDate(DateFields(2022, 0, 1))
    ensures 30 + DaysBefore(9, IsLeapYearAsWritten(2022)) == 303
    ensures Weekday(DateFields(2022, 0, 1)) == 6
    ensures CeilDiv7(303) + ExtraWeek(Weekday(DateFields(2022, 0, 1))) == 45
  {
    DaysBeforeTable(9, false);
    assert DaysBeforeYear(2022) == 738155;
  }

  // ---------------------------------------------------------------------------
  // compareDate, 'y' and 'M' (src/datetime.ts:95-101)

  /** `compareDate(d1, d2, 'y')`. */
  function CompareYears(d1: CalendarDate, d2: CalendarDate): int {
    d1.year - d2.year
  }

  /** `compareDate(d1, d2, 'M')`. */
  function CompareMonths(d1: CalendarDate, d2: CalendarDate): int {
    (d1.year - d2.year) * 12 + (d1.month - d2.month)
  }

  /** Months counted from a fixed origin. */
  function MonthIndex(d: CalendarDate): int {
    12 * d.year + d.month
  }

  /** Both comparisons are differences: they change sign when the dates swap and add up
      along a chain of dates; the month comparison is positive exactly when the first
      date is in a later month, and zero only for the same month of the same year. */
  lemma CompareMeaning(a: CalendarDate, b: CalendarDate, c: CalendarDate)
    ensures CompareYears(a, b) == -CompareYears(b, a) && CompareMonths(a, b) == -CompareMonths(b, a)
    ensures CompareYears(a, b) + CompareYears(b, c) == CompareYears(a, c)
    ensures CompareMonths(a, b) + CompareMonths(b, c) == CompareMonths(a, c)
    ensures CompareMonths(a, b) == MonthIndex(a) - MonthIndex(b)
    ensures CompareMonths(a, b) > 0 <==> a.year > b.year || (a.year == b.year && a.month > b.month)
    ensures CompareMonths(a, b) == 0 <==> a.year == b.year && a.month == b.month
  {
    if a.year > b.year {
      assert (a.year - b.year) * 12 >= 12;
    } else if a.year < b.year {
      assert (a.year - b.year) * 12 <= -12;
    }
  }

  // ---------------------------------------------------------------------------
  // addTime, 's'/'m'/'h'/'d' (src/datetime.ts:16-21, 146-165)

  /** `TIME_MAP`: milliseconds per unit. */
  function TimeMap(unit: string): Option<int> {
    if unit == "s" then Some(1000)
    else if unit == "m" then Some(1000 * 60)
    else if unit == "h" then Some(1000 * 60 * 60)
    else if unit == "d" then Some(1000 * 60 * 60 * 24)
    else None
  }

  /** Each unit is a whole number of the next smaller one. */
  lemma TimeMapMeaning()
    ensures TimeMap("s") == Some(1000)
    ensures TimeMap("m") == Some(60 * TimeMap("s").value)
    ensures TimeMap("h") == Some(60 * TimeMap("m").value)
    ensures TimeMap("d") == Some(24 * TimeMap("h").value)
    ensures TimeMap("d") == Some(86400000)
  {
  }

  /** A date object: its time in milliseconds, or None for an invalid date. */
  class DateObj {
    var time: Option<int>

    constructor (time: Option<int>)
      ensures this.time == time
    {
      this.time := time;
    }

    /** `setTime`. */
    method SetTime(t: Option<int>)
      modifies this
      ensures time == t
    {
      time := t;
    }
  }

  /** The time `addTime` arrives at: `amount * TIME_MAP[type]` later, and an invalid
      date (NaN) for a unit the map does not have. */
  function Shifted(time: int, amount: int, unit: string): Option<int> {
    var u := if unit == "" then "s" else unit;
    match TimeMap(u)
    case None => None
    case Some(ms) => Some(time + amount * ms)
  }

  /** `addTime(date, amount, type)` for the units other than years and months: a new
      date object, `amount` units from `date`. */
  method AddTime(time: int, amount: int, unit: string) returns (d: DateObj)
    requires unit != "y" && unit != "M"
    ensures fresh(d) && d.time == Shifted(time, amount, unit)
  {
    var u := if unit == "" then "s" else unit;
    d := new DateObj(Some(time));
    match TimeMap(u)
    case None =>
      d.SetTime(None);
    case Some(ms) =>
      var times := amount * ms;
      d.SetTime(Some(time + times));
  }

  /** Shifts add up and undo each other, a day is 24 hours, an hour 60 minutes and a
      minute 60 seconds, and the default unit is the second. */
  lemma ShiftedMeaning(t: int, a: int, b: int, unit: string)
    requires TimeMap(unit).Some?
    ensures Shifted(Shifted(t, a, unit).value, b, unit) == Shifted(t, a + b, unit)
    ensures Shifted(Shifted(t, a, unit).value, -a, unit) == Some(t)
    ensures Shifted(t, a, "d") == Shifted(t, 24 * a, "h")
    ensures Shifted(t, a, "h") == Shifted(t, 60 * a, "m")
    ensures Shifted(t, a, "m") == Shifted(t, 60 * a, "s")
    ensures Shifted(t, a, "") == Shifted(t, a, "s")
    ensures Shifted(t, a, "w") == None
  {
    var ms := TimeMap(unit).value;
    assert t + a * ms + b * ms == t + (a + b) * ms;
    assert t + a * ms + (-a) * ms == t;
  }

  /** The documented case: 1 May 2020 minus 20 days is 11 April 2020, 20 * 86400000
      milliseconds earlier. */
  lemma AddTimeExample(t: int)
    ensures Shifted(t, -20, "d") == Some(t - 1728000000)
    ensures Shifted(t, 20, "") == Some(t + 20000)
  {
  }
}
