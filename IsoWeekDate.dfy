/**
  The week date of ISO 8601:2004 (section 4.1.4): weeks start on Monday,
  and a week belongs to the year that holds its Thursday, so week 1 is the
  week with the year's first Thursday. These definitions are the reference
  the date helpers are proved against.
 */
module IsoWeekDate {
  import opened Wrappers
  import opened Calendar

  /** The position of the day in an ISO week: Monday 0, ..., Sunday 6. */
  function WeekdayIndex(d: DateTime): (r: int)
    ensures 0 <= r < 7
  {
    (DayOfWeek(d) + 6) % 7
  }

  /** Day 0 was a Monday, so the weekday index is the day number modulo 7. */
  lemma WeekdayIndexIsDayNumber(d: DateTime)
    ensures WeekdayIndex(d) == DayNumber(d) % 7
  {
    ShiftBack(DayNumber(d));
  }

  lemma ShiftBack(n: int)
    ensures ((n + 1) % 7 + 6) % 7 == n % 7
  {
  }

  /** The Thursday of the day's week. It always exists: 0001-01-01 is a
      Monday and 9999-12-31 a Friday. */
  function Thursday(d: DateTime): (t: DateTime)
    ensures DayNumber(t) == DayNumber(d) - WeekdayIndex(d) + 3
    ensures t.timeOfDay == d.timeOfDay
  {
    var n := DayNumber(d);
    DayNumberBounds(d);
    WeekdayIndexIsDayNumber(d);
    ThursdayInCalendar(n);
    AddDaysDayNumber(d, 3 - WeekdayIndex(d));
    AddDays(d, 3 - WeekdayIndex(d)).value
  }

  /** The Thursday of the first week starts three days after day 0, and the
      Thursday of the last week is before the last day, a Friday. */
  lemma ThursdayInCalendar(n: int)
    requires 0 <= n <= MaxDayNumber
    ensures 0 <= n - n % 7 + 3 <= MaxDayNumber
  {
  }

  /** The ISO week number: which week of its year the Thursday falls in. */
  function Week(d: DateTime): int {
    (DayOfYear(Thursday(d)) - 1) / 7 + 1
  }

  /** The ISO week-numbering year: the year of the Thursday. */
  function WeekYear(d: DateTime): int {
    Thursday(d).year
  }

  /** Weeks are numbered 1 to 53. */
  lemma WeekBounds(d: DateTime)
    ensures 1 <= Week(d) <= 53
  {
    DayNumberBounds(Thursday(d));
  }

  /** Monday to Wednesday share their week, and so their Thursday, with
      the day three days later. */
  lemma ThursdayOfLaterDay(d: DateTime, later: DateTime)
    requires WeekdayIndex(d) <= 2
    requires DayNumber(later) == DayNumber(d) + 3 && later.timeOfDay == d.timeOfDay
    ensures Thursday(later) == Thursday(d)
    ensures Week(later) == Week(d) && WeekYear(later) == WeekYear(d)
  {
    WeekdayIndexIsDayNumber(d);
    WeekdayIndexIsDayNumber(later);
    LaterInWeek(DayNumber(d));
    DayNumberInjective(Thursday(later), Thursday(d));
  }

  lemma LaterInWeek(n: int)
    requires n % 7 <= 2
    ensures (n + 3) % 7 == n % 7 + 3
  {
  }

  /** Where the Thursday lies relative to the day: within three days, so
      in the same year, or in the previous year only for a day in the first
      days of January whose Thursday is in the last days of December, or in
      the next year only for a day in the last days of December whose
      Thursday is in the first days of January. */
  lemma ThursdayNearby(d: DateTime)
    ensures var t := Thursday(d);
      (t.year == d.year - 1 && d.month == 1 && DayOfYear(t) >= 363) ||
      (t.year == d.year) ||
      (t.year == d.year + 1 && d.month == 12 && DayOfYear(t) <= 3)
    ensures var t := Thursday(d);
      t.year == d.year && d.month == 1 ==> DayOfYear(t) <= 34
    ensures var t := Thursday(d);
      t.year == d.year && d.month == 12 ==> DayOfYear(t) >= 332
  {
    var t := Thursday(d);
    DayNumberBounds(d);
    DayNumberBounds(t);
    if t.year < d.year {
      EarlierYearNearby(t, d);
    } else if d.year < t.year {
      EarlierYearNearby(d, t);
    } else {
      DaysBeforeMonthFacts(d.year, d.month);
      DaysBeforeMonthFacts(t.year, t.month);
    }
  }

  /** Of two dates at most six days apart in different years, the earlier
      is in the last days of December of the year before the later, and the
      later in the first days of January. */
  lemma EarlierYearNearby(d: DateTime, e: DateTime)
    requires d.year < e.year && DayNumber(e) - DayNumber(d) <= 6
    ensures e.year == d.year + 1 && d.month == 12 && e.month == 1
    ensures DayOfYear(d) >= 360 && DayOfYear(e) <= 6
  {
    DayNumberBounds(d);
    DayNumberBounds(e);
    DaysBeforeMonthFacts(d.year, d.month);
    DaysBeforeMonthFacts(e.year, e.month);
    YearsApart(d.year, e.year);
    if d.year < e.year - 1 {
      YearsApart(d.year + 1, e.year);
      YearLengthBounds(d.year + 1);
    }
  }

  lemma YearLengthBounds(year: int)
    ensures 365 <= YearLength(year) <= 366
  {
  }
}
