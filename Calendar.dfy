/**
  The proleptic Gregorian calendar of `System.DateTime`, as far as the date
  helpers use it: a date is a year, month and day with a time of day in
  ticks, its day number counts the days since 0001-01-01 the way
  `DateTime` turns a date into ticks, and the day of the week follows from
  the day number. The dates `DateTime` can hold run from 0001-01-01 to
  9999-12-31; `AddDays` throws `ArgumentOutOfRangeException` outside them.
 */
module Calendar {
  import opened Wrappers

  /** Ticks (100-nanosecond units) in a day. */
  const TicksPerDay: int := 864_000_000_000
  const MaxYear: int := 9999

  predicate IsLeapYear(year: int) {
    year % 4 == 0 && (year % 100 != 0 || year % 400 == 0)
  }

  /** The days of a common year before the first of `month` (1 to 13),
      the thirteenth entry being the length of the year: the
      `DaysToMonth365` table of `DateTime`. */
  function DaysToMonth365(month: int): int
    requires 1 <= month <= 13
  {
    if month == 1 then 0 else if month == 2 then 31 else if month == 3 then 59
    else if month == 4 then 90 else if month == 5 then 120 else if month == 6 then 151
    else if month == 7 then 181 else if month == 8 then 212 else if month == 9 then 243
    else if month == 10 then 273 else if month == 11 then 304 else if month == 12 then 334
    else 365
  }

  /** The days of the year before the first of `month` (1 to 13). A leap
      year's table (`DaysToMonth366`) is one day longer from March on. */
  function DaysBeforeMonth(year: int, month: int): int
    requires 1 <= month <= 13
  {
    DaysToMonth365(month) + if IsLeapYear(year) && month >= 3 then 1 else 0
  }

  function DaysInMonth(year: int, month: int): int
    requires 1 <= month <= 12
  {
    DaysBeforeMonth(year, month + 1) - DaysBeforeMonth(year, month)
  }

  function YearLength(year: int): int {
    if IsLeapYear(year) then 366 else 365
  }

  /** The days of all years before `year`. */
  function DaysBeforeYear(year: int): (r: int)
    requires year >= 1
    ensures r >= 365 * (year - 1)
    decreases year
  {
    if year == 1 then 0 else DaysBeforeYear(year - 1) + YearLength(year - 1)
  }

  /** A calendar date with a time of day, not yet checked to be valid. */
  datatype Civil = Civil(year: int, month: int, day: int, timeOfDay: int)

  predicate IsValid(d: Civil) {
    1 <= d.year <= MaxYear && 1 <= d.month <= 12 &&
    1 <= d.day <= DaysInMonth(d.year, d.month) &&
    0 <= d.timeOfDay < TicksPerDay
  }

  /** A `DateTime` value. */
  type DateTime = d: Civil | IsValid(d) witness Civil(1, 1, 1, 0)

  /** The day of the year, from 1. */
  function DayOfYear(d: DateTime): int {
    DaysBeforeMonth(d.year, d.month) + d.day
  }

  /** The days since 0001-01-01: the date part of `DateTime.Ticks` divided
      by `TicksPerDay`. */
  function DayNumber(d: DateTime): int {
    DaysBeforeYear(d.year) + DayOfYear(d) - 1
  }

  /** The day number of 9999-12-31. */
  const MaxDayNumber: int := 3652058

  /** `DateTime.DayOfWeek`, with Sunday as 0 and Saturday as 6;
      0001-01-01 was a Monday. */
  function DayOfWeek(d: DateTime): (r: int)
    ensures 0 <= r < 7
  {
    (DayNumber(d) + 1) % 7
  }

  const Sunday := 0
  const Monday := 1
  const Wednesday := 3

  /** `DateTime.Date`: the same day at midnight. */
  function Date(d: DateTime): (r: DateTime)
    ensures r.timeOfDay == 0 && DayNumber(r) == DayNumber(d)
  {
    Civil(d.year, d.month, d.day, 0)
  }

  // ---------------------------------------------------------------------------
  // Facts about the tables and the year lengths
  // ---------------------------------------------------------------------------

  lemma DaysBeforeMonthFacts(year: int, month: int)
    requires 1 <= month <= 12
    ensures 28 <= DaysInMonth(year, month) <= 31
    ensures DaysBeforeMonth(year, 1) == 0 && DaysBeforeMonth(year, 13) == YearLength(year)
    ensures month == 12 ==> DaysInMonth(year, month) == 31
    ensures month >= 2 ==> DaysBeforeMonth(year, month) >= 31
    ensures month <= 11 ==> DaysBeforeMonth(year, month + 1) <= 335
    ensures month == 12 ==> DaysBeforeMonth(year, month) >= 334
  {
  }

  /** The closed form `DateTime` computes the days before a year with:
      365 days a year, plus the leap days of the Gregorian rule. */
  lemma {:induction false} DaysBeforeYearFormula(year: int)
    requires year >= 1
    ensures var n := year - 1; DaysBeforeYear(year) == n * 365 + n / 4 - n / 100 + n / 400
    decreases year
  {
    if year > 1 {
      DaysBeforeYearFormula(year - 1);
      LeapDays(year - 1);
    }
  }

  /** The leap days the closed form counts up to `n` grow by one exactly in
      a leap year `n`. */
  lemma LeapDays(n: int)
    requires n >= 1
    ensures (n / 4 - n / 100 + n / 400) - ((n - 1) / 4 - (n - 1) / 100 + (n - 1) / 400) ==
      YearLength(n) - 365
  {
    var m := n - 1;
    assert n / 4 == m / 4 + (if n % 4 == 0 then 1 else 0);
    assert n / 100 == m / 100 + (if n % 100 == 0 then 1 else 0);
    assert n / 400 == m / 400 + (if n % 400 == 0 then 1 else 0);
  }

  /** 9999-12-31 is day 3652058, the last day `DateTime` can hold. */
  lemma EndOfCalendar(year: int)
    requires year == MaxYear || year == MaxYear + 1
    ensures year == MaxYear ==> DaysBeforeYear(year) + DaysBeforeMonth(year, 12) + 30 == MaxDayNumber
    ensures year == MaxYear + 1 ==> DaysBeforeYear(year) == MaxDayNumber + 1
  {
    DaysBeforeYearFormula(year);
  }

  lemma {:induction false} DaysBeforeYearBelow(year: int)
    requires 1 <= year <= MaxYear + 1
    ensures DaysBeforeYear(year) + (MaxYear + 1 - year) * 365 <= DaysBeforeYear(MaxYear + 1)
    decreases MaxYear + 1 - year
  {
    if year <= MaxYear {
      DaysBeforeYearBelow(year + 1);
    }
  }

  /** Every date's day number lies between those of 0001-01-01 and
      9999-12-31. */
  lemma DayNumberBounds(d: DateTime)
    ensures 0 <= DayNumber(d) <= MaxDayNumber
    ensures DayNumber(d) == DaysBeforeYear(d.year) + DayOfYear(d) - 1
    ensures 1 <= DayOfYear(d) <= YearLength(d.year)
  {
    DaysBeforeMonthFacts(d.year, d.month);
    DaysBeforeYearBelow(d.year + 1);
    EndOfCalendar(MaxYear + 1);
  }

  // ---------------------------------------------------------------------------
  // Stepping by one day
  // ---------------------------------------------------------------------------

  /** The same time on the next day, or `None` after 9999-12-31. */
  function NextDay(d: DateTime): Option<DateTime> {
    if d.day < DaysInMonth(d.year, d.month) then Some(d.(day := d.day + 1))
    else if d.month < 12 then Some(d.(month := d.month + 1, day := 1))
    else if d.year < MaxYear then Some(d.(year := d.year + 1, month := 1, day := 1))
    else None
  }

  /** The same time on the previous day, or `None` before 0001-01-01. */
  function PrevDay(d: DateTime): Option<DateTime> {
    if d.day > 1 then Some(d.(day := d.day - 1))
    else if d.month > 1 then Some(d.(month := d.month - 1, day := DaysInMonth(d.year, d.month - 1)))
    else if d.year > 1 then Some(d.(year := d.year - 1, month := 12, day := 31))
    else None
  }

  /** The next day has the next day number, and there is one exactly when
      the date is not the last one. */
  lemma NextDayNumber(d: DateTime)
    ensures NextDay(d).Some? ==>
      DayNumber(NextDay(d).value) == DayNumber(d) + 1 && NextDay(d).value.timeOfDay == d.timeOfDay
    ensures NextDay(d).Some? <==> DayNumber(d) < MaxDayNumber
  {
    DaysBeforeMonthFacts(d.year, d.month);
    DayNumberBounds(d);
    if d.day < DaysInMonth(d.year, d.month) {
      assert DayNumber(NextDay(d).value) == DayNumber(d) + 1;
      DayNumberBounds(NextDay(d).value);
    } else if d.month < 12 {
      assert DayNumber(NextDay(d).value) == DayNumber(d) + 1;
      DayNumberBounds(NextDay(d).value);
    } else if d.year < MaxYear {
      var n := NextDay(d).value;
      assert DayNumber(n) == DaysBeforeYear(d.year + 1);
      assert DayNumber(n) == DayNumber(d) + 1;
      DayNumberBounds(n);
    } else {
      EndOfCalendar(d.year);
    }
  }

  /** The previous day has the previous day number, and there is one
      exactly when the date is not the first one. */
  lemma PrevDayNumber(d: DateTime)
    ensures PrevDay(d).Some? ==>
      DayNumber(PrevDay(d).value) == DayNumber(d) - 1 && PrevDay(d).value.timeOfDay == d.timeOfDay
    ensures PrevDay(d).Some? <==> DayNumber(d) > 0
  {
    DayNumberBounds(d);
    if PrevDay(d).Some? {
      if d.day == 1 && d.month == 1 {
        DaysBeforeMonthFacts(d.year - 1, 12);
      } else if d.day == 1 {
        DaysBeforeMonthFacts(d.year, d.month - 1);
      }
      DayNumberBounds(PrevDay(d).value);
    }
  }

  /** Stepping forward and back returns to the same date. */
  lemma PrevOfNext(d: DateTime)
    requires NextDay(d).Some?
    ensures PrevDay(NextDay(d).value) == Some(d)
  {
    DaysBeforeMonthFacts(d.year, d.month);
  }

  lemma NextOfPrev(d: DateTime)
    requires PrevDay(d).Some?
    ensures NextDay(PrevDay(d).value) == Some(d)
  {
    if d.day == 1 && d.month > 1 {
      DaysBeforeMonthFacts(d.year, d.month - 1);
    }
  }

  /** The day of the week moves on by one from one day to the next,
      Saturday (6) wrapping round to Sunday (0). */
  lemma NextDayOfWeek(d: DateTime)
    ensures NextDay(d).Some? ==> DayOfWeek(NextDay(d).value) == (DayOfWeek(d) + 1) % 7
  {
    NextDayNumber(d);
  }

  /** The day of the week of 1 January of a year, by the closed form. */
  lemma NewYearDayOfWeek(year: int)
    requires 1 <= year <= MaxYear
    ensures var n := year - 1; DayOfWeek(Civil(year, 1, 1, 0)) == (n * 365 + n / 4 - n / 100 + n / 400 + 1) % 7
  {
    DaysBeforeYearFormula(year);
  }

  /** A known date: 1 January 2018 was a Monday. */
  lemma NewYear2018IsMonday()
    ensures DayOfWeek(Civil(2018, 1, 1, 0)) == Monday
  {
    NewYearDayOfWeek(2018);
  }

  // ---------------------------------------------------------------------------
  // AddDays
  // ---------------------------------------------------------------------------

  /** `DateTime.AddDays(value)` for a whole number of days: the same time of
      day `value` days later, or `ArgumentOutOfRangeException` when that day
      is not a `DateTime`. */
  function AddDays(d: DateTime, value: int): (r: Result<DateTime>)
    ensures r.Throws? ==> r.error == ArgumentOutOfRange
    decreases if value < 0 then -value else value
  {
    if value == 0 then Ok(d)
    else if value > 0 then
      match NextDay(d)
        case None => Throws(ArgumentOutOfRange)
        case Some(next) => AddDays(next, value - 1)
    else
      match PrevDay(d)
        case None => Throws(ArgumentOutOfRange)
        case Some(prev) => AddDays(prev, value + 1)
  }

  /** `AddDays` succeeds exactly when the day `value` days later is a
      `DateTime`, and then lands on that day number at the same time. */
  lemma {:induction false} AddDaysDayNumber(d: DateTime, value: int)
    ensures AddDays(d, value).Ok? <==> 0 <= DayNumber(d) + value <= MaxDayNumber
    ensures AddDays(d, value).Ok? ==>
      DayNumber(AddDays(d, value).value) == DayNumber(d) + value &&
      AddDays(d, value).value.timeOfDay == d.timeOfDay
    decreases if value < 0 then -value else value
  {
    DayNumberBounds(d);
    if value > 0 {
      NextDayNumber(d);
      if NextDay(d).Some? {
        AddDaysDayNumber(NextDay(d).value, value - 1);
      }
    } else if value < 0 {
      PrevDayNumber(d);
      if PrevDay(d).Some? {
        AddDaysDayNumber(PrevDay(d).value, value + 1);
      }
    }
  }

  /** Adding `a` days and then `b` days is adding `a + b` days. */
  lemma AddDaysAdd(d: DateTime, a: int, b: int)
    requires AddDays(d, a).Ok?
    ensures AddDays(AddDays(d, a).value, b) == AddDays(d, a + b)
  {
    var e := AddDays(d, a).value;
    AddDaysDayNumber(d, a);
    AddDaysDayNumber(e, b);
    AddDaysDayNumber(d, a + b);
    if AddDays(d, a + b).Ok? {
      DayNumberInjective(AddDays(e, b).value, AddDays(d, a + b).value);
    }
  }

  /** Two dates with the same day number and time of day are the same. */
  lemma {:induction false} DayNumberInjective(d: DateTime, e: DateTime)
    requires DayNumber(d) == DayNumber(e) && d.timeOfDay == e.timeOfDay
    ensures d == e
  {
    DayNumberBounds(d);
    DayNumberBounds(e);
    if d.year < e.year {
      YearsApart(d.year, e.year);
    } else if e.year < d.year {
      YearsApart(e.year, d.year);
    } else if d.month < e.month {
      MonthsApart(d.year, d.month, e.month);
    } else if e.month < d.month {
      MonthsApart(d.year, e.month, d.month);
    }
  }

  /** A later year starts at least a whole year later. */
  lemma {:induction false} YearsApart(y: int, z: int)
    requires 1 <= y < z
    ensures DaysBeforeYear(z) >= DaysBeforeYear(y) + YearLength(y)
    decreases z - y
  {
    if y + 1 < z {
      YearsApart(y + 1, z);
    }
  }

  /** A later month starts at least a whole month later. */
  lemma MonthsApart(year: int, m: int, n: int)
    requires 1 <= m < n <= 12
    ensures DaysBeforeMonth(year, n) >= DaysBeforeMonth(year, m) + DaysInMonth(year, m)
  {
  }
}
