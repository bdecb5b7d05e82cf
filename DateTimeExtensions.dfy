/**
  The date helpers of `DateTimeExtensions`. The invariant culture's
  `Calendar.GetWeekOfYear(date, FirstFourDayWeek, Monday)` is the parameter
  `weekOfYear`, and the current culture's first day of the week is the
  parameter `firstDay`. `AddDays` can throw near the ends of the calendar,
  so the helpers that call it return a `Result`.
 */
module DateTimeExtensions {
  import opened Wrappers
  import opened Text
  import opened Calendar
  import opened IsoWeekDate

  // ---------------------------------------------------------------------------
  // GetIso8601WeekOfYear
  // ---------------------------------------------------------------------------

  /** `GetIso8601WeekOfYear`: a Monday, Tuesday or Wednesday is answered
      with the week of the day three days later, any other day with its own
      week. */
  function GetIso8601WeekOfYear(date: DateTime, weekOfYear: DateTime -> int): (r: Result<int>)
    ensures r.Throws? ==> r.error == ArgumentOutOfRange
  {
    var day := DayOfWeek(date);
    if day >= Monday && day <= Wednesday then
      match AddDays(date, 3)
        case Throws(e) => Throws(e)
        case Ok(later) => Ok(weekOfYear(later))
    else Ok(weekOfYear(date))
  }

  /** The week function is right on Thursdays to Sundays, as the
      FirstFourDayWeek rule with a Monday start is: a late day of the week
      lies in the same year as its Thursday, or in the days that rule
      counts as the last week of the year before. */
  ghost predicate RightFromThursday(weekOfYear: DateTime -> int) {
    forall d: DateTime :: WeekdayIndex(d) >= 3 ==> weekOfYear(d) == Week(d)
  }

  /** A Monday to Wednesday is looked up on the Thursday to Saturday of the
      same week, a later day on itself. */
  lemma WeekOfYearLooksUpLateDay(date: DateTime, weekOfYear: DateTime -> int)
    ensures GetIso8601WeekOfYear(date, weekOfYear).Ok? ==>
      exists looked: DateTime :: WeekdayIndex(looked) >= 3 && Thursday(looked) == Thursday(date) &&
        GetIso8601WeekOfYear(date, weekOfYear).value == weekOfYear(looked)
  {
    var day := DayOfWeek(date);
    if day >= Monday && day <= Wednesday {
      AddDaysDayNumber(date, 3);
      if AddDays(date, 3).Ok? {
        var later := AddDays(date, 3).value;
        ThursdayOfLaterDay(date, later);
        WeekdayIndexIsDayNumber(date);
        WeekdayIndexIsDayNumber(later);
        assert WeekdayIndex(later) >= 3;
      }
    } else {
      assert WeekdayIndex(date) >= 3;
    }
  }

  /** With a week function that is right from Thursday on, the result is the
      ISO 8601 week number of every day. */
  lemma WeekOfYearIsIsoWeek(date: DateTime, weekOfYear: DateTime -> int)
    requires RightFromThursday(weekOfYear)
    ensures GetIso8601WeekOfYear(date, weekOfYear).Ok? ==>
      GetIso8601WeekOfYear(date, weekOfYear).value == Week(date)
  {
    WeekOfYearLooksUpLateDay(date, weekOfYear);
    if GetIso8601WeekOfYear(date, weekOfYear).Ok? {
      var looked: DateTime :| WeekdayIndex(looked) >= 3 && Thursday(looked) == Thursday(date) &&
        GetIso8601WeekOfYear(date, weekOfYear).value == weekOfYear(looked);
      assert weekOfYear(looked) == Week(looked);
    }
  }

  /** The shift only fails on 9999-12-29, a Wednesday whose Saturday would
      be past the last `DateTime`. */
  lemma WeekOfYearThrows(date: DateTime, weekOfYear: DateTime -> int)
    ensures GetIso8601WeekOfYear(date, weekOfYear).Throws? <==> DayNumber(date) == MaxDayNumber - 2
  {
    AddDaysDayNumber(date, 3);
    DayNumberBounds(date);
    WeekdayIndexIsDayNumber(date);
    MondayToWednesday(DayOfWeek(date));
    LastShiftedDay(DayNumber(date));
  }

  /** Monday to Wednesday are the first three days of an ISO week. */
  lemma MondayToWednesday(day: int)
    requires 0 <= day < 7
    ensures Monday <= day <= Wednesday <==> (day + 6) % 7 <= 2
  {
  }

  /** Of the last days, only day `MaxDayNumber - 2` is a Monday to
      Wednesday; the last day is a Friday. */
  lemma LastShiftedDay(n: int)
    requires 0 <= n <= MaxDayNumber
    ensures n % 7 <= 2 && n + 3 > MaxDayNumber <==> n == MaxDayNumber - 2
  {
  }

  // ---------------------------------------------------------------------------
  // GetIso8601Year
  // ---------------------------------------------------------------------------

  /** `GetIso8601Year`: the year, moved back for a January day in week 51
      or later and forward for a December day in week 1. */
  function GetIso8601Year(date: DateTime, weekOfYear: DateTime -> int): (r: Result<int>)
    ensures r.Ok? <==> GetIso8601WeekOfYear(date, weekOfYear).Ok?
    ensures r.Ok? ==> date.year - 1 <= r.value <= date.year + 1
  {
    match GetIso8601WeekOfYear(date, weekOfYear)
      case Throws(e) => Throws(e)
      case Ok(week) =>
        if week > 50 && date.month == 1 then Ok(date.year - 1)
        else if week < 2 && date.month == 12 then Ok(date.year + 1)
        else Ok(date.year)
  }

  /** With a week function that is right from Thursday on, the result is the
      ISO 8601 week-numbering year: the year of the day's Thursday. */
  lemma Iso8601YearIsWeekYear(date: DateTime, weekOfYear: DateTime -> int)
    requires RightFromThursday(weekOfYear)
    ensures GetIso8601Year(date, weekOfYear).Ok? ==>
      GetIso8601Year(date, weekOfYear).value == WeekYear(date)
  {
    WeekOfYearIsIsoWeek(date, weekOfYear);
    ThursdayNearby(date);
  }

  // ---------------------------------------------------------------------------
  // GetWeekWithYear
  // ---------------------------------------------------------------------------

  /** `GetWeekWithYear`: every `yyyy` of the format becomes the ISO year,
      then every `cc` the week number with at least two digits. The two
      passes together fill in the format as `WeekFormat` does in one. */
  function GetWeekWithYear(t: DateTime, format: string, weekOfYear: DateTime -> int): (r: Result<string>)
    ensures r.Ok? <==> GetIso8601WeekOfYear(t, weekOfYear).Ok?
    ensures r.Ok? ==> r.value == WeekFormat(format,
      IntToString(GetIso8601Year(t, weekOfYear).value),
      IntToString00(GetIso8601WeekOfYear(t, weekOfYear).value))
  {
    match GetIso8601Year(t, weekOfYear)
      case Throws(e) => Throws(e)
      case Ok(year) =>
        var week := GetIso8601WeekOfYear(t, weekOfYear).value;
        NoWeekPatternInYear(year);
        ReplaceTwiceIsWeekFormat(format, IntToString(year), IntToString00(week));
        Ok(Replace(Replace(format, "yyyy", IntToString(year)), "cc", IntToString00(week)))
  }

  /** The format filled in by one scan from the left: a `yyyy` at the scan
      position becomes `year`, else a `cc` becomes `week`, else the character
      is copied; the scan goes on after what it consumed. */
  function WeekFormat(format: string, year: string, week: string): string
    decreases |format|
  {
    if format == [] then []
    else if |format| >= 4 && format[..4] == "yyyy" then year + WeekFormat(format[4..], year, week)
    else if |format| >= 2 && format[..2] == "cc" then week + WeekFormat(format[2..], year, week)
    else [format[0]] + WeekFormat(format[1..], year, week)
  }

  /** A year as text is not empty and holds no `c`. */
  lemma NoWeekPatternInYear(year: int)
    ensures IntToString(year) != [] && 'c' !in IntToString(year)
  {
    var digits := NatToString(if year < 0 then -year else year);
    assert 'c' !in digits by {
      forall i | 0 <= i < |digits| ensures digits[i] != 'c' {
        assert IsDigit(digits[i]);
      }
    }
  }

  /** Replacing `yyyy` and then `cc` is the one-scan fill-in, as long as the
      year text is not empty and holds no `c`: the year can then neither
      hide nor create a `cc`. */
  lemma {:induction false} ReplaceTwiceIsWeekFormat(format: string, year: string, week: string)
    requires year != [] && 'c' !in year
    ensures Replace(Replace(format, "yyyy", year), "cc", week) == WeekFormat(format, year, week)
    decreases |format|
  {
    var first := Replace(format, "yyyy", year);
    if format == [] {
    } else if |format| >= 4 && format[..4] == "yyyy" {
      var rest := format[4..];
      assert format == "yyyy" + rest;
      ReplaceAtHead(rest, "yyyy", year);
      ReplaceSkipsPrefix(year, Replace(rest, "yyyy", year), "cc", week);
      ReplaceTwiceIsWeekFormat(rest, year, week);
    } else if |format| >= 2 && format[..2] == "cc" {
      var rest := format[2..];
      assert format == "cc" + rest;
      ReplaceSkipsPrefix("cc", rest, "yyyy", year);
      ReplaceAtHead(Replace(rest, "yyyy", year), "cc", week);
      ReplaceTwiceIsWeekFormat(rest, year, week);
    } else {
      var rest := format[1..];
      ReplaceNotAtHead(format, "yyyy", year);
      var tail := Replace(rest, "yyyy", year);
      assert first == [format[0]] + tail;
      FirstOfYearReplaced(rest, year);
      assert format[0] == 'c' ==> tail == [] || tail[0] != 'c' by {
        if format[0] == 'c' && rest != [] {
          assert rest[0] == format[1];
          assert format[..2] == [format[0], format[1]];
        }
      }
      ReplaceNotAtHead(first, "cc", week);
      assert first[1..] == tail;
      ReplaceTwiceIsWeekFormat(rest, year, week);
    }
  }

  /** Replacing `yyyy` by a year text without `c` puts a `c` first only
      where one was first already. */
  lemma FirstOfYearReplaced(s: string, year: string)
    requires year != [] && 'c' !in year
    ensures var r := Replace(s, "yyyy", year);
      r != [] && r[0] == 'c' ==> s != [] && s[0] == 'c'
  {
    if s != [] && !(|s| >= 4 && s[..4] == "yyyy") {
      ReplaceNotAtHead(s, "yyyy", year);
    }
  }

  /** Where the pattern does not start the text, the first character is
      kept and the replacing goes on after it. */
  lemma ReplaceNotAtHead(s: string, oldValue: string, newValue: string)
    requires oldValue != [] && s != []
    requires !(|s| >= |oldValue| && s[..|oldValue|] == oldValue)
    ensures Replace(s, oldValue, newValue) == [s[0]] + Replace(s[1..], oldValue, newValue)
  {
    if |s| < |oldValue| {
      NoOccurrenceInShort(s, oldValue, newValue);
      NoOccurrenceInShort(s[1..], oldValue, newValue);
    }
  }

  /** What `Calendar.GetWeekOfYear` guarantees for any date: a week number
      from 1 to 53. The helper relies on no more than this. */
  ghost predicate WeekNumbers(weekOfYear: DateTime -> int) {
    forall d: DateTime :: 1 <= weekOfYear(d) <= 53
  }

  /** Under that guarantee the helper's week numbers are 1 to 53 too. */
  lemma WeekOfYearBounds(t: DateTime, weekOfYear: DateTime -> int)
    requires WeekNumbers(weekOfYear)
    ensures GetIso8601WeekOfYear(t, weekOfYear).Ok? ==>
      1 <= GetIso8601WeekOfYear(t, weekOfYear).value <= 53
  {
  }

  /** A week number holds no `c`, so no `cc` is left in the result. */
  lemma WeekWithYearLeavesNoWeekPattern(t: DateTime, format: string, weekOfYear: DateTime -> int)
    requires WeekNumbers(weekOfYear)
    requires GetWeekWithYear(t, format, weekOfYear).Ok?
    ensures NoDoubled(GetWeekWithYear(t, format, weekOfYear).value, 'c')
  {
    var year := GetIso8601Year(t, weekOfYear).value;
    var week := GetIso8601WeekOfYear(t, weekOfYear).value;
    var digits := IntToString00(week);
    WeekOfYearBounds(t, weekOfYear);
    assert 'c' !in digits;
    ReplaceRemovesDoubled(Replace(format, "yyyy", IntToString(year)), 'c', digits);
  }

  /** A format with neither pattern comes back as it is. */
  lemma WeekWithYearWithoutPatterns(t: DateTime, format: string, weekOfYear: DateTime -> int)
    requires GetWeekWithYear(t, format, weekOfYear).Ok?
    requires forall i :: 0 <= i < |format| ==> !OccursAt(format, "yyyy", i) && !OccursAt(format, "cc", i)
    ensures GetWeekWithYear(t, format, weekOfYear).value == format
  {
  }

  /** Replacing skips a prefix that cannot start the pattern. */
  lemma {:induction false} ReplaceSkipsPrefix(prefix: string, rest: string, oldValue: string, newValue: string)
    requires oldValue != [] && oldValue[0] !in prefix
    ensures Replace(prefix + rest, oldValue, newValue) == prefix + Replace(rest, oldValue, newValue)
    decreases |prefix|
  {
    if prefix != [] {
      var s := prefix + rest;
      assert s[0] == prefix[0] != oldValue[0];
      assert s[1..] == prefix[1..] + rest;
      assert !(|s| >= |oldValue| && s[..|oldValue|] == oldValue) by {
        if |s| >= |oldValue| { assert s[..|oldValue|][0] == s[0]; }
      }
      ReplaceNotAtHead(s, oldValue, newValue);
      assert oldValue[0] !in prefix[1..] by {
        forall i | 0 <= i < |prefix| - 1 ensures prefix[1..][i] != oldValue[0] {
          assert prefix[1..][i] == prefix[i + 1];
        }
      }
      ReplaceSkipsPrefix(prefix[1..], rest, oldValue, newValue);
      HeadAppend(prefix, Replace(rest, oldValue, newValue));
    } else {
      assert prefix + rest == rest;
    }
  }

  lemma HeadAppend(a: string, b: string)
    requires a != []
    ensures [a[0]] + (a[1..] + b) == a + b
  {
    assert a == [a[0]] + a[1..];
  }

  lemma NoOccurrenceInShort(s: string, oldValue: string, newValue: string)
    requires oldValue != [] && |s| < |oldValue|
    ensures Replace(s, oldValue, newValue) == s
  {
  }

  /** Replacing at the head of the text. */
  lemma ReplaceAtHead(rest: string, oldValue: string, newValue: string)
    requires oldValue != []
    ensures Replace(oldValue + rest, oldValue, newValue) == newValue + Replace(rest, oldValue, newValue)
  {
    var s := oldValue + rest;
    assert s[..|oldValue|] == oldValue;
    assert s[|oldValue|..] == rest;
  }

  /** The week date format `yyyy-Wcc` gives the year, `-W` and the
      two-digit week. */
  lemma WeekWithYearIsoFormat(t: DateTime, format: string, weekOfYear: DateTime -> int)
    requires format == "yyyy-Wcc"
    requires GetWeekWithYear(t, format, weekOfYear).Ok?
    ensures GetWeekWithYear(t, format, weekOfYear).value ==
      IntToString(GetIso8601Year(t, weekOfYear).value) + "-W" +
      IntToString00(GetIso8601WeekOfYear(t, weekOfYear).value)
  {
    var year := IntToString(GetIso8601Year(t, weekOfYear).value);
    var week := IntToString00(GetIso8601WeekOfYear(t, weekOfYear).value);
    WeekFormatIso(year, week);
  }

  /** The one-scan fill-in of `yyyy-Wcc`. */
  lemma WeekFormatIso(year: string, week: string)
    ensures WeekFormat("yyyy-Wcc", year, week) == year + "-W" + week
  {
    var f := "yyyy-Wcc";
    assert f[..4] == "yyyy" && f[4..] == "-Wcc";
    var g := "-Wcc";
    assert g[..4] != "yyyy" && g[..2] != "cc" && g[1..] == "Wcc";
    var h := "Wcc";
    assert h[..2] != "cc" && h[1..] == "cc";
    var k := "cc";
    assert k[..2] == "cc" && k[2..] == [];
    assert WeekFormat(k, year, week) == week;
  }

  // ---------------------------------------------------------------------------
  // GetFirstDayOfWeek and FirstDayOfMonth
  // ---------------------------------------------------------------------------

  /** How many days back from `date` the nearest `firstDay` lies. */
  function DaysBack(date: DateTime, firstDay: int): (n: int)
    requires 0 <= firstDay < 7
    ensures 0 <= n <= 6
  {
    (DayOfWeek(date) - firstDay) % 7
  }

  /** `GetFirstDayOfWeek`: steps back from the day's midnight until the
      culture's first day of the week. The result is that weekday, at
      midnight, at most six days before the day and not after it; stepping
      below 0001-01-01 throws. */
  method GetFirstDayOfWeek(dayInWeek: DateTime, firstDay: int) returns (r: Result<DateTime>)
    requires 0 <= firstDay < 7
    ensures r.Ok? <==> DaysBack(dayInWeek, firstDay) <= DayNumber(dayInWeek)
    ensures r.Ok? ==>
      DayOfWeek(r.value) == firstDay && r.value.timeOfDay == 0 &&
      DayNumber(r.value) == DayNumber(dayInWeek) - DaysBack(dayInWeek, firstDay)
    ensures r.Throws? ==> r.error == ArgumentOutOfRange
  {
    var firstDayInWeek := Date(dayInWeek);
    ghost var steps := 0;
    DaysBackReached(dayInWeek, firstDayInWeek, steps, firstDay);
    while DayOfWeek(firstDayInWeek) != firstDay
      invariant 0 <= steps <= DaysBack(dayInWeek, firstDay)
      invariant DayNumber(firstDayInWeek) == DayNumber(dayInWeek) - steps
      invariant firstDayInWeek.timeOfDay == 0
      decreases DaysBack(dayInWeek, firstDay) - steps
    {
      DaysBackReached(dayInWeek, firstDayInWeek, steps, firstDay);
      var earlier := AddDays(firstDayInWeek, -1);
      AddDaysDayNumber(firstDayInWeek, -1);
      if earlier.Throws? {
        return earlier;
      }
      firstDayInWeek := earlier.value;
      steps := steps + 1;
    }
    DaysBackReached(dayInWeek, firstDayInWeek, steps, firstDay);
    return Ok(firstDayInWeek);
  }

  /** Stepping back from a day, the first day of the week is met exactly
      after `DaysBack` steps. */
  lemma DaysBackReached(date: DateTime, earlier: DateTime, steps: int, firstDay: int)
    requires 0 <= firstDay < 7
    requires 0 <= steps <= DaysBack(date, firstDay)
    requires DayNumber(earlier) == DayNumber(date) - steps
    ensures DayOfWeek(earlier) == firstDay <==> steps == DaysBack(date, firstDay)
  {
    var x := DayNumber(date) + 1;
    assert DayOfWeek(earlier) == (x - steps) % 7;
    assert DaysBack(date, firstDay) == (x % 7 - firstDay) % 7;
    StepsBackModulo(x, steps, firstDay);
  }

  /** The arithmetic behind `DaysBackReached`: counting back from `x`, the
      residue `f` modulo 7 is met first after `(x % 7 - f) % 7` steps. */
  lemma StepsBackModulo(x: int, steps: int, f: int)
    requires 0 <= f < 7
    requires 0 <= steps <= (x % 7 - f) % 7
    ensures (x - steps) % 7 == f <==> steps == (x % 7 - f) % 7
  {
    var q, m := x / 7, x % 7;
    assert x == 7 * q + m;
    if m >= f {
      assert (m - f) % 7 == m - f;
      assert x - steps == 7 * q + (m - steps);
      assert (x - steps) % 7 == m - steps;
    } else {
      assert (m - f) % 7 == m - f + 7;
      if m - steps >= 0 {
        assert x - steps == 7 * q + (m - steps);
        assert (x - steps) % 7 == m - steps;
      } else {
        assert x - steps == 7 * (q - 1) + (m - steps + 7);
        assert (x - steps) % 7 == m - steps + 7;
      }
    }
  }

  /** `FirstDayOfMonth`: midnight on the first of the day's month. */
  function FirstDayOfMonth(date: DateTime): (r: DateTime)
    ensures r.year == date.year && r.month == date.month && r.day == 1 && r.timeOfDay == 0
  {
    Civil(date.year, date.month, 1, 0)
  }

  /** The first of the month is the earliest day of the month: no later
      than the day itself and no later than any day of the same month. */
  lemma FirstDayOfMonthIsEarliest(date: DateTime, other: DateTime)
    requires other.year == date.year && other.month == date.month
    ensures DayNumber(FirstDayOfMonth(date)) == DayNumber(date) - (date.day - 1)
    ensures DayNumber(FirstDayOfMonth(date)) <= DayNumber(other)
    ensures FirstDayOfMonth(other) == FirstDayOfMonth(date)
  {
  }
}
