/** Gregorian calendar dates as Python's datetime module handles them:
    construction with range checks, the day of the year, the day number
    counted from 1 January of year 1, and adding one day. Also the closed
    table of Dutch month names. */
module Dates {
  import opened Failures

  datatype Date = Date(year: int, month: int, day: int)

  const MinYear := 1
  const MaxYear := 9999

  predicate IsLeapYear(y: int)
  {
    y % 4 == 0 && (y % 100 != 0 || y % 400 == 0)
  }

  function YearLength(y: int): int
  {
    if IsLeapYear(y) then 366 else 365
  }

  function DaysInMonth(y: int, m: int): int
    requires 1 <= m <= 12
  {
    if m == 2 then (if IsLeapYear(y) then 29 else 28)
    else if m == 4 || m == 6 || m == 9 || m == 11 then 30
    else 31
  }

  /** The dates datetime() accepts. */
  predicate IsValid(d: Date)
  {
    MinYear <= d.year <= MaxYear && 1 <= d.month <= 12 && 1 <= d.day <= DaysInMonth(d.year, d.month)
  }

  /** The values a C `int` holds: datetime() converts its arguments to these first. */
  predicate FitsCInt(n: int)
  {
    -0x8000_0000 <= n <= 0x7fff_ffff
  }

  /** datetime(year, month, day): OverflowError when an argument does not fit
      a C int, otherwise ValueError outside the valid dates. */
  function MakeDate(year: int, month: int, day: int): Result<Date>
  {
    if !(FitsCInt(year) && FitsCInt(month) && FitsCInt(day)) then Err(DateArgumentOverflow)
    else if IsValid(Date(year, month, day)) then Ok(Date(year, month, day))
    else Err(InvalidDate(year, month, day))
  }

  /** datetime() gives exactly the valid dates; a rejected triple fails with
      OverflowError exactly when some argument is beyond the C int range, and
      with ValueError naming the triple otherwise. */
  lemma MakeDateResult(year: int, month: int, day: int)
    ensures MakeDate(year, month, day).Ok? <==> IsValid(Date(year, month, day))
    ensures MakeDate(year, month, day).Ok? ==> MakeDate(year, month, day).value == Date(year, month, day)
    ensures MakeDate(year, month, day) == Err(DateArgumentOverflow) <==>
              !(FitsCInt(year) && FitsCInt(month) && FitsCInt(day))
    ensures MakeDate(year, month, day).Err? && FitsCInt(year) && FitsCInt(month) && FitsCInt(day) ==>
              MakeDate(year, month, day) == Err(InvalidDate(year, month, day))
  {
  }

  /** A valid date is rebuilt by datetime() from its own fields. */
  lemma MakeDateOfValid(d: Date)
    requires IsValid(d)
    ensures MakeDate(d.year, d.month, d.day) == Ok(d)
  {
    assert FitsCInt(d.year) && FitsCInt(d.month) && FitsCInt(d.day);
  }

  /** The number of days of the year before the first of month m. */
  function DaysBeforeMonth(y: int, m: int): int
    requires 1 <= m <= 12
  {
    var common :=
      if m == 1 then 0 else if m == 2 then 31 else if m == 3 then 59
      else if m == 4 then 90 else if m == 5 then 120 else if m == 6 then 151
      else if m == 7 then 181 else if m == 8 then 212 else if m == 9 then 243
      else if m == 10 then 273 else if m == 11 then 304 else 334;
    if m > 2 && IsLeapYear(y) then common + 1 else common
  }

  /** Each month starts where the previous one ends. */
  lemma DaysBeforeMonthStep(y: int, m: int)
    requires 1 <= m < 12
    ensures DaysBeforeMonth(y, m + 1) == DaysBeforeMonth(y, m) + DaysInMonth(y, m)
  {
  }

  /** The first of a later month comes after every day of an earlier one. */
  lemma {:induction false} DaysBeforeMonthMonotone(y: int, m: int, n: int)
    requires 1 <= m < n <= 12
    ensures DaysBeforeMonth(y, m) + DaysInMonth(y, m) <= DaysBeforeMonth(y, n)
    decreases n - m
  {
    DaysBeforeMonthStep(y, m);
    if m + 1 < n {
      DaysBeforeMonthMonotone(y, m + 1, n);
      DaysBeforeMonthStep(y, m + 1);
    }
  }

  /** tm_yday: 1 for the first of January, up to 365, or 366 in a leap year. */
  function DayOfYear(d: Date): (n: int)
    requires IsValid(d)
    ensures 1 <= n <= YearLength(d.year)
  {
    DaysBeforeMonth(d.year, d.month) + d.day
  }

  /** Within one year, different valid dates have different days of the year. */
  lemma DayOfYearInjective(a: Date, b: Date)
    requires IsValid(a) && IsValid(b) && a.year == b.year
    ensures DayOfYear(a) == DayOfYear(b) <==> a == b
  {
    if a.month < b.month {
      DaysBeforeMonthMonotone(a.year, a.month, b.month);
    } else if b.month < a.month {
      DaysBeforeMonthMonotone(a.year, b.month, a.month);
    }
  }

  /** The number of days in the years before year y. */
  function DaysBeforeYear(y: int): int
    requires y >= 1
  {
    var p := y - 1;
    p * 365 + p / 4 - p / 100 + p / 400
  }

  lemma DaysBeforeYearStep(y: int)
    requires y >= 1
    ensures DaysBeforeYear(y + 1) == DaysBeforeYear(y) + YearLength(y)
  {
    DivStep(y, 4);
    DivStep(y, 100);
    DivStep(y, 400);
    LeapCounts(y);
    var p := y - 1;
    assert DaysBeforeYear(y) == p * 365 + p / 4 - p / 100 + p / 400;
    assert DaysBeforeYear(y + 1) == y * 365 + y / 4 - y / 100 + y / 400;
  }

  /** The length of a year by the multiples of 4, 100 and 400 it is. */
  lemma LeapCounts(y: int)
    ensures YearLength(y) == 365 + (if y % 4 == 0 then 1 else 0) - (if y % 100 == 0 then 1 else 0) + (if y % 400 == 0 then 1 else 0)
  {
    if y % 400 == 0 {
      var q := y / 400;
      assert y == 100 * (4 * q);
      assert y == 4 * (100 * q);
    } else if y % 100 == 0 {
      var q := y / 100;
      assert y == 4 * (25 * q);
    }
  }

  /** Counting the multiples of k up to y: one more than up to y - 1 exactly when k divides y. */
  lemma DivStep(y: int, k: int)
    requires y >= 1 && (k == 4 || k == 100 || k == 400)
    ensures y / k == (y - 1) / k + (if y % k == 0 then 1 else 0)
  {
    if k == 4 {
      assert y / 4 == (y - 1) / 4 + (if y % 4 == 0 then 1 else 0);
    } else if k == 100 {
      assert y / 100 == (y - 1) / 100 + (if y % 100 == 0 then 1 else 0);
    } else {
      assert y / 400 == (y - 1) / 400 + (if y % 400 == 0 then 1 else 0);
    }
  }

  /** date.toordinal(): 1 January of year 1 is day 1. */
  function Ordinal(d: Date): int
    requires IsValid(d)
  {
    DaysBeforeYear(d.year) + DayOfYear(d)
  }

  /** date + timedelta(1), which raises OverflowError past the last valid date. */
  function NextDay(d: Date): Result<Date>
    requires IsValid(d)
  {
    if d.day < DaysInMonth(d.year, d.month) then Ok(Date(d.year, d.month, d.day + 1))
    else if d.month < 12 then Ok(Date(d.year, d.month + 1, 1))
    else if d.year < MaxYear then Ok(Date(d.year + 1, 1, 1))
    else Err(DateOverflow)
  }

  /** Adding one day fails only on 31 December 9999, and otherwise gives the
      valid date whose day number is one more, across month and year ends. */
  lemma NextDayIsOneDayLater(d: Date)
    requires IsValid(d)
    ensures NextDay(d).Err? <==> d == Date(MaxYear, 12, 31)
    ensures NextDay(d).Ok? ==> IsValid(NextDay(d).value) && Ordinal(NextDay(d).value) == Ordinal(d) + 1
  {
    if d.day < DaysInMonth(d.year, d.month) {
      assert NextDay(d) == Ok(Date(d.year, d.month, d.day + 1));
    } else if d.month < 12 {
      NextMonthOrdinal(d);
    } else if d.year < MaxYear {
      NextYearOrdinal(d);
    }
  }

  /** From the last day of a month before December to the first of the next. */
  lemma NextMonthOrdinal(d: Date)
    requires IsValid(d) && d.day == DaysInMonth(d.year, d.month) && d.month < 12
    ensures IsValid(Date(d.year, d.month + 1, 1)) && Ordinal(Date(d.year, d.month + 1, 1)) == Ordinal(d) + 1
  {
    DaysBeforeMonthStep(d.year, d.month);
  }

  /** From 31 December to 1 January of the next year. */
  lemma NextYearOrdinal(d: Date)
    requires IsValid(d) && d.month == 12 && d.day == 31 && d.year < MaxYear
    ensures IsValid(Date(d.year + 1, 1, 1)) && Ordinal(Date(d.year + 1, 1, 1)) == Ordinal(d) + 1
  {
    DaysBeforeYearStep(d.year);
  }

  /** MONTHS.get(name, 0): the number of a Dutch month name, 0 for any other word. */
  function MonthNumber(name: string): (m: int)
    ensures 0 <= m <= 12
  {
    if name == "januari" then 1 else if name == "februari" then 2
    else if name == "maart" then 3 else if name == "april" then 4
    else if name == "mei" then 5 else if name == "juni" then 6
    else if name == "juli" then 7 else if name == "augustus" then 8
    else if name == "september" then 9 else if name == "oktober" then 10
    else if name == "november" then 11 else if name == "december" then 12
    else 0
  }

  /** The Dutch name of month m, as the collection page spells it. */
  function MonthName(m: int): string
    requires 1 <= m <= 12
  {
    ["januari", "februari", "maart", "april", "mei", "juni", "juli",
     "augustus", "september", "oktober", "november", "december"][m - 1]
  }

  /** The month table is a bijection between the twelve names and 1..12. */
  lemma MonthTable(m: int, name: string)
    ensures 1 <= m <= 12 ==> MonthNumber(MonthName(m)) == m
    ensures MonthNumber(name) != 0 ==> MonthName(MonthNumber(name)) == name
  {
    if 1 <= m <= 12 {
      MonthNumberOfName(m);
    }
    if MonthNumber(name) != 0 {
      NameOfMonthNumber(name);
    }
  }

  lemma MonthNumberOfName(m: int)
    requires 1 <= m <= 12
    ensures MonthNumber(MonthName(m)) == m
  {
    if m == 1 {
      assert MonthName(m) == "januari";
    } else if m == 2 {
      assert MonthName(m) == "februari";
    } else if m == 3 {
      assert MonthName(m) == "maart";
    } else if m == 4 {
      assert MonthName(m) == "april";
    } else if m == 5 {
      assert MonthName(m) == "mei";
    } else if m == 6 {
      assert MonthName(m) == "juni";
    } else if m == 7 {
      assert MonthName(m) == "juli";
    } else if m == 8 {
      assert MonthName(m) == "augustus";
    } else if m == 9 {
      assert MonthName(m) == "september";
    } else if m == 10 {
      assert MonthName(m) == "oktober";
    } else if m == 11 {
      assert MonthName(m) == "november";
    } else if m == 12 {
      assert MonthName(m) == "december";
    }
  }

  lemma NameOfMonthNumber(name: string)
    requires MonthNumber(name) != 0
    ensures MonthName(MonthNumber(name)) == name
  {
    var m := MonthNumber(name);
    assert 1 <= m <= 12;
  }
}
