/**
 * The part of JavaScript's `Date` the date picker relies on, at the granularity
 * of whole days in the proleptic Gregorian calendar: the fields `getFullYear()`,
 * `getMonth()` (0 is January) and `getDate()`, the day number of a date, the
 * weekday (`getDay()`, 0 is Sunday), and the normalisation `MakeDay` that
 * `new Date(y, m, d)`, `setDate`, `setMonth` and `setFullYear` apply, which
 * rolls out-of-range months and days over into neighbouring months and years.
 */
module Calendar {
  import opened Wrappers

  datatype Date = Date(year: int, month: int, day: int)

  predicate IsLeapYear(y: int)
  {
    y % 4 == 0 && (y % 100 != 0 || y % 400 == 0)
  }

  function DaysInMonth(y: int, m: int): (n: int)
    requires 0 <= m < 12
    ensures 28 <= n <= 31
    ensures m == 1 ==> (n == 29 <==> IsLeapYear(y))
  {
    if m == 1 then (if IsLeapYear(y) then 29 else 28)
    else if m == 3 || m == 5 || m == 8 || m == 10 then 30
    else 31
  }

  /** A real calendar day: month in 0..11, day within that month. */
  predicate Valid(d: Date)
  {
    0 <= d.month < 12 && 1 <= d.day <= DaysInMonth(d.year, d.month)
  }

  type CalendarDate = d: Date | Valid(d) witness Date(1970, 0, 1)

  function YearLength(y: int): int
  {
    if IsLeapYear(y) then 366 else 365
  }

  /** Days from 1 January of year 0 to 1 January of year `y` (negative before year 0). */
  function DaysBeforeYear(y: int): int
  {
    365 * y + (y + 3) / 4 - (y + 99) / 100 + (y + 399) / 400
  }

  /** Days from 1 January to the first of month `m` of year `y`. */
  function DaysBeforeMonth(y: int, m: int): int
    requires 0 <= m < 12
  {
    var common :=
      if m < 6 then
        (if m < 3 then (if m == 0 then 0 else if m == 1 then 31 else 59)
         else (if m == 3 then 90 else if m == 4 then 120 else 151))
      else
        (if m < 9 then (if m == 6 then 181 else if m == 7 then 212 else 243)
         else (if m == 9 then 273 else if m == 10 then 304 else 334));
    common + (if m >= 2 && IsLeapYear(y) then 1 else 0)
  }

  /** `DaysBeforeYear(1970)`: the day number of the Unix epoch counted from year 0. */
  const EpochOffset: int := 719528

  /** The day number of a date: 0 is 1 January 1970, as `getTime()` divided by a day. */
  function EpochDay(d: Date): int
    requires 0 <= d.month < 12
  {
    DaysBeforeYear(d.year) + DaysBeforeMonth(d.year, d.month) + d.day - 1 - EpochOffset
  }

  /** `getDay()`: 0 is Sunday; 1 January 1970 was a Thursday. */
  function Weekday(d: Date): (w: int)
    requires 0 <= d.month < 12
    ensures 0 <= w < 7
  {
    (EpochDay(d) + 4) % 7
  }

  /** The day numbering agrees with the calendar at known dates. */
  lemma KnownDates()
    ensures EpochDay(Date(1970, 0, 1)) == 0 && Weekday(Date(1970, 0, 1)) == 4
    ensures EpochDay(Date(2000, 2, 1)) == 11017
    ensures Weekday(Date(2024, 0, 1)) == 1
    ensures Weekday(Date(2024, 0, 15)) == 1
  {
  }

  /** Every fourth year adds a day to the count of `DaysBeforeYear`. */
  lemma FourYearStep(y: int)
    ensures (y + 4) / 4 - (y + 3) / 4 == if y % 4 == 0 then 1 else 0
  {
  }

  /** Every hundredth year takes one away. */
  lemma CenturyStep(y: int)
    ensures (y + 100) / 100 - (y + 99) / 100 == if y % 100 == 0 then 1 else 0
  {
  }

  /** Every four hundredth year gives it back. */
  lemma QuadricentennialStep(y: int)
    ensures (y + 400) / 400 - (y + 399) / 400 == if y % 400 == 0 then 1 else 0
  {
  }

  /** The three corrections of `DaysBeforeYear` add up to one day in a leap year and none otherwise. */
  lemma LeapCorrections(y: int)
    ensures ((y + 4) / 4 - (y + 3) / 4) - ((y + 100) / 100 - (y + 99) / 100)
            + ((y + 400) / 400 - (y + 399) / 400) == if IsLeapYear(y) then 1 else 0
  {
    FourYearStep(y);
    CenturyStep(y);
    QuadricentennialStep(y);
    if y % 100 == 0 {
      MultipleOfFour(y, 25 * (y / 100));
    }
    if y % 400 == 0 {
      MultipleOfHundred(y, 4 * (y / 400));
    }
  }

  lemma MultipleOfFour(y: int, q: int)
    requires y == 4 * q
    ensures y % 4 == 0
  {
  }

  lemma MultipleOfHundred(y: int, q: int)
    requires y == 100 * q
    ensures y % 100 == 0
  {
  }

  /** A year is 366 days long exactly when it is a leap year. */
  lemma YearStep(y: int)
    ensures DaysBeforeYear(y + 1) == DaysBeforeYear(y) + YearLength(y)
  {
    LeapCorrections(y);
    assert DaysBeforeYear(y + 1) - DaysBeforeYear(y)
           == 365 + ((y + 4) / 4 - (y + 3) / 4) - ((y + 100) / 100 - (y + 99) / 100)
              + ((y + 400) / 400 - (y + 399) / 400);
  }

  /** A date lies `day - 1` days after the first of its month. */
  lemma DayOfMonth(d: Date)
    requires 0 <= d.month < 12
    ensures EpochDay(d) == EpochDay(Date(d.year, d.month, 1)) + d.day - 1
  {
  }

  /** The first of the next month lies `DaysInMonth` days after the first of this one. */
  lemma MonthStep(y: int, m: int)
    requires 0 <= m < 12
    ensures m < 11 ==> EpochDay(Date(y, m + 1, 1)) == EpochDay(Date(y, m, 1)) + DaysInMonth(y, m)
    ensures m == 11 ==> EpochDay(Date(y + 1, 0, 1)) == EpochDay(Date(y, m, 1)) + DaysInMonth(y, m)
  {
    if m == 11 {
      YearStep(y);
    }
  }

  /** A day of a month lies within its year. */
  lemma DayOfYearBounds(d: CalendarDate)
    ensures 0 <= DaysBeforeMonth(d.year, d.month) + d.day - 1 < YearLength(d.year)
  {
  }

  /** Only February changes length from year to year. */
  lemma MonthLengthOutsideFebruary(y: int, z: int, m: int)
    requires 0 <= m < 12 && m != 1
    ensures DaysInMonth(y, m) == DaysInMonth(z, m)
  {
  }

  /** Within a year, every day of an earlier month comes before the first of a later one. */
  lemma MonthsInOrder(y: int, m1: int, m2: int)
    requires 0 <= m1 < m2 < 12
    ensures DaysBeforeMonth(y, m1) + DaysInMonth(y, m1) <= DaysBeforeMonth(y, m2)
  {
  }

  /** Later years start later, by at least 365 days a year. */
  lemma {:induction false} YearsInOrder(y: int, z: int)
    requires y < z
    ensures DaysBeforeYear(y) + YearLength(y) <= DaysBeforeYear(z)
    ensures DaysBeforeYear(z) - DaysBeforeYear(y) >= 365 * (z - y)
    decreases z - y
  {
    YearStep(y);
    if y + 1 < z {
      YearsInOrder(y + 1, z);
    }
  }

  /** Dates in calendar order have increasing day numbers. */
  lemma EpochDayOrder(a: CalendarDate, b: CalendarDate)
    requires a.year < b.year || (a.year == b.year && a.month < b.month)
             || (a.year == b.year && a.month == b.month && a.day < b.day)
    ensures EpochDay(a) < EpochDay(b)
  {
    if a.year < b.year {
      DayOfYearBounds(a);
      YearsInOrder(a.year, b.year);
    } else if a.month < b.month {
      MonthsInOrder(a.year, a.month, b.month);
    }
  }

  /** Different dates have different day numbers. */
  lemma EpochDayInjective(a: CalendarDate, b: CalendarDate)
    requires EpochDay(a) == EpochDay(b)
    ensures a == b
  {
    if a.year < b.year || (a.year == b.year && a.month < b.month)
       || (a.year == b.year && a.month == b.month && a.day < b.day) {
      EpochDayOrder(a, b);
    } else if b.year < a.year || (a.year == b.year && b.month < a.month)
              || (a.year == b.year && a.month == b.month && b.day < a.day) {
      EpochDayOrder(b, a);
    }
  }

  /** The same month in two different years lies at least 334 days apart. */
  lemma SameMonthApart(a: CalendarDate, b: CalendarDate)
    requires a.month == b.month && a.year < b.year
    ensures EpochDay(b) - EpochDay(a) >= 334
  {
    YearsInOrder(a.year, b.year);
  }

  /**
   * Rolling a day number that may lie outside month `m` of year `y` over into the
   * neighbouring months until it names a real day.
   */
  function Roll(y: int, m: int, day: int): CalendarDate
    requires 0 <= m < 12
    decreases if day < 1 then 100 - day else day
  {
    if day < 1 then
      var py := if m == 0 then y - 1 else y;
      var pm := if m == 0 then 11 else m - 1;
      Roll(py, pm, day + DaysInMonth(py, pm))
    else if day > DaysInMonth(y, m) then
      var ny := if m == 11 then y + 1 else y;
      var nm := if m == 11 then 0 else m + 1;
      Roll(ny, nm, day - DaysInMonth(y, m))
    else Date(y, m, day)
  }

  /** Rolling over lands on the day `day - 1` days after the first of month `m`. */
  lemma {:induction false} RollDay(y: int, m: int, day: int)
    requires 0 <= m < 12
    ensures EpochDay(Roll(y, m, day)) == EpochDay(Date(y, m, 1)) + day - 1
    decreases if day < 1 then 100 - day else day, 1
  {
    if day < 1 {
      RollBackDay(y, m, day);
    } else if day > DaysInMonth(y, m) {
      RollOnDay(y, m, day);
    }
  }

  /** A day before the 1st rolls back into the previous month. */
  lemma {:induction false} RollBackDay(y: int, m: int, day: int)
    requires 0 <= m < 12 && day < 1
    ensures EpochDay(Roll(y, m, day)) == EpochDay(Date(y, m, 1)) + day - 1
    decreases 100 - day, 0
  {
    if m == 0 {
      MonthStep(y - 1, 11);
      RollDay(y - 1, 11, day + DaysInMonth(y - 1, 11));
    } else {
      MonthStep(y, m - 1);
      RollDay(y, m - 1, day + DaysInMonth(y, m - 1));
    }
  }

  /** A day past the end of the month rolls on into the next month. */
  lemma {:induction false} RollOnDay(y: int, m: int, day: int)
    requires 0 <= m < 12 && day > DaysInMonth(y, m)
    ensures EpochDay(Roll(y, m, day)) == EpochDay(Date(y, m, 1)) + day - 1
    decreases day, 0
  {
    MonthStep(y, m);
    if m == 11 {
      RollDay(y + 1, 0, day - DaysInMonth(y, m));
    } else {
      RollDay(y, m + 1, day - DaysInMonth(y, m));
    }
  }

  /**
   * The MakeDay operation of the ECMAScript standard (ECMA-262): month
   * `m` counted from January of year `y` may be any integer, and so may `day`.
   */
  function MakeDay(y: int, m: int, day: int): CalendarDate
  {
    Roll(y + m / 12, m % 12, day)
  }

  /** MakeDay counts `day - 1` days from the first of the month `m` months after January of `y`. */
  lemma MakeDayDay(y: int, m: int, day: int)
    ensures EpochDay(MakeDay(y, m, day)) == EpochDay(Date(y + m / 12, m % 12, 1)) + day - 1
  {
    RollDay(y + m / 12, m % 12, day);
  }

  /** A date that is already real is left as it is. */
  lemma MakeDayOfValid(d: CalendarDate)
    ensures MakeDay(d.year, d.month, d.day) == d
  {
    assert d.month / 12 == 0 && d.month % 12 == d.month;
    MakeDayDay(d.year, d.month, d.day);
    DayOfMonth(d);
    EpochDayInjective(MakeDay(d.year, d.month, d.day), d);
  }

  /** Two dates that MakeDay gives for the same day number are the same date. */
  lemma MakeDayAt(y: int, m: int, day: int, d: CalendarDate)
    requires EpochDay(d) == EpochDay(Date(y + m / 12, m % 12, 1)) + day - 1
    ensures MakeDay(y, m, day) == d
  {
    MakeDayDay(y, m, day);
    EpochDayInjective(MakeDay(y, m, day), d);
  }

  /** The year argument of `new Date(y, m, d)`: 0 to 99 stand for 1900 to 1999. */
  function ConstructorYear(y: int): (r: int)
    ensures 0 <= y <= 99 ==> r == 1900 + y
    ensures !(0 <= y <= 99) ==> r == y
  {
    if 0 <= y <= 99 then 1900 + y else y
  }

  /** `new Date(y, m, d)` at midnight, before the range check. */
  function ConstructDate(y: int, m: int, day: int): CalendarDate
  {
    MakeDay(ConstructorYear(y), m, day)
  }

  /** TimeClip: a time value more than 10^8 days from the epoch is `NaN`. */
  predicate InTimeRange(d: Date)
    requires 0 <= d.month < 12
  {
    -100000000 <= EpochDay(d) <= 100000000
  }

  /** `new Date(y, m, d)`: `None` is the invalid date whose `getTime()` is `NaN`. */
  function NewDate(y: int, m: int, day: int): (r: Option<CalendarDate>)
    ensures r.Some? <==> InTimeRange(ConstructDate(y, m, day))
    ensures r.Some? ==> r.value == ConstructDate(y, m, day)
  {
    var d := ConstructDate(y, m, day);
    if InTimeRange(d) then Some(d) else None
  }

  /** `new Date(y, m, d)` with a real date from year 100 on gives that date back. */
  lemma NewDateOfValid(d: CalendarDate)
    requires d.year >= 100 && InTimeRange(d)
    ensures NewDate(d.year, d.month, d.day) == Some(d)
  {
    MakeDayOfValid(d);
  }

  /** `date.setMonth(m)`: keeps the year and the day of the month, then rolls over. */
  function SetMonth(d: CalendarDate, m: int): CalendarDate
  {
    MakeDay(d.year, m, d.day)
  }

  /** `date.setFullYear(y)`: keeps the month and the day of the month, then rolls over. */
  function SetFullYear(d: CalendarDate, y: int): CalendarDate
  {
    MakeDay(y, d.month, d.day)
  }

  /** `date.setDate(day)`: keeps the year and month, then rolls over. */
  function SetDate(d: CalendarDate, day: int): CalendarDate
  {
    MakeDay(d.year, d.month, day)
  }

  /** `setDate(day)` moves by the difference between the new and the old day of the month. */
  lemma SetDateDay(d: CalendarDate, day: int)
    ensures EpochDay(SetDate(d, day)) == EpochDay(d) + day - d.day
  {
    assert d.month / 12 == 0 && d.month % 12 == d.month;
    MakeDayDay(d.year, d.month, day);
    DayOfMonth(d);
  }
  /** `m` months after January of year `y` is month `m2` of year `y2`. */
  lemma MonthCount(y: int, m: int, y2: int, m2: int)
    requires 0 <= m2 < 12 && y * 12 + m == y2 * 12 + m2
    ensures y + m / 12 == y2 && m % 12 == m2
  {
    assert m == (y2 - y) * 12 + m2;
  }

  /** `setMonth` into a month that has the day keeps the day. */
  lemma SetMonthKeepsDay(d: CalendarDate, m: int, y2: int, m2: int)
    requires 0 <= m2 < 12 && d.year * 12 + m == y2 * 12 + m2
    requires d.day <= DaysInMonth(y2, m2)
    ensures SetMonth(d, m) == Date(y2, m2, d.day)
  {
    MonthCount(d.year, m, y2, m2);
    MakeDayDay(d.year, m, d.day);
    var e: CalendarDate := Date(y2, m2, d.day);
    DayOfMonth(e);
    EpochDayInjective(SetMonth(d, m), e);
  }

  /**
   * `setMonth` into a month too short for the day runs over into the next month,
   * by the days the day lies past the end; December, with 31 days, is never too short.
   */
  lemma SetMonthOverflows(d: CalendarDate, m: int, y2: int, m2: int)
    requires 0 <= m2 < 12 && d.year * 12 + m == y2 * 12 + m2
    requires d.day > DaysInMonth(y2, m2)
    ensures m2 < 11 && SetMonth(d, m) == Date(y2, m2 + 1, d.day - DaysInMonth(y2, m2))
  {
    MonthCount(d.year, m, y2, m2);
    MakeDayDay(d.year, m, d.day);
    var n := DaysInMonth(y2, m2);
    assert m2 < 11;
    var e: CalendarDate := Date(y2, m2 + 1, d.day - n);
    DayOfMonth(e);
    MonthStep(y2, m2);
    EpochDayInjective(SetMonth(d, m), e);
  }

  /** `setFullYear` into a year whose month has the day keeps the day. */
  lemma SetFullYearKeepsDay(d: CalendarDate, y: int)
    requires d.day <= DaysInMonth(y, d.month)
    ensures SetFullYear(d, y) == Date(y, d.month, d.day)
  {
    assert d.month / 12 == 0 && d.month % 12 == d.month;
    MakeDayDay(y, d.month, d.day);
    var e: CalendarDate := Date(y, d.month, d.day);
    DayOfMonth(e);
    EpochDayInjective(SetFullYear(d, y), e);
  }

  /** `setFullYear` from 29 February into a common year runs over into 1 March. */
  lemma SetFullYearOverflows(d: CalendarDate, y: int)
    requires d.day > DaysInMonth(y, d.month)
    ensures d.month == 1 && d.day == 29 && !IsLeapYear(y)
    ensures SetFullYear(d, y) == Date(y, 2, 1)
  {
    assert d.month / 12 == 0 && d.month % 12 == d.month;
    MakeDayDay(y, d.month, d.day);
    var e: CalendarDate := Date(y, 2, 1);
    MonthStep(y, 1);
    EpochDayInjective(SetFullYear(d, y), e);
  }
}
