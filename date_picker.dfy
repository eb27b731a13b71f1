/**
 * The `DatePicker` component: the text codec between a date and its four text
 * layouts, the month grid of the calendar pop-up, and the component's state
 * (open flag, uncontrolled value, displayed month) with its event handlers.
 */
module DatePicker {
  import opened Wrappers
  import opened Text
  import opened Calendar

  /** The layouts that read year, month, day. */
  predicate YearFirst(format: string)
  {
    format == "YYYY-MM-DD" || format == "YYYY/MM/DD"
  }

  /** The layouts that read day, month, year. */
  predicate DayFirst(format: string)
  {
    format == "DD-MM-YYYY" || format == "DD/MM/YYYY"
  }

  /** The separator a layout writes. */
  function SeparatorOf(format: string): char
  {
    if format == "YYYY/MM/DD" || format == "DD/MM/YYYY" then '/' else '-'
  }

  /**
   * `formatDate`: no date gives `''`; month and day are padded to two digits, the
   * year is written as `String(year)`. An unknown layout is written as `YYYY-MM-DD`.
   */
  function FormatDate(date: Option<CalendarDate>, format: string): (text: string)
    ensures date.None? <==> text == ""
  {
    if date.None? then ""
    else
      var d := date.value;
      var year := IntToText(d.year);
      var month := Pad2(d.month + 1);
      var day := Pad2(d.day);
      if format == "YYYY/MM/DD" then year + "/" + month + "/" + day
      else if format == "DD-MM-YYYY" then day + "-" + month + "-" + year
      else if format == "DD/MM/YYYY" then day + "/" + month + "/" + year
      else year + "-" + month + "-" + day
  }

  /** Every layout is its three fields joined by its separator, in its order. */
  lemma FormatDateLayout(d: CalendarDate, format: string)
    ensures var sep := [SeparatorOf(format)];
            FormatDate(Some(d), format)
            == if DayFirst(format) then Pad2(d.day) + sep + Pad2(d.month + 1) + sep + IntToText(d.year)
               else IntToText(d.year) + sep + Pad2(d.month + 1) + sep + Pad2(d.day)
  {
  }

  /** `parseDate` splits on either separator, whatever the layout. */
  const Separators: set<char> := {'-', '/'}

  /** `parseInt(parts[i], 10)`; a missing part is `undefined`, which parses as `NaN`. */
  function PartAsInt(parts: seq<string>, i: nat): Option<int>
  {
    if i < |parts| then ParseInt(parts[i]) else None
  }

  /**
   * `parseDate`: `None` stands for `null`. Empty text, an unknown layout, a missing
   * or non-numeric field, or a date outside the time range give `None`; numeric
   * fields out of their calendar range roll over as `new Date` does.
   */
  function ParseDate(text: string, format: string): (r: Option<CalendarDate>)
    ensures text == "" || !(YearFirst(format) || DayFirst(format)) ==> r == None
    ensures r.Some? ==> forall i :: 0 <= i < 3 ==> PartAsInt(Split(text, Separators), i).Some?
    ensures text != "" && (YearFirst(format) || DayFirst(format)) ==>
              var fields := DateFields(Split(text, Separators), YearFirst(format));
              (fields.None? ==> r == None)
              && (fields.Some? ==> r == NewDate(fields.value.0, fields.value.1, fields.value.2))
  {
    if text == "" then None
    else if !(YearFirst(format) || DayFirst(format)) then None
    else ReadFields(Split(text, Separators), format)
  }

  /**
   * The numbers of a split date text in the layout's order: year, 0-based month and
   * day; `None` when one of them is `NaN`.
   */
  function DateFields(parts: seq<string>, yearFirst: bool): (r: Option<(int, int, int)>)
    ensures r.Some? <==> forall i :: 0 <= i < 3 ==> PartAsInt(parts, i).Some?
    ensures r.Some? && yearFirst ==>
              r.value == (PartAsInt(parts, 0).value, PartAsInt(parts, 1).value - 1, PartAsInt(parts, 2).value)
    ensures r.Some? && !yearFirst ==>
              r.value == (PartAsInt(parts, 2).value, PartAsInt(parts, 1).value - 1, PartAsInt(parts, 0).value)
  {
    var first := PartAsInt(parts, 0);
    var month := PartAsInt(parts, 1);
    var last := PartAsInt(parts, 2);
    var year := if yearFirst then first else last;
    var day := if yearFirst then last else first;
    if year.None? || month.None? || day.None? then None
    else Some((year.value, month.value - 1, day.value))
  }

  /** The fields of a split date text handed to `new Date`. */
  function ReadFields(parts: seq<string>, format: string): Option<CalendarDate>
  {
    var fields := DateFields(parts, YearFirst(format));
    if fields.None? then None else NewDate(fields.value.0, fields.value.1, fields.value.2)
  }

  lemma DigitsAreFree(s: string)
    requires AllDigits(s)
    ensures Free(s, Separators)
  {
  }

  /** Three separator-free fields with two separators between them split into those three. */
  lemma SplitThree(a: string, s1: char, b: string, s2: char, c: string)
    requires Free(a, Separators) && Free(b, Separators) && Free(c, Separators)
    requires s1 in Separators && s2 in Separators
    ensures Split(a + [s1] + b + [s2] + c, Separators) == [a, b, c]
  {
    SplitFree(c, Separators);
    SplitAtSeparator(b, s2, c, Separators);
    assert a + [s1] + b + [s2] + c == a + [s1] + (b + [s2] + c);
    SplitAtSeparator(a, s1, b + [s2] + c, Separators);
  }

  /** Fields that read as numbers are taken in the layout's order, the middle one as a 1-based month. */
  lemma DateFieldsOfInts(a: string, b: string, c: string, yearFirst: bool, x: int, y: int, z: int)
    requires ParseInt(a) == Some(x) && ParseInt(b) == Some(y) && ParseInt(c) == Some(z)
    ensures DateFields([a, b, c], yearFirst) == if yearFirst then Some((x, y - 1, z)) else Some((z, y - 1, x))
  {
    var parts := [a, b, c];
    assert parts[0] == a && parts[1] == b && parts[2] == c;
  }

  /**
   * Text made of three separator-free numeric fields and two separators (of either
   * kind) parses as `new Date` of its numbers, the middle one read as a 1-based month.
   */
  lemma ParseDateOfInts(a: string, s1: char, b: string, s2: char, c: string, format: string, x: int, y: int, z: int)
    requires Free(a, Separators) && Free(b, Separators) && Free(c, Separators)
    requires s1 in Separators && s2 in Separators
    requires YearFirst(format) || DayFirst(format)
    requires ParseInt(a) == Some(x) && ParseInt(b) == Some(y) && ParseInt(c) == Some(z)
    ensures ParseDate(a + [s1] + b + [s2] + c, format)
            == if YearFirst(format) then NewDate(x, y - 1, z) else NewDate(z, y - 1, x)
  {
    SplitThree(a, s1, b, s2, c);
    DateFieldsOfInts(a, b, c, YearFirst(format), x, y, z);
  }

  /** The text of a date from year 0 on reads back as `new Date` of its own fields. */
  lemma ParseFormatted(d: CalendarDate, format: string)
    requires YearFirst(format) || DayFirst(format)
    requires d.year >= 0
    ensures ParseDate(FormatDate(Some(d), format), format) == NewDate(d.year, d.month, d.day)
  {
    var sep := SeparatorOf(format);
    var y, m, dd := NatToText(d.year), Pad2(d.month + 1), Pad2(d.day);
    FormatDateLayout(d, format);
    DigitsAreFree(y);
    DigitsAreFree(m);
    DigitsAreFree(dd);
    ParseIntOfNatToText(d.year);
    ParseIntOfPad2(d.month + 1);
    ParseIntOfPad2(d.day);
    if YearFirst(format) {
      ParseDateOfInts(y, sep, m, sep, dd, format, d.year, d.month + 1, d.day);
    } else {
      ParseDateOfInts(dd, sep, m, sep, y, format, d.day, d.month + 1, d.year);
    }
  }

  /** Formatting then parsing gives the date back, in each of the four layouts, from year 100 on. */
  lemma ParseFormatRoundTrip(d: CalendarDate, format: string)
    requires YearFirst(format) || DayFirst(format)
    requires d.year >= 100 && InTimeRange(d)
    ensures ParseDate(FormatDate(Some(d), format), format) == Some(d)
  {
    ParseFormatted(d, format);
    NewDateOfValid(d);
  }

  /** `new Date(y, m, d)` with a year from 0 to 99 is that day of the year `1900 + y`. */
  lemma NewDateOfTwoDigitYear(d: CalendarDate)
    requires 0 <= d.year <= 99 && Valid(Date(1900 + d.year, d.month, d.day))
    ensures NewDate(d.year, d.month, d.day) == Some(Date(1900 + d.year, d.month, d.day))
  {
    var shifted: CalendarDate := Date(1900 + d.year, d.month, d.day);
    MakeDayOfValid(shifted);
    assert ConstructorYear(d.year) == shifted.year;
    assert ConstructDate(d.year, d.month, d.day) == MakeDay(shifted.year, shifted.month, shifted.day);
    RecentDatesInRange(shifted);
  }

  /** Every date from year 0 to year 200000 is within the time range. */
  lemma RecentDatesInRange(d: CalendarDate)
    requires 0 <= d.year <= 200000
    ensures InTimeRange(d)
  {
    DayOfYearBounds(d);
    var y := d.year;
    assert 0 <= DaysBeforeYear(y) <= 366 * y + 1;
  }

  /**
   * A year from 0 to 99 is written without padding, so parsing it back lands in
   * the twentieth century (year 99 reads as 1999).
   */
  lemma TwoDigitYearsShift(d: CalendarDate, format: string)
    requires YearFirst(format) || DayFirst(format)
    requires 0 <= d.year <= 99 && Valid(Date(1900 + d.year, d.month, d.day))
    ensures ParseDate(FormatDate(Some(d), format), format) == Some(Date(1900 + d.year, d.month, d.day))
  {
    ParseFormatted(d, format);
    NewDateOfTwoDigitYear(d);
  }

  /** An empty year field (`parseInt('')` is `NaN`) makes the whole date invalid. */
  lemma EmptyYearDoesNotParse(parts: seq<string>, format: string)
    requires YearFirst(format) ==> |parts| > 0 && parts[0] == ""
    requires !YearFirst(format) ==> |parts| > 2 && parts[2] == ""
    ensures ReadFields(parts, format) == None
  {
    var i := if YearFirst(format) then 0 else 2;
    assert TrimStart(parts[i]) == "";
    assert PartAsInt(parts, i) == None;
  }

  /** A year-first text whose year starts with a minus sign does not parse. */
  lemma LeadingMinusDoesNotParse(y: string, sep: char, m: string, dd: string, format: string)
    requires YearFirst(format) && sep in Separators
    ensures ParseDate("-" + y + [sep] + m + [sep] + dd, format) == None
  {
    var text := "-" + y + [sep] + m + [sep] + dd;
    assert text == [] + ['-'] + (y + [sep] + m + [sep] + dd);
    SplitAtSeparator([], '-', y + [sep] + m + [sep] + dd, Separators);
    EmptyYearDoesNotParse(Split(text, Separators), format);
  }

  /** A day-first text whose year starts with a minus sign does not parse. */
  lemma TrailingMinusDoesNotParse(dd: string, sep: char, m: string, y: string, format: string)
    requires DayFirst(format) && sep in Separators
    requires Free(dd, Separators) && Free(m, Separators) && Free(y, Separators)
    ensures ParseDate(dd + [sep] + m + [sep] + "-" + y, format) == None
  {
    var text := dd + [sep] + m + [sep] + "-" + y;
    assert text == dd + [sep] + (m + [sep] + ([] + ['-'] + y));
    SplitFree(y, Separators);
    SplitAtSeparator([], '-', y, Separators);
    SplitAtSeparator(m, sep, [] + ['-'] + y, Separators);
    SplitAtSeparator(dd, sep, m + [sep] + ([] + ['-'] + y), Separators);
    EmptyYearDoesNotParse(Split(text, Separators), format);
  }

  /** A date before year 0 is written with a minus sign that the parser reads as a separator. */
  lemma NegativeYearsDoNotParse(d: CalendarDate, format: string)
    requires d.year < 0
    ensures ParseDate(FormatDate(Some(d), format), format) == None
  {
    if YearFirst(format) {
      NegativeYearFirst(d, format);
    } else if DayFirst(format) {
      NegativeYearLast(d, format);
    }
  }

  lemma NegativeYearFirst(d: CalendarDate, format: string)
    requires d.year < 0 && YearFirst(format)
    ensures ParseDate(FormatDate(Some(d), format), format) == None
  {
    var sep := SeparatorOf(format);
    var y, m, dd := NatToText(-d.year), Pad2(d.month + 1), Pad2(d.day);
    FormatDateLayout(d, format);
    LeadingMinusDoesNotParse(y, sep, m, dd, format);
  }

  lemma NegativeYearLast(d: CalendarDate, format: string)
    requires d.year < 0 && DayFirst(format)
    ensures ParseDate(FormatDate(Some(d), format), format) == None
  {
    var sep := SeparatorOf(format);
    var y, m, dd := NatToText(-d.year), Pad2(d.month + 1), Pad2(d.day);
    assert FormatDate(Some(d), format) == dd + [sep] + m + [sep] + "-" + y by {
      FormatDateLayout(d, format);
      assert dd + [sep] + m + [sep] + ("-" + y) == dd + [sep] + m + [sep] + "-" + y;
    }
    DigitsAreFree(y);
    DigitsAreFree(m);
    DigitsAreFree(dd);
    TrailingMinusDoesNotParse(dd, sep, m, y, format);
  }

  /** An unknown layout is written as `YYYY-MM-DD` but never parses. */
  lemma UnknownFormat(d: Option<CalendarDate>, format: string, text: string)
    requires !(YearFirst(format) || DayFirst(format))
    ensures FormatDate(d, format) == FormatDate(d, "YYYY-MM-DD")
    ensures ParseDate(text, format) == None
  {
  }

  /**
   * Month and day fields are not checked against the calendar: whatever numbers
   * the text holds go to `new Date`, which rolls them over (with `NewDateRollsOver`,
   * the text `2024-02-30` reads as 1 March 2024).
   */
  lemma ParseRollsOver(year: nat, month: nat, day: nat, sep: char, format: string)
    requires sep in Separators && YearFirst(format)
    ensures ParseDate(NatToText(year) + [sep] + Pad2(month) + [sep] + Pad2(day), format)
            == NewDate(year, month - 1, day)
  {
    DigitsAreFree(NatToText(year));
    DigitsAreFree(Pad2(month));
    DigitsAreFree(Pad2(day));
    ParseIntOfNatToText(year);
    ParseIntOfPad2(month);
    ParseIntOfPad2(day);
    ParseDateOfInts(NatToText(year), sep, Pad2(month), sep, Pad2(day), format, year, month, day);
  }

  /** `new Date(2024, 1, 30)` is 1 March 2024. */
  lemma NewDateRollsOver()
    ensures NewDate(2024, 1, 30) == Some(Date(2024, 2, 1))
  {
    MakeDayAt(2024, 1, 30, Date(2024, 2, 1));
    assert ConstructDate(2024, 1, 30) == Date(2024, 2, 1);
  }

  /** `getMonthBounds`: the first and the last day of the month (day 0 of the next month). */
  function MonthBounds(anchor: CalendarDate): (CalendarDate, CalendarDate)
  {
    (ConstructDate(anchor.year, anchor.month, 1), ConstructDate(anchor.year, anchor.month + 1, 0))
  }

  /** The bounds are the 1st and the last day of the anchor's month (its year read as `new Date` does). */
  lemma MonthBoundsSpan(anchor: CalendarDate)
    ensures var y := ConstructorYear(anchor.year);
            MonthBounds(anchor).0 == Date(y, anchor.month, 1)
            && MonthBounds(anchor).1 == Date(y, anchor.month, DaysInMonth(y, anchor.month))
  {
    var y := ConstructorYear(anchor.year);
    var first: CalendarDate := Date(y, anchor.month, 1);
    var last: CalendarDate := Date(y, anchor.month, DaysInMonth(y, anchor.month));
    MakeDayOfValid(first);
    MonthStep(y, anchor.month);
    if anchor.month < 11 {
      assert (anchor.month + 1) / 12 == 0 && (anchor.month + 1) % 12 == anchor.month + 1;
    } else {
      assert (anchor.month + 1) / 12 == 1 && (anchor.month + 1) % 12 == 0;
    }
    MakeDayAt(y, anchor.month + 1, 0, last);
  }

  /** The grid's first cell: the Sunday on or before the 1st. */
  function GridStart(anchor: CalendarDate): CalendarDate
  {
    var first := MonthBounds(anchor).0;
    SetDate(first, first.day - Weekday(first))
  }

  /** The grid's last cell: the Saturday on or after the last day. */
  function GridEnd(anchor: CalendarDate): CalendarDate
  {
    var last := MonthBounds(anchor).1;
    SetDate(last, last.day + (6 - Weekday(last)))
  }

  /** The `i`-th day after `start`. */
  function GridCell(start: CalendarDate, i: int): CalendarDate
  {
    SetDate(start, start.day + i)
  }

  /** `getCalendarDays`, stated as a whole: every day from the start cell to the end cell. */
  function CalendarGrid(anchor: CalendarDate): seq<CalendarDate>
  {
    var start := GridStart(anchor);
    var count := EpochDay(GridEnd(anchor)) - EpochDay(start) + 1;
    Cells(start, if count < 0 then 0 else count)
  }

  /** The first `n` days from `start`. */
  function Cells(start: CalendarDate, n: nat): (cells: seq<CalendarDate>)
    ensures |cells| == n && forall i :: 0 <= i < n ==> cells[i] == GridCell(start, i)
  {
    seq(n, i => GridCell(start, i))
  }

  /** One more cell extends the sequence of cells by the next day. */
  lemma CellsStep(start: CalendarDate, n: nat)
    ensures Cells(start, n + 1) == Cells(start, n) + [GridCell(start, n)]
  {
  }

  lemma GridCellDay(start: CalendarDate, i: int)
    ensures EpochDay(GridCell(start, i)) == EpochDay(start) + i
  {
    SetDateDay(start, start.day + i);
  }

  /** The grid starts at its start cell. */
  lemma GridCellZero(start: CalendarDate)
    ensures GridCell(start, 0) == start
  {
    GridCellDay(start, 0);
    EpochDayInjective(GridCell(start, 0), start);
  }

  /** `current.setDate(current.getDate() + 1)` moves from one cell to the next. */
  lemma GridStep(start: CalendarDate, i: int)
    ensures var c := GridCell(start, i); SetDate(c, c.day + 1) == GridCell(start, i + 1)
  {
    var c := GridCell(start, i);
    GridCellDay(start, i);
    GridCellDay(start, i + 1);
    SetDateDay(c, c.day + 1);
    EpochDayInjective(SetDate(c, c.day + 1), GridCell(start, i + 1));
  }

  /** `getCalendarDays`: the loop from the start cell while it is not after the end cell. */
  method GetCalendarDays(anchor: CalendarDate) returns (days: seq<CalendarDate>)
    ensures days == CalendarGrid(anchor)
  {
    var start := GridStart(anchor);
    var end := GridEnd(anchor);
    ghost var count := EpochDay(end) - EpochDay(start) + 1;
    days := [];
    var current := start;
    ghost var n: nat := 0;
    GridCellZero(start);
    while EpochDay(current) <= EpochDay(end)
      invariant n == |days| && days == Cells(start, n)
      invariant current == GridCell(start, n)
      invariant EpochDay(current) == EpochDay(start) + n
      invariant n <= (if count < 0 then 0 else count)
      decreases EpochDay(end) - EpochDay(current)
    {
      NextCell(start, n);
      days := days + [current];
      current := SetDate(current, current.day + 1);
      n := n + 1;
    }
    assert CalendarGrid(anchor) == Cells(start, if count < 0 then 0 else count);
  }

  /** One step of the loop: the next day is the next cell, one day number on. */
  lemma NextCell(start: CalendarDate, n: nat)
    ensures SetDate(GridCell(start, n), GridCell(start, n).day + 1) == GridCell(start, n + 1)
    ensures EpochDay(GridCell(start, n + 1)) == EpochDay(start) + n + 1
    ensures Cells(start, n + 1) == Cells(start, n) + [GridCell(start, n)]
  {
    GridStep(start, n);
    GridCellDay(start, n + 1);
    CellsStep(start, n);
  }

  /** For a cell within a month of the 1st, being in that month means being in that year too. */
  lemma NearMonth(a: CalendarDate, first: CalendarDate)
    requires first.day == 1 && a.month == first.month
    requires -334 < EpochDay(a) - EpochDay(first) < 334
    ensures a.year == first.year && EpochDay(a) == EpochDay(first) + a.day - 1
  {
    if a.year < first.year {
      SameMonthApart(a, first);
    } else if first.year < a.year {
      SameMonthApart(first, a);
    }
  }

  /** The last day of a month lies `n - 1` days after its 1st, `n - 1` weekdays on. */
  lemma LastDayOfMonth(first: CalendarDate, last: CalendarDate)
    requires first.day == 1 && last == Date(first.year, first.month, DaysInMonth(first.year, first.month))
    ensures EpochDay(last) == EpochDay(first) + DaysInMonth(first.year, first.month) - 1
    ensures Weekday(last) == (Weekday(first) + DaysInMonth(first.year, first.month) - 1) % 7
  {
    WeekdayShift(EpochDay(first) + 4, DaysInMonth(first.year, first.month) - 1);
  }

  /** The end cell is the Saturday on or after `last`. */
  lemma SaturdayAfter(last: CalendarDate, end: CalendarDate, first: CalendarDate)
    requires end == SetDate(last, last.day + (6 - Weekday(last)))
    requires EpochDay(last) == EpochDay(first) + DaysInMonth(first.year, first.month) - 1
    requires Weekday(last) == (Weekday(first) + DaysInMonth(first.year, first.month) - 1) % 7
    ensures EpochDay(end)
            == EpochDay(first) + DaysInMonth(first.year, first.month) - 1 + 6
               - (Weekday(first) + DaysInMonth(first.year, first.month) - 1) % 7
  {
    SetDateDay(last, last.day + (6 - Weekday(last)));
  }

  /**
   * The start cell lies `w` days before the 1st, `w` being the 1st's weekday;
   * the end cell is the Saturday on or after the month's last day.
   */
  lemma GridExtent(anchor: CalendarDate, first: CalendarDate)
    requires first == MonthBounds(anchor).0
    ensures first.day == 1
    ensures EpochDay(GridStart(anchor)) == EpochDay(first) - Weekday(first)
    ensures EpochDay(GridEnd(anchor))
            == EpochDay(first) + DaysInMonth(first.year, first.month) - 1 + 6
               - (Weekday(first) + DaysInMonth(first.year, first.month) - 1) % 7
  {
    MonthBoundsSpan(anchor);
    SetDateDay(first, first.day - Weekday(first));
    var last := MonthBounds(anchor).1;
    LastDayOfMonth(first, last);
    SaturdayAfter(last, GridEnd(anchor), first);
  }

  /** Shifting a day number shifts its weekday. */
  lemma WeekdayShift(x: int, k: int)
    ensures (x + k) % 7 == (x % 7 + k) % 7
  {
    var q := x / 7;
    assert x == 7 * q + x % 7;
    assert x + k == 7 * q + (x % 7 + k);
  }

  /** Whole weeks from the Sunday before the 1st to the Saturday after the last day: 4 to 6 of them. */
  lemma WeekCount(first: CalendarDate)
    ensures GridLength(first) % 7 == 0 && 28 <= GridLength(first) <= 42
    ensures Weekday(first) + DaysInMonth(first.year, first.month) <= GridLength(first)
  {
    var w := Weekday(first);
    var n := DaysInMonth(first.year, first.month);
    var s := w + n - 1;
    assert s == 7 * (s / 7) + s % 7;
  }

  /** Each day is the day after the one before it. */
  predicate Consecutive(g: seq<CalendarDate>)
  {
    forall i :: 0 <= i < |g| - 1 ==> EpochDay(g[i + 1]) == EpochDay(g[i]) + 1
  }

  /** Consecutive days in whole weeks, Sunday to Saturday. */
  predicate WholeWeeks(g: seq<CalendarDate>)
  {
    |g| > 0 && |g| % 7 == 0
    && Weekday(g[0]) == 0 && Weekday(g[|g| - 1]) == 6
    && Consecutive(g)
  }

  /** Whole weeks of days from a Sunday end on a Saturday. */
  lemma CellsShape(start: CalendarDate, count: nat)
    requires Weekday(start) == 0 && count % 7 == 0 && count > 0
    ensures WholeWeeks(Cells(start, count))
  {
    var g := Cells(start, count);
    GridCellZero(start);
    assert g[0] == start;
    GridCellDay(start, count - 1);
    var x := EpochDay(start) + 4;
    assert EpochDay(g[count - 1]) + 4 == x + (count - 1);
    LastOfWeeks(x, count);
    CellsConsecutive(start, count);
  }

  /** From a day number that is a Sunday, whole weeks end on a Saturday. */
  lemma LastOfWeeks(x: int, count: int)
    requires x % 7 == 0 && count % 7 == 0 && count > 0
    ensures (x + (count - 1)) % 7 == 6
  {
    var p, q := x / 7, count / 7;
    assert x + (count - 1) == 7 * (p + q - 1) + 6;
  }

  /** The cells are consecutive days. */
  lemma CellsConsecutive(start: CalendarDate, count: nat)
    ensures Consecutive(Cells(start, count))
  {
    var g := Cells(start, count);
    forall i | 0 <= i < count - 1 ensures EpochDay(g[i + 1]) == EpochDay(g[i]) + 1 {
      GridCellDay(start, i);
      GridCellDay(start, i + 1);
    }
  }

  /**
   * The number of cells from the Sunday on or before the 1st to the Saturday on
   * or after the last day of the month of `first`.
   */
  function GridLength(first: CalendarDate): int
  {
    var n := DaysInMonth(first.year, first.month);
    var w := Weekday(first);
    n - 1 + 6 - (w + n - 1) % 7 + w + 1
  }

  /** The grid starts on a Sunday. */
  lemma GridStartsOnSunday(anchor: CalendarDate, first: CalendarDate)
    requires first == MonthBounds(anchor).0
    ensures Weekday(GridStart(anchor)) == 0
  {
    GridExtent(anchor, first);
    BackToSunday(first, GridStart(anchor));
  }

  /** The grid's cell count, from its start and end cells. */
  lemma GridSpan(anchor: CalendarDate, first: CalendarDate)
    requires first == MonthBounds(anchor).0
    ensures EpochDay(GridEnd(anchor)) - EpochDay(GridStart(anchor)) + 1 == GridLength(first)
  {
    GridExtent(anchor, first);
    SpanLength(first, GridStart(anchor), GridEnd(anchor));
  }

  lemma SpanLength(first: CalendarDate, start: CalendarDate, end: CalendarDate)
    requires EpochDay(start) == EpochDay(first) - Weekday(first)
    requires EpochDay(end) == EpochDay(first) + DaysInMonth(first.year, first.month) - 1 + 6
                              - (Weekday(first) + DaysInMonth(first.year, first.month) - 1) % 7
    ensures EpochDay(end) - EpochDay(start) + 1 == GridLength(first)
  {
  }

  /** The grid is the `GridLength` cells from its start cell. */
  lemma GridCount(anchor: CalendarDate, first: CalendarDate)
    requires first == MonthBounds(anchor).0
    ensures GridLength(first) >= 0 && CalendarGrid(anchor) == Cells(GridStart(anchor), GridLength(first))
  {
    GridSpan(anchor, first);
  }

  /** Going back as many days as a date's weekday lands on a Sunday. */
  lemma BackToSunday(d: CalendarDate, s: CalendarDate)
    requires EpochDay(s) == EpochDay(d) - Weekday(d)
    ensures Weekday(s) == 0
  {
    var x := EpochDay(d) + 4;
    WeekdayShift(x, -(x % 7));
  }

  /**
   * The grid is whole weeks, Sunday to Saturday, of consecutive days: 4, 5 or 6
   * rows.
   */
  lemma GridShape(anchor: CalendarDate)
    ensures WholeWeeks(CalendarGrid(anchor)) && 28 <= |CalendarGrid(anchor)| <= 42
  {
    var first := MonthBounds(anchor).0;
    GridCount(anchor, first);
    GridStartsOnSunday(anchor, first);
    WeekCount(first);
    CellsShape(GridStart(anchor), GridLength(first));
  }

  /**
   * From a start cell `w` days before the 1st of a month, cell `w + k` is day
   * `k + 1` of that month, and no cell outside those is in the same month.
   */
  lemma CellsCoverMonth(start: CalendarDate, count: nat, first: CalendarDate, w: int)
    requires first.day == 1 && 0 <= w < 7 && count <= 42
    requires EpochDay(start) == EpochDay(first) - w
    requires w + DaysInMonth(first.year, first.month) <= count
    ensures var g := Cells(start, count);
            var n := DaysInMonth(first.year, first.month);
            (forall i :: w <= i < w + n ==> g[i] == Date(first.year, first.month, i - w + 1))
            && (forall i :: 0 <= i < count ==> (g[i].month != first.month <==> !(w <= i < w + n)))
  {
    var g := Cells(start, count);
    var n := DaysInMonth(first.year, first.month);
    forall i | w <= i < w + n ensures g[i] == Date(first.year, first.month, i - w + 1) {
      GridCellDay(start, i);
      var target: CalendarDate := Date(first.year, first.month, i - w + 1);
      EpochDayInjective(g[i], target);
    }
    forall i | 0 <= i < count ensures g[i].month != first.month <==> !(w <= i < w + n) {
      GridCellDay(start, i);
      if g[i].month == first.month {
        NearMonth(g[i], first);
      }
    }
  }

  /**
   * Every day of the displayed month appears once, in order, starting at the
   * column of its weekday; exactly the other cells have a different `getMonth()`,
   * which is what `isOtherMonth` flags.
   */
  lemma GridCoversMonth(anchor: CalendarDate)
    ensures var g := CalendarGrid(anchor);
            var first := MonthBounds(anchor).0;
            var w := Weekday(first);
            var n := DaysInMonth(first.year, first.month);
            w + n <= |g|
            && (forall i :: w <= i < w + n ==> g[i] == Date(first.year, first.month, i - w + 1))
            && (forall i :: 0 <= i < |g| ==> (g[i].month != anchor.month <==> !(w <= i < w + n)))
  {
    var first := MonthBounds(anchor).0;
    MonthBoundsSpan(anchor);
    GridCount(anchor, first);
    GridExtent(anchor, first);
    WeekCount(first);
    CellsCoverMonth(GridStart(anchor), GridLength(first), first, Weekday(first));
  }

  /** The months `date` lies after January of year 0: what the calendar title shows. */
  function MonthIndex(d: Date): int
  {
    d.year * 12 + d.month
  }

  /**
   * Moving the displayed month by `k`: the day of the month is kept where it
   * exists and otherwise clamped to the month's last day.
   */
  function ShiftMonths(d: CalendarDate, k: int): (r: CalendarDate)
    ensures MonthIndex(r) == MonthIndex(d) + k
    ensures d.day <= DaysInMonth(r.year, r.month) ==> r.day == d.day
    ensures d.day > DaysInMonth(r.year, r.month) ==> r.day == DaysInMonth(r.year, r.month)
  {
    var t := MonthIndex(d) + k;
    var y, m := t / 12, t % 12;
    Date(y, m, if d.day <= DaysInMonth(y, m) then d.day else DaysInMonth(y, m))
  }

  /** Moving the displayed year by `k`: the same month, `k` years on. */
  function ShiftYears(d: CalendarDate, k: int): (r: CalendarDate)
    ensures r.year == d.year + k && r.month == d.month
    ensures d.day <= DaysInMonth(r.year, r.month) ==> r.day == d.day
    ensures d.day > DaysInMonth(r.year, r.month) ==> r.day == DaysInMonth(r.year, r.month)
  {
    var y := d.year + k;
    Date(y, d.month, if d.day <= DaysInMonth(y, d.month) then d.day else DaysInMonth(y, d.month))
  }

  /** A year is twelve months: the year buttons move as far as twelve presses of the month buttons. */
  lemma YearsAreTwelveMonths(d: CalendarDate, k: int)
    ensures ShiftYears(d, k) == ShiftMonths(d, 12 * k)
  {
    var t := ShiftMonths(d, 12 * k);
    MonthCount(d.year, d.month + 12 * k, t.year, t.month);
  }

  /** The previous/next month button as written: `setMonth(getMonth() ± 1)`. */
  function ShiftMonthAsWritten(d: CalendarDate, step: int): CalendarDate
  {
    SetMonth(d, d.month + step)
  }

  /** The previous/next year button as written: `setFullYear(getFullYear() ± 1)`. */
  function ShiftYearAsWritten(d: CalendarDate, step: int): CalendarDate
  {
    SetFullYear(d, d.year + step)
  }

  /** Where the day exists in every month, the month buttons as written agree with the clamped shift. */
  lemma MonthAsWrittenAgrees(d: CalendarDate, k: int)
    requires d.day <= 28
    ensures ShiftMonthAsWritten(d, k) == ShiftMonths(d, k)
  {
    var t := ShiftMonths(d, k);
    SetMonthKeepsDay(d, d.month + k, t.year, t.month);
  }

  /** Away from 29 February, the year buttons as written agree with the clamped shift. */
  lemma YearAsWrittenAgrees(d: CalendarDate, k: int)
    requires !(d.month == 1 && d.day == 29)
    ensures ShiftYearAsWritten(d, k) == ShiftYears(d, k)
  {
    var r := ShiftYears(d, k);
    if d.month != 1 {
      MonthLengthOutsideFebruary(d.year, r.year, d.month);
    }
    assert r == Date(d.year + k, d.month, d.day);
    SetFullYearKeepsDay(d, d.year + k);
  }

  /**
   * Where the day does not exist in the target month, the month buttons as written
   * overflow into the month after it, on the day past its end.
   */
  lemma MonthAsWrittenOverflows(d: CalendarDate, k: int)
    requires d.day > DaysInMonth(ShiftMonths(d, k).year, ShiftMonths(d, k).month)
    ensures MonthIndex(ShiftMonthAsWritten(d, k)) == MonthIndex(d) + k + 1
    ensures ShiftMonthAsWritten(d, k).day == d.day - DaysInMonth(ShiftMonths(d, k).year, ShiftMonths(d, k).month)
  {
    var t := ShiftMonths(d, k);
    SetMonthOverflows(d, d.month + k, t.year, t.month);
  }

  /** From 29 February into a common year, the year buttons as written land on 1 March. */
  lemma YearAsWrittenOverflows(d: CalendarDate, k: int)
    requires d.month == 1 && d.day == 29 && !IsLeapYear(d.year + k)
    ensures ShiftYearAsWritten(d, k) == Date(d.year + k, 2, 1)
    ensures ShiftYears(d, k) == Date(d.year + k, 1, 28)
  {
    SetFullYearOverflows(d, d.year + k);
  }

  /** From 31 March 2024, "previous month" shows March again. */
  lemma PreviousMonthStaysPut(d: CalendarDate)
    requires d.year == 2024 && d.month == 2 && d.day == 31
    ensures MonthIndex(ShiftMonthAsWritten(d, -1)) == MonthIndex(d)
  {
    MonthAsWrittenOverflows(d, -1);
  }

  /** The `value` and `defaultValue` props: absent, `null`, a `Date`, or text in the layout. */
  datatype DateProp = Absent | NullDate | DateValue(date: CalendarDate) | TextValue(text: string)

  /** Whether the prop is truthy (a `Date` always is; text unless empty). */
  predicate PropIsSet(p: DateProp)
  {
    p.DateValue? || (p.TextValue? && p.text != "")
  }

  /** The date a truthy prop stands for: a `Date` as it is, text as `parseDate` reads it. */
  function PropDate(p: DateProp, format: string): (r: Option<CalendarDate>)
    ensures !PropIsSet(p) ==> r == None
    ensures p.DateValue? ==> r == Some(p.date)
  {
    match p
    case DateValue(d) => Some(d)
    case TextValue(t) => ParseDate(t, format)
    case _ => None
  }

  /** One `onChange(date, dateString)` call. */
  datatype DateChange = DateChange(date: Option<CalendarDate>, text: string)

  class Picker {
    const value: DateProp
    const format: string
    const disabled: bool

    var open: bool
    var innerValue: Option<CalendarDate>
    /** The date whose month the calendar shows. */
    var calendarDate: CalendarDate
    /** The calls made to `onChange`, oldest first. */
    var changes: seq<DateChange>

    /** The value is controlled iff the `value` prop is not `undefined`. */
    predicate IsControlled()
    {
      !value.Absent?
    }

    /** `currentDate`: the prop when controlled, otherwise the inner state. */
    function CurrentDate(): (r: Option<CalendarDate>)
      reads this
      ensures IsControlled() ==> r == PropDate(value, format)
      ensures !IsControlled() ==> r == innerValue
    {
      if IsControlled() then PropDate(value, format) else innerValue
    }

    /** The text the input shows. */
    function InputText(): string
      reads this
    {
      FormatDate(CurrentDate(), format)
    }

    /**
     * Mounting: the inner value starts from `defaultValue`; the calendar shows the
     * month of `value`, else of `defaultValue`, else of `today` (also when the
     * chosen prop does not parse).
     */
    constructor (value: DateProp, defaultValue: DateProp, format: string, disabled: bool, today: CalendarDate)
      ensures this.value == value && this.format == format && this.disabled == disabled
      ensures !open && changes == []
      ensures innerValue == PropDate(defaultValue, format)
      ensures PropIsSet(value) ==>
                calendarDate == (if PropDate(value, format).Some? then PropDate(value, format).value else today)
      ensures !PropIsSet(value) && PropIsSet(defaultValue) ==>
                calendarDate == (if PropDate(defaultValue, format).Some? then PropDate(defaultValue, format).value else today)
      ensures !PropIsSet(value) && !PropIsSet(defaultValue) ==> calendarDate == today
    {
      this.value := value;
      this.format := format;
      this.disabled := disabled;
      open := false;
      innerValue := if PropIsSet(defaultValue) then PropDate(defaultValue, format) else None;
      var initial := if PropIsSet(value) then PropDate(value, format)
                     else if PropIsSet(defaultValue) then PropDate(defaultValue, format)
                     else None;
      calendarDate := if initial.Some? then initial.value else today;
      changes := [];
    }

    /**
     * `handleInputChange`: parsable text selects that date; empty text clears the
     * value; any other text changes nothing and reports nothing.
     */
    method HandleInputChange(text: string)
      modifies this`innerValue, this`calendarDate, this`changes
      ensures ParseDate(text, format).Some? ==>
                var d := ParseDate(text, format).value;
                innerValue == (if IsControlled() then old(innerValue) else Some(d))
                && calendarDate == d
                && changes == old(changes) + [DateChange(Some(d), FormatDate(Some(d), format))]
      ensures ParseDate(text, format).None? && text == "" ==>
                innerValue == (if IsControlled() then old(innerValue) else None)
                && calendarDate == old(calendarDate)
                && changes == old(changes) + [DateChange(None, "")]
      ensures ParseDate(text, format).None? && text != "" ==>
                innerValue == old(innerValue) && calendarDate == old(calendarDate) && changes == old(changes)
    {
      var parsed := ParseDate(text, format);
      if parsed.Some? {
        if !IsControlled() {
          innerValue := parsed;
        }
        calendarDate := parsed.value;
        changes := changes + [DateChange(parsed, FormatDate(parsed, format))];
      } else if text == "" {
        if !IsControlled() {
          innerValue := None;
        }
        changes := changes + [DateChange(None, "")];
      }
    }

    /** `handleInputFocus` and `handleInputClick`: open the calendar unless disabled. */
    method RequestOpen()
      modifies this`open
      ensures open == (old(open) || !disabled)
    {
      if !disabled {
        open := true;
      }
    }

    /** `handleDayClick`: select the day (inner state only when uncontrolled), report it, close. */
    method HandleDayClick(day: CalendarDate)
      modifies this`innerValue, this`changes, this`open
      ensures innerValue == (if IsControlled() then old(innerValue) else Some(day))
      ensures changes == old(changes) + [DateChange(Some(day), FormatDate(Some(day), format))]
      ensures !open
      ensures !IsControlled() ==> CurrentDate() == Some(day)
    {
      if !IsControlled() {
        innerValue := Some(day);
      }
      changes := changes + [DateChange(Some(day), FormatDate(Some(day), format))];
      open := false;
    }

    /** `handlePrevMonth`, with the day clamped so that the previous month is shown. */
    method ShowPreviousMonth()
      modifies this`calendarDate
      ensures calendarDate == ShiftMonths(old(calendarDate), -1)
      ensures MonthIndex(calendarDate) == MonthIndex(old(calendarDate)) - 1
    {
      calendarDate := ShiftMonths(calendarDate, -1);
    }

    /** `handleNextMonth`, with the day clamped so that the next month is shown. */
    method ShowNextMonth()
      modifies this`calendarDate
      ensures calendarDate == ShiftMonths(old(calendarDate), 1)
      ensures MonthIndex(calendarDate) == MonthIndex(old(calendarDate)) + 1
    {
      calendarDate := ShiftMonths(calendarDate, 1);
    }

    /** `handlePrevYear`, with the day clamped so that the same month a year earlier is shown. */
    method ShowPreviousYear()
      modifies this`calendarDate
      ensures calendarDate == ShiftYears(old(calendarDate), -1)
      ensures calendarDate.year == old(calendarDate).year - 1 && calendarDate.month == old(calendarDate).month
    {
      calendarDate := ShiftYears(calendarDate, -1);
    }

    /** `handleNextYear`, with the day clamped so that the same month a year later is shown. */
    method ShowNextYear()
      modifies this`calendarDate
      ensures calendarDate == ShiftYears(old(calendarDate), 1)
      ensures calendarDate.year == old(calendarDate).year + 1 && calendarDate.month == old(calendarDate).month
    {
      calendarDate := ShiftYears(calendarDate, 1);
    }

    /** The effect that follows `currentDate`: the calendar shows the selected date's month. */
    method SyncCalendarDate()
      modifies this`calendarDate
      ensures CurrentDate().Some? ==> calendarDate == CurrentDate().value
      ensures CurrentDate().None? ==> calendarDate == old(calendarDate)
    {
      var current := CurrentDate();
      if current.Some? {
        calendarDate := current.value;
      }
    }
  }
}
