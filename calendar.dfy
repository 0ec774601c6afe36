/**
 * The synthetic date dimension: proleptic Gregorian calendar arithmetic and the
 * row the transform stage derives for each day.
 */
module Calendar {
  import opened Results
  import opened Records
  import opened Frames

  datatype Date = Date(year: int, month: int, day: int)

  predicate IsLeapYear(y: int) {
    y % 4 == 0 && (y % 100 != 0 || y % 400 == 0)
  }

  function YearLength(y: int): int {
    if IsLeapYear(y) then 366 else 365
  }

  function DaysInMonth(y: int, m: int): int
    requires 1 <= m <= 12
  {
    if m == 2 then (if IsLeapYear(y) then 29 else 28)
    else if m == 4 || m == 6 || m == 9 || m == 11 then 30
    else 31
  }

  predicate ValidDate(d: Date) {
    1 <= d.year && 1 <= d.month <= 12 && 1 <= d.day <= DaysInMonth(d.year, d.month)
  }

  /** Days of year `y` before the first of month `m`. */
  function DaysBeforeMonth(y: int, m: int): int
    requires 1 <= m <= 12
  {
    var common := match m
      case 1 => 0 case 2 => 31 case 3 => 59 case 4 => 90 case 5 => 120 case 6 => 151
      case 7 => 181 case 8 => 212 case 9 => 243 case 10 => 273 case 11 => 304 case _ => 334;
    common + if m > 2 && IsLeapYear(y) then 1 else 0
  }

  /** Days from 0001-01-01 to the first of January of year `y`: the lengths of the years before it. */
  function DaysBeforeYear(y: int): int
    decreases y
  {
    if y <= 1 then 0 else DaysBeforeYear(y - 1) + YearLength(y - 1)
  }

  /** The ordinal of a day, counting 0001-01-01 as day 0. */
  function DayNumber(d: Date): int
    requires 1 <= d.month <= 12
  {
    DaysBeforeYear(d.year) + DaysBeforeMonth(d.year, d.month) + d.day - 1
  }

  /** The integer whose decimal digits are the date as YYYYMMDD. */
  function DateId(d: Date): int {
    d.year * 10000 + d.month * 100 + d.day
  }

  lemma DaysBeforeMonthStep(y: int, m: int)
    requires 1 <= m <= 12
    ensures m < 12 ==> DaysBeforeMonth(y, m + 1) == DaysBeforeMonth(y, m) + DaysInMonth(y, m)
    ensures m == 12 ==> DaysBeforeMonth(y, 12) + DaysInMonth(y, 12) == YearLength(y)
  {
  }

  lemma DaysBeforeYearStep(y: int)
    requires 1 <= y
    ensures DaysBeforeYear(y + 1) == DaysBeforeYear(y) + YearLength(y)
  {
  }

  lemma DivStep4(p: int)
    requires 0 <= p
    ensures (p + 1) / 4 == p / 4 + if (p + 1) % 4 == 0 then 1 else 0
  {
  }

  lemma DivStep100(p: int)
    requires 0 <= p
    ensures (p + 1) / 100 == p / 100 + if (p + 1) % 100 == 0 then 1 else 0
  {
  }

  lemma DivStep400(p: int)
    requires 0 <= p
    ensures (p + 1) / 400 == p / 400 + if (p + 1) % 400 == 0 then 1 else 0
  {
  }

  /** A year's extra day, counted the way the closed form counts it. */
  lemma LeapDayCount(n: int)
    ensures (if n % 4 == 0 then 1 else 0) - (if n % 100 == 0 then 1 else 0) + (if n % 400 == 0 then 1 else 0)
      == YearLength(n) - 365
  {
    if n % 100 == 0 {
      assert n == 4 * (25 * (n / 100));
    }
    if n % 400 == 0 {
      assert n == 100 * (4 * (n / 400));
    }
  }

  /** The year-by-year count agrees with the usual closed form: 365 a year plus the leap days. */
  lemma {:induction false} DaysBeforeYearClosedForm(y: int)
    requires 1 <= y
    ensures DaysBeforeYear(y) == 365 * (y - 1) + (y - 1) / 4 - (y - 1) / 100 + (y - 1) / 400
    decreases y
  {
    if y > 1 {
      var p := y - 2;
      DaysBeforeYearClosedForm(y - 1);
      DivStep4(p);
      DivStep100(p);
      DivStep400(p);
      LeapDayCount(y - 1);
    }
  }

  /** The day after `d`: the ordinal grows by one and so does the YYYYMMDD key. */
  function NextDay(d: Date): (r: Date)
    requires ValidDate(d)
    ensures ValidDate(r)
    ensures DayNumber(r) == DayNumber(d) + 1
    ensures DateId(r) > DateId(d)
  {
    DaysBeforeMonthStep(d.year, d.month);
    if d.day < DaysInMonth(d.year, d.month) then Date(d.year, d.month, d.day + 1)
    else if d.month < 12 then Date(d.year, d.month + 1, 1)
    else
      DaysBeforeYearStep(d.year);
      Date(d.year + 1, 1, 1)
  }

  /** The day `k` days after `d`. */
  function AddDays(d: Date, k: nat): (r: Date)
    requires ValidDate(d)
    ensures ValidDate(r)
    ensures DayNumber(r) == DayNumber(d) + k
  {
    if k == 0 then d else NextDay(AddDays(d, k - 1))
  }

  /** Moving forward by at least one day strictly increases the YYYYMMDD key. */
  lemma {:induction false} AddDaysIdIncreases(d: Date, k: nat)
    requires ValidDate(d) && 0 < k
    ensures DateId(d) < DateId(AddDays(d, k))
    decreases k
  {
    if k > 1 {
      AddDaysIdIncreases(d, k - 1);
    }
  }

  lemma {:induction false} AddDaysCompose(d: Date, i: nat, j: nat)
    requires ValidDate(d)
    ensures AddDays(d, i + j) == AddDays(AddDays(d, i), j)
    decreases j
  {
    if j > 0 {
      AddDaysCompose(d, i, j - 1);
    }
  }

  lemma {:induction false} DaysBeforeYearOrder(a: int, b: int)
    requires 1 <= a < b
    ensures DaysBeforeYear(a) + YearLength(a) <= DaysBeforeYear(b)
    decreases b - a
  {
    DaysBeforeYearStep(a);
    if a + 1 < b {
      DaysBeforeYearOrder(a + 1, b);
    }
  }

  lemma DaysBeforeMonthOrder(y: int, a: int, b: int)
    requires 1 <= a < b <= 12
    ensures DaysBeforeMonth(y, a) + DaysInMonth(y, a) <= DaysBeforeMonth(y, b)
  {
  }

  /** A valid date is among the days of its own year. */
  lemma DayWithinYear(d: Date)
    requires ValidDate(d)
    ensures DaysBeforeYear(d.year) <= DayNumber(d) < DaysBeforeYear(d.year) + YearLength(d.year)
  {
    if d.month < 12 {
      DaysBeforeMonthOrder(d.year, d.month, 12);
    }
    DaysBeforeMonthStep(d.year, 12);
  }

  /** Distinct valid dates have distinct ordinals. */
  lemma DayNumberInjective(a: Date, b: Date)
    requires ValidDate(a) && ValidDate(b) && DayNumber(a) == DayNumber(b)
    ensures a == b
  {
    DayWithinYear(a);
    DayWithinYear(b);
    if a.year < b.year {
      DaysBeforeYearOrder(a.year, b.year);
    } else if b.year < a.year {
      DaysBeforeYearOrder(b.year, a.year);
    }
    assert a.year == b.year;
    if a.month < b.month {
      DaysBeforeMonthOrder(a.year, a.month, b.month);
    } else if b.month < a.month {
      DaysBeforeMonthOrder(a.year, b.month, a.month);
    }
    assert a.month == b.month;
  }

  /** Monday is 0: 0001-01-01 of the proleptic Gregorian calendar was a Monday. */
  function DayOfWeek(d: Date): int
    requires 1 <= d.month <= 12
  {
    DayNumber(d) % 7
  }

  const DAY_NAMES: seq<string> := ["Monday", "Tuesday", "Wednesday", "Thursday", "Friday", "Saturday", "Sunday"]

  const MONTH_NAMES: seq<string> :=
    ["January", "February", "March", "April", "May", "June", "July", "August",
     "September", "October", "November", "December"]

  function Quarter(month: int): int {
    (month - 1) / 3 + 1
  }

  /** One row of the date dimension; the frame's `date` column itself is not kept. */
  datatype DateRow = DateRow(
    dateId: int, year: int, month: int, day: int,
    dayOfWeek: int, dayName: string, monthName: string, quarter: int)

  lemma DateIdDecodes(d: Date)
    requires ValidDate(d)
    ensures DateId(d) / 10000 == d.year && (DateId(d) / 100) % 100 == d.month && DateId(d) % 100 == d.day
  {
    var low := d.month * 100 + d.day;
    assert 0 <= low < 10000;
    assert DateId(d) == d.year * 10000 + low;
    assert DateId(d) / 100 == d.year * 100 + d.month;
  }

  /**
   * The row derived for one day: its key decodes back to the day, the weekday
   * name is the one of its Monday-based weekday number, the month name the one of
   * its month, and its quarter is the one holding its month.
   */
  function RowOf(d: Date): (r: DateRow)
    requires ValidDate(d)
    ensures r.year == d.year && r.month == d.month && r.day == d.day
    ensures r.dateId / 10000 == d.year && (r.dateId / 100) % 100 == d.month && r.dateId % 100 == d.day
    ensures 0 <= r.dayOfWeek < 7 && r.dayName == DAY_NAMES[r.dayOfWeek]
    ensures r.monthName == MONTH_NAMES[d.month - 1]
    ensures 1 <= r.quarter <= 4 && 3 * r.quarter - 2 <= d.month <= 3 * r.quarter
  {
    DateIdDecodes(d);
    var dow := DayOfWeek(d);
    DateRow(DateId(d), d.year, d.month, d.day, dow, DAY_NAMES[dow], MONTH_NAMES[d.month - 1], Quarter(d.month))
  }

  /** The number of days from `from` to `to` inclusive; none when `to` comes first. */
  function Span(from: Date, to: Date): nat
    requires 1 <= from.month <= 12 && 1 <= to.month <= 12
  {
    if DayNumber(to) < DayNumber(from) then 0 else DayNumber(to) - DayNumber(from) + 1
  }

  /** The date dimension over [from, to]: the row of the i-th day after `from`, for each day up to `to`. */
  function DimDate(from: Date, to: Date): seq<DateRow>
    requires ValidDate(from) && ValidDate(to)
  {
    Rows(from, Span(from, to))
  }

  /** The rows of the `n` days starting at `from`, in order. */
  function Rows(from: Date, n: nat): (r: seq<DateRow>)
    requires ValidDate(from)
    ensures |r| == n
    ensures forall i :: 0 <= i < n ==> r[i] == RowOf(AddDays(from, i))
    decreases n
  {
    if n == 0 then [] else Rows(from, n - 1) + [RowOf(AddDays(from, n - 1))]
  }

  function RowDate(r: DateRow): Date {
    Date(r.year, r.month, r.day)
  }

  lemma DimDateRowAt(from: Date, to: Date, i: int)
    requires ValidDate(from) && ValidDate(to) && 0 <= i < |DimDate(from, to)|
    ensures DimDate(from, to)[i] == RowOf(AddDays(from, i))
  {
  }

  /** A day's row names the day it was derived from. */
  lemma RowDateIs(d: Date, r: DateRow)
    requires ValidDate(d) && r == RowOf(d)
    ensures RowDate(r) == d
  {
  }

  /**
   * The dimension has one row per day of the range and no other: a row's day
   * lies in [from, to], and every valid day in [from, to] has its row, at the
   * position of its distance from `from`.
   */
  lemma DimDateCoversRange(from: Date, to: Date)
    requires ValidDate(from) && ValidDate(to)
    ensures forall i :: 0 <= i < |DimDate(from, to)| ==>
      && ValidDate(RowDate(DimDate(from, to)[i]))
      && DayNumber(from) <= DayNumber(RowDate(DimDate(from, to)[i])) <= DayNumber(to)
    ensures forall d :: ValidDate(d) && DayNumber(from) <= DayNumber(d) <= DayNumber(to) ==>
      && DayNumber(d) - DayNumber(from) < |DimDate(from, to)|
      && DimDate(from, to)[DayNumber(d) - DayNumber(from)] == RowOf(d)
  {
    var rows := DimDate(from, to);
    forall i | 0 <= i < |rows|
      ensures ValidDate(RowDate(rows[i])) && DayNumber(from) <= DayNumber(RowDate(rows[i])) <= DayNumber(to)
    {
      DimDateRowAt(from, to, i);
      RowDateIs(AddDays(from, i), rows[i]);
    }
    forall d | ValidDate(d) && DayNumber(from) <= DayNumber(d) <= DayNumber(to)
      ensures DayNumber(d) - DayNumber(from) < |rows| && rows[DayNumber(d) - DayNumber(from)] == RowOf(d)
    {
      var i := DayNumber(d) - DayNumber(from);
      assert AddDays(from, i) == d by {
        DayNumberInjective(AddDays(from, i), d);
      }
      DimDateRowAt(from, to, i);
    }
  }

  lemma AddDaysNext(d: Date, i: nat)
    requires ValidDate(d)
    ensures AddDays(d, i + 1) == NextDay(AddDays(d, i))
  {
  }

  lemma WeekdaySucc(n: int)
    ensures (n + 1) % 7 == (n % 7 + 1) % 7
  {
  }

  /** The rows of a day and of the day after it: consecutive days, weekday numbers one apart modulo 7. */
  lemma RowOfNextDay(d: Date, r0: DateRow, r1: DateRow)
    requires ValidDate(d) && r0 == RowOf(d) && r1 == RowOf(NextDay(d))
    ensures RowDate(r1) == NextDay(RowDate(r0))
    ensures r1.dayOfWeek == (r0.dayOfWeek + 1) % 7
  {
    RowDateIs(d, RowOf(d));
    RowDateIs(NextDay(d), RowOf(NextDay(d)));
    WeekdaySucc(DayNumber(d));
  }

  /** Consecutive rows are consecutive days, and their weekday numbers advance by one modulo 7. */
  lemma DimDateConsecutive(from: Date, to: Date, i: int)
    requires ValidDate(from) && ValidDate(to) && 0 <= i && i + 1 < |DimDate(from, to)|
    ensures RowDate(DimDate(from, to)[i + 1]) == NextDay(RowDate(DimDate(from, to)[i]))
    ensures DimDate(from, to)[i + 1].dayOfWeek == (DimDate(from, to)[i].dayOfWeek + 1) % 7
  {
    DimDateRowAt(from, to, i);
    DimDateRowAt(from, to, i + 1);
    AddDaysNext(from, i);
    RowOfNextDay(AddDays(from, i), DimDate(from, to)[i], DimDate(from, to)[i + 1]);
  }

  /** A later day has a larger YYYYMMDD key. */
  lemma AddDaysIdOrder(d: Date, i: nat, j: nat)
    requires ValidDate(d) && i < j
    ensures DateId(AddDays(d, i)) < DateId(AddDays(d, j))
  {
    var a := AddDays(d, i);
    var k: nat := j - i;
    AddDaysCompose(d, i, k);
    assert i + k == j;
    AddDaysIdIncreases(a, k);
  }

  /** The date key strictly increases down the rows. */
  lemma DimDateKeysIncrease(from: Date, to: Date, i: int, j: int)
    requires ValidDate(from) && ValidDate(to) && 0 <= i < j < |DimDate(from, to)|
    ensures DimDate(from, to)[i].dateId < DimDate(from, to)[j].dateId
  {
    AddDaysIdOrder(from, i, j);
  }

  /** The range used when no bounds are given. */
  const DEFAULT_FROM := Date(2022, 11, 3)
  const DEFAULT_TO := Date(2023, 5, 1)

  lemma DefaultDayNumbers()
    ensures ValidDate(DEFAULT_FROM) && ValidDate(DEFAULT_TO)
    ensures DayNumber(DEFAULT_FROM) == 738461 && DayNumber(DEFAULT_TO) == 738640
  {
    DaysBeforeYearClosedForm(2022);
    DaysBeforeYearClosedForm(2023);
  }

  /** The default range has 180 days and starts on Thursday 3 November 2022. */
  lemma DefaultDimDate()
    ensures ValidDate(DEFAULT_FROM) && ValidDate(DEFAULT_TO)
    ensures |DimDate(DEFAULT_FROM, DEFAULT_TO)| == 180
    ensures DimDate(DEFAULT_FROM, DEFAULT_TO)[0] == DateRow(20221103, 2022, 11, 3, 3, "Thursday", "November", 4)
  {
    DefaultDayNumbers();
    assert Span(DEFAULT_FROM, DEFAULT_TO) == 180;
    var rows := DimDate(DEFAULT_FROM, DEFAULT_TO);
    assert AddDays(DEFAULT_FROM, 0) == DEFAULT_FROM;
    assert rows[0] == RowOf(DEFAULT_FROM);
    DefaultFirstRow();
  }

  lemma DefaultFirstRow()
    ensures ValidDate(DEFAULT_FROM)
    ensures RowOf(DEFAULT_FROM) == DateRow(20221103, 2022, 11, 3, 3, "Thursday", "November", 4)
  {
    DefaultDayNumbers();
    assert DayOfWeek(DEFAULT_FROM) == 3;
  }

  /** The first and the last day pandas timestamps can hold at midnight. */
  const MIN_DATE := Date(1677, 9, 22)
  const MAX_DATE := Date(2262, 4, 11)

  predicate Representable(d: Date) {
    ValidDate(d) && DayNumber(MIN_DATE) <= DayNumber(d) <= DayNumber(MAX_DATE)
  }

  lemma BoundDayNumbers()
    ensures ValidDate(MIN_DATE) && ValidDate(MAX_DATE)
    ensures DayNumber(MIN_DATE) == 612411 && DayNumber(MAX_DATE) == 825913
  {
    MinDayNumber();
    MaxDayNumber();
  }

  lemma MinDayNumber()
    ensures ValidDate(MIN_DATE) && DayNumber(MIN_DATE) == 612411
  {
    DaysBeforeYearClosedForm(1677);
  }

  lemma MaxDayNumber()
    ensures ValidDate(MAX_DATE) && DayNumber(MAX_DATE) == 825913
  {
    DaysBeforeYearClosedForm(2262);
  }

  /** Both default bounds are days pandas timestamps can hold. */
  lemma DefaultRepresentable()
    ensures Representable(DEFAULT_FROM) && Representable(DEFAULT_TO)
  {
    BoundDayNumbers();
    DefaultDayNumbers();
  }

  /** The error the range construction raises for a bound that is not a representable day. */
  function BoundError(from: Date, to: Date): Error {
    if !ValidDate(from) || !ValidDate(to) then InvalidDate else OutOfBoundsDatetime
  }

  const DIM_DATE_COLUMNS: seq<string> :=
    ["date_id", "year", "month", "day", "day_of_week", "day_name", "month_name", "quarter"]

  function RowRecord(r: DateRow): Record {
    map["date_id" := Int(r.dateId), "year" := Int(r.year), "month" := Int(r.month), "day" := Int(r.day),
        "day_of_week" := Int(r.dayOfWeek), "day_name" := Text(r.dayName),
        "month_name" := Text(r.monthName), "quarter" := Int(r.quarter)]
  }

  /** The returned frame: eight derived columns, the helper `date` column left out, one row per day. */
  function DimDateFrame(rows: seq<DateRow>): (f: Frame)
    ensures Valid(f) && |f.columns| == 8 && "date" !in f.columns
    ensures |f.rows| == |rows|
    ensures f.columns == DIM_DATE_COLUMNS && forall j :: 0 <= j < |rows| ==> f.rows[j] == RowRecord(rows[j])
  {
    DimDateColumns();
    var f := Frame(DIM_DATE_COLUMNS, seq(|rows|, j requires 0 <= j < |rows| => RowRecord(rows[j])));
    forall j | 0 <= j < |rows| ensures f.rows[j].Keys == Elements(DIM_DATE_COLUMNS) {
      assert f.rows[j] == RowRecord(rows[j]);
      RowRecordKeys(rows[j]);
    }
    f
  }

  lemma DimDateColumns()
    ensures Distinct(DIM_DATE_COLUMNS) && "date" !in DIM_DATE_COLUMNS && |DIM_DATE_COLUMNS| == 8
  {
  }

  lemma DimDateColumnSet()
    ensures Elements(DIM_DATE_COLUMNS)
      == {"date_id", "year", "month", "day", "day_of_week", "day_name", "month_name", "quarter"}
  {
  }

  lemma RowRecordKeys(r: DateRow)
    ensures RowRecord(r).Keys == Elements(DIM_DATE_COLUMNS)
  {
    DimDateColumnSet();
  }
}
