/** The proleptic Gregorian calendar as Python's `datetime.date` implements it.

    A date is its ordinal: 0001-01-01 is day 1 and 9999-12-31, the last date
    Python accepts, is day 3652059. `ToOrdinal` and `FromOrdinal` convert
    between ordinals and (year, month, day) and are proved inverse. */
module Dates {

  const MinYear: int := 1
  const MaxYear: int := 9999
  const MaxOrdinal: int := 3652059

  /** A `date`, as its proleptic Gregorian ordinal. */
  type Date = n: int | 1 <= n <= 3652059 witness 1

  /** A civil date as written: year, month 1..12, day of month. */
  datatype Ymd = Ymd(year: int, month: int, day: int)

  predicate IsLeap(y: int) {
    y % 4 == 0 && (y % 100 != 0 || y % 400 == 0)
  }

  function DaysInYear(y: int): int {
    if IsLeap(y) then 366 else 365
  }

  /** The second result of `calendar.monthrange`. */
  function DaysInMonth(y: int, m: int): (n: int)
    requires 1 <= m <= 12
    ensures 28 <= n <= 31
    ensures m == 2 ==> (n == 29 <==> IsLeap(y))
  {
    if m == 2 then (if IsLeap(y) then 29 else 28)
    else if m == 4 || m == 6 || m == 9 || m == 11 then 30
    else 31
  }

  /** Days of year `y` that lie before the first of month `m`. */
  function DaysBeforeMonth(y: int, m: int): int
    requires 1 <= m <= 13
  {
    if m == 1 then 0 else DaysBeforeMonth(y, m - 1) + DaysInMonth(y, m - 1)
  }

  /** Days before January 1st of year `y`, Python's closed form. */
  function DaysBeforeYear(y: int): int
    requires y >= 1
  {
    var p := y - 1;
    p * 365 + p / 4 - p / 100 + p / 400
  }

  predicate ValidYear(y: int) {
    MinYear <= y <= MaxYear
  }

  predicate ValidYmd(c: Ymd) {
    && ValidYear(c.year)
    && 1 <= c.month <= 12
    && 1 <= c.day <= DaysInMonth(c.year, c.month)
  }

  /** Monday is 0 and Sunday is 6, as `date.weekday()` answers. */
  function Weekday(d: Date): (w: int)
    ensures 0 <= w < 7
  {
    (d + 6) % 7
  }

  // ---------------------------------------------------------------------
  // Facts about the year and month tables

  lemma DivStep(y: int)
    requires y >= 1
    ensures y / 4 - (y - 1) / 4 == (if y % 4 == 0 then 1 else 0)
    ensures y / 100 - (y - 1) / 100 == (if y % 100 == 0 then 1 else 0)
    ensures y / 400 - (y - 1) / 400 == (if y % 400 == 0 then 1 else 0)
  {
  }

  lemma CenturyIsLeapCandidate(y: int)
    ensures y % 100 == 0 ==> y % 4 == 0
    ensures y % 400 == 0 ==> y % 100 == 0
  {
    if y % 100 == 0 {
      assert y == 100 * (y / 100);
      assert y == 4 * (25 * (y / 100));
    }
    if y % 400 == 0 {
      assert y == 400 * (y / 400);
      assert y == 100 * (4 * (y / 400));
    }
  }

  /** Python's closed form adds exactly one year's length per year. */
  lemma DaysBeforeYearStep(y: int)
    requires y >= 1
    ensures DaysBeforeYear(y + 1) == DaysBeforeYear(y) + DaysInYear(y)
  {
    DivStep(y);
    CenturyIsLeapCandidate(y);
  }

  lemma {:induction false} DaysBeforeYearMonotone(a: int, b: int)
    requires 1 <= a <= b
    ensures DaysBeforeYear(a) + (b - a) * 365 <= DaysBeforeYear(b)
    decreases b - a
  {
    if a < b {
      DaysBeforeYearMonotone(a, b - 1);
      DaysBeforeYearStep(b - 1);
    }
  }

  /** The recursive month sum agrees with Python's `_DAYS_BEFORE_MONTH` table. */
  lemma {:induction false} DaysBeforeMonthTable(y: int, m: int)
    requires 1 <= m <= 13
    ensures DaysBeforeMonth(y, m)
         == [0, 31, 59, 90, 120, 151, 181, 212, 243, 273, 304, 334, 365][m - 1]
            + (if m > 2 && IsLeap(y) then 1 else 0)
  {
    if m > 1 {
      DaysBeforeMonthTable(y, m - 1);
    }
  }

  lemma DaysBeforeMonthBounds(y: int, m: int)
    requires 1 <= m <= 13
    ensures 0 <= DaysBeforeMonth(y, m) <= DaysBeforeMonth(y, 13) == DaysInYear(y)
    ensures m <= 12 ==> DaysBeforeMonth(y, m) + DaysInMonth(y, m) <= DaysInYear(y)
  {
    DaysBeforeMonthTable(y, m);
    DaysBeforeMonthTable(y, 13);
    if m <= 12 {
      DaysBeforeMonthTable(y, m + 1);
    }
  }

  lemma {:induction false} DaysBeforeMonthMonotone(y: int, a: int, b: int)
    requires 1 <= a <= b <= 13
    ensures DaysBeforeMonth(y, a) + (b - a) * 28 <= DaysBeforeMonth(y, b)
    decreases b - a
  {
    if a < b {
      DaysBeforeMonthMonotone(y, a, b - 1);
    }
  }

  lemma MaxOrdinalIsEndOfYear9999()
    ensures DaysBeforeYear(MaxYear + 1) == MaxOrdinal
  {
  }

  // ---------------------------------------------------------------------
  // Conversions

  /** `date(y, m, d).toordinal()`. */
  function ToOrdinal(c: Ymd): (n: Date)
    requires ValidYmd(c)
    ensures DaysBeforeYear(c.year) < n <= DaysBeforeYear(c.year + 1)
  {
    DaysBeforeMonthBounds(c.year, c.month);
    DaysBeforeYearStep(c.year);
    DaysBeforeYearMonotone(c.year + 1, MaxYear + 1);
    DaysBeforeYear(c.year) + DaysBeforeMonth(c.year, c.month) + c.day
  }

  /** The year whose days contain ordinal `n`, searched upward from `y`. */
  function YearFrom(y: int, n: int): (r: int)
    requires 1 <= y && DaysBeforeYear(y) < n
    ensures y <= r && DaysBeforeYear(r) < n <= DaysBeforeYear(r + 1)
    decreases n - DaysBeforeYear(y)
  {
    DaysBeforeYearStep(y);
    if n <= DaysBeforeYear(y + 1) then y else YearFrom(y + 1, n)
  }

  /** The month of year `y` that contains day-of-year `k`, searched upward from `m`. */
  function MonthFrom(y: int, m: int, k: int): (r: int)
    requires 1 <= m <= 12 && DaysBeforeMonth(y, m) < k <= DaysInYear(y)
    ensures m <= r <= 12 && DaysBeforeMonth(y, r) < k <= DaysBeforeMonth(y, r + 1)
    decreases 12 - m
  {
    DaysBeforeMonthBounds(y, m);
    if k <= DaysBeforeMonth(y, m + 1) then m else MonthFrom(y, m + 1, k)
  }

  /** `date.fromordinal(n)`: the civil date of an ordinal. */
  function FromOrdinal(n: Date): (c: Ymd)
    ensures ValidYmd(c) && ToOrdinal(c) == n
  {
    var y := YearFrom(1, n);
    YearInRange(y, n);
    DaysBeforeYearStep(y);
    var k := n - DaysBeforeYear(y);
    var m := MonthFrom(y, 1, k);
    Ymd(y, m, k - DaysBeforeMonth(y, m))
  }

  lemma YearInRange(y: int, n: Date)
    requires 1 <= y && DaysBeforeYear(y) < n <= DaysBeforeYear(y + 1)
    ensures ValidYear(y)
  {
    if y > MaxYear {
      DaysBeforeYearMonotone(MaxYear + 1, y);
    }
  }

  lemma YearUnique(a: int, b: int, n: int)
    requires 1 <= a && DaysBeforeYear(a) < n <= DaysBeforeYear(a + 1)
    requires 1 <= b && DaysBeforeYear(b) < n <= DaysBeforeYear(b + 1)
    ensures a == b
  {
    if a < b {
      DaysBeforeYearMonotone(a + 1, b);
    } else if b < a {
      DaysBeforeYearMonotone(b + 1, a);
    }
  }

  lemma MonthUnique(y: int, a: int, b: int, k: int)
    requires 1 <= a <= 12 && DaysBeforeMonth(y, a) < k <= DaysBeforeMonth(y, a + 1)
    requires 1 <= b <= 12 && DaysBeforeMonth(y, b) < k <= DaysBeforeMonth(y, b + 1)
    ensures a == b
  {
    if a < b {
      DaysBeforeMonthMonotone(y, a + 1, b);
    } else if b < a {
      DaysBeforeMonthMonotone(y, b + 1, a);
    }
  }

  /** Converting a valid civil date to its ordinal and back gives it back. */
  lemma FromToOrdinal(c: Ymd)
    requires ValidYmd(c)
    ensures FromOrdinal(ToOrdinal(c)) == c
  {
    var n := ToOrdinal(c);
    var y := YearFrom(1, n);
    YearUnique(y, c.year, n);
    DaysBeforeMonthBounds(c.year, c.month);
    var k := n - DaysBeforeYear(y);
    var m := MonthFrom(y, 1, k);
    MonthUnique(y, m, c.month, k);
  }

  /** The ordinal is injective on valid civil dates. */
  lemma ToOrdinalInjective(a: Ymd, b: Ymd)
    requires ValidYmd(a) && ValidYmd(b) && ToOrdinal(a) == ToOrdinal(b)
    ensures a == b
  {
    FromToOrdinal(a);
    FromToOrdinal(b);
  }

  /** Within a month, the next day is the next ordinal. */
  lemma NextDayOrdinal(c: Ymd)
    requires ValidYmd(c) && c.day < DaysInMonth(c.year, c.month)
    ensures ValidYmd(Ymd(c.year, c.month, c.day + 1))
    ensures ToOrdinal(Ymd(c.year, c.month, c.day + 1)) == ToOrdinal(c) + 1
  {
  }

  /** A day of a month lies `day - 1` days after the first of the month. */
  lemma DayOrdinal(c: Ymd)
    requires ValidYmd(c)
    ensures ToOrdinal(c) == ToOrdinal(Ymd(c.year, c.month, 1)) + c.day - 1
  {
  }

  /** `k` days later the weekday has advanced by `k`, modulo seven. */
  lemma WeekdayShift(d: Date, k: nat)
    requires d + k <= MaxOrdinal
    ensures Weekday(d + k) == (Weekday(d) + k) % 7
  {
  }

  lemma WeekdayPeriodic(d: Date)
    requires d + 7 <= MaxOrdinal
    ensures Weekday(d + 7) == Weekday(d)
  {
  }

  /** The first of the following month lies a month's length after the first of this one. */
  lemma NextMonthOrdinal(y: int, m: int)
    requires ValidYear(y) && 1 <= m <= 12 && (m < 12 || y < MaxYear)
    ensures var next := if m == 12 then Ymd(y + 1, 1, 1) else Ymd(y, m + 1, 1);
      ValidYmd(next) && ToOrdinal(next) == ToOrdinal(Ymd(y, m, 1)) + DaysInMonth(y, m)
  {
    if m == 12 {
      DaysBeforeYearStep(y);
      DaysBeforeMonthBounds(y, 12);
    }
  }

  function YearOf(d: Date): int { FromOrdinal(d).year }
  function MonthOf(d: Date): int { FromOrdinal(d).month }
  function DayOf(d: Date): int { FromOrdinal(d).day }
}
