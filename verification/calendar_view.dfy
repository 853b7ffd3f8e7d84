/** Month navigation of the calendar page (app/routes/web/calendar.py). */
module CalendarView {
  import opened Wrappers
  import opened Dates

  /** `date(...)` refuses a year outside 1..9999. */
  datatype NavigationError = YearOutOfRange

  /** The first day of a month, as `date(year, month, 1)`. */
  function FirstOfMonth(year: int, month: int): (d: Date)
    requires ValidYear(year) && 1 <= month <= 12
    ensures FromOrdinal(d) == Ymd(year, month, 1)
  {
    FromToOrdinal(Ymd(year, month, 1));
    ToOrdinal(Ymd(year, month, 1))
  }

  /** The (year, month) before and after a month, before any range check. */
  function MonthBefore(year: int, month: int): (r: (int, int)) {
    if month == 1 then (year - 1, 12) else (year, month - 1)
  }

  function MonthAfter(year: int, month: int): (r: (int, int)) {
    if month == 12 then (year + 1, 1) else (year, month + 1)
  }

  /** The first days of the months around the month of `c`. */
  function MonthsAround(c: Ymd): (r: Result<(Date, Date), NavigationError>)
    requires ValidYmd(c)
    ensures r.Success? <==> !(c.year == MinYear && c.month == 1) && !(c.year == MaxYear && c.month == 12)
    ensures r.Success? ==>
      && FromOrdinal(r.value.0) == (if c.month == 1 then Ymd(c.year - 1, 12, 1) else Ymd(c.year, c.month - 1, 1))
      && FromOrdinal(r.value.1) == (if c.month == 12 then Ymd(c.year + 1, 1, 1) else Ymd(c.year, c.month + 1, 1))
  {
    if (c.year == MinYear && c.month == 1) || (c.year == MaxYear && c.month == 12) then
      Failure(YearOutOfRange)
    else
      var (py, pm) := MonthBefore(c.year, c.month);
      var (ny, nm) := MonthAfter(c.year, c.month);
      Success((FirstOfMonth(py, pm), FirstOfMonth(ny, nm)))
  }

  /** `get_adjacent_months`: the first days of the previous and the next
      month. January steps back into December of the year before and
      December forward into January of the year after; stepping past year 1
      or year 9999 is refused, as `date` refuses such years. */
  function AdjacentMonths(current: Date): (r: Result<(Date, Date), NavigationError>)
    ensures var c := FromOrdinal(current);
      r.Success? <==> !(c.year == MinYear && c.month == 1) && !(c.year == MaxYear && c.month == 12)
    ensures r.Success? ==> var c := FromOrdinal(current);
      && FromOrdinal(r.value.0) == (if c.month == 1 then Ymd(c.year - 1, 12, 1) else Ymd(c.year, c.month - 1, 1))
      && FromOrdinal(r.value.1) == (if c.month == 12 then Ymd(c.year + 1, 1, 1) else Ymd(c.year, c.month + 1, 1))
  {
    MonthsAround(FromOrdinal(current))
  }

  /** The month before `c`'s ends on the day before `c`'s month starts, and
      the next month starts a month's length after it; `c` lies in between. */
  lemma MonthNeighbours(c: Ymd)
    requires ValidYmd(c) && !(c.year == MinYear && c.month == 1) && !(c.year == MaxYear && c.month == 12)
    ensures var (py, pm) := MonthBefore(c.year, c.month);
      var (ny, nm) := MonthAfter(c.year, c.month);
      var first := ToOrdinal(Ymd(c.year, c.month, 1));
      && ToOrdinal(Ymd(py, pm, 1)) + DaysInMonth(py, pm) == first
      && first <= ToOrdinal(c) < ToOrdinal(Ymd(ny, nm, 1)) == first + DaysInMonth(c.year, c.month)
  {
    var (py, pm) := MonthBefore(c.year, c.month);
    NextMonthOrdinal(py, pm);
    NextMonthOrdinal(c.year, c.month);
    DayOrdinal(c);
  }

  /** The results of `get_adjacent_months` are the first days of the months
      that end just before, and start just after, the month of the input. */
  lemma AdjacentMonthsAreNeighbours(current: Date)
    requires AdjacentMonths(current).Success?
    ensures var c := FromOrdinal(current);
      var r := AdjacentMonths(current).value;
      var first := ToOrdinal(Ymd(c.year, c.month, 1));
      && r.0 + DaysInMonth(YearOf(r.0), MonthOf(r.0)) == first
      && first <= current < r.1 == first + DaysInMonth(c.year, c.month)
  {
    var c := FromOrdinal(current);
    var r := AdjacentMonths(current).value;
    var (py, pm) := MonthBefore(c.year, c.month);
    var (ny, nm) := MonthAfter(c.year, c.month);
    MonthNeighbours(c);
    assert r.0 == ToOrdinal(Ymd(py, pm, 1)) && r.1 == ToOrdinal(Ymd(ny, nm, 1));
    assert YearOf(r.0) == py && MonthOf(r.0) == pm;
  }

  /** Only the month of the input matters, not its day. */
  lemma AdjacentMonthsIgnoreDay(a: Date, b: Date)
    requires YearOf(a) == YearOf(b) && MonthOf(a) == MonthOf(b)
    ensures AdjacentMonths(a) == AdjacentMonths(b)
  {
  }
}
