/** The year overview of the statistics page (app/routes/web/statistics.py):
    twelve month grids, each padded with blank cells so that its first day
    falls in its weekday column, Monday first. */
module StatisticsView {
  import opened Wrappers
  import opened Dates
  import opened Model
  import CalendarView

  /** `DayData`: the day of the month, its date, the entry stored for it and
      whether it is a weekend day. */
  datatype DayData = DayData(day: int, date: Date, entry: Option<CalendarEntry>, isWeekend: bool)

  /** `MonthData`, without the month name the page takes from `strftime`. */
  datatype MonthData = MonthData(number: int, days: seq<Option<DayData>>)

  /** The cell of day `day` of a month. */
  function Cell(year: int, month: int, day: int, entries: map<Date, CalendarEntry>): (c: DayData)
    requires ValidYmd(Ymd(year, month, day))
    ensures c.day == day && c.date == ToOrdinal(Ymd(year, month, day))
    ensures c.entry == (if c.date in entries then Some(entries[c.date]) else None)
    ensures c.isWeekend <==> Weekday(c.date) >= 5
  {
    var d := ToOrdinal(Ymd(year, month, day));
    DayData(day, d, if d in entries then Some(entries[d]) else None, Weekday(d) >= 5)
  }

  /** The first element of `calendar.monthrange`: the weekday of the first day. */
  function Offset(year: int, month: int): (w: int)
    requires ValidYear(year) && 1 <= month <= 12
    ensures 0 <= w < 7
  {
    Weekday(ToOrdinal(Ymd(year, month, 1)))
  }

  /** The cells of one month: one blank per weekday before the first, then
      the days in order. */
  function MonthCells(year: int, month: int, entries: map<Date, CalendarEntry>): (cells: seq<Option<DayData>>)
    requires ValidYear(year) && 1 <= month <= 12
    ensures |cells| == Offset(year, month) + DaysInMonth(year, month)
    ensures forall i :: 0 <= i < Offset(year, month) ==> cells[i].None?
    ensures forall i :: Offset(year, month) <= i < |cells| ==>
      && 1 <= i - Offset(year, month) + 1 <= DaysInMonth(year, month)
      && cells[i] == Some(Cell(year, month, i - Offset(year, month) + 1, entries))
  {
    var offset := Offset(year, month);
    var n := DaysInMonth(year, month);
    var days := seq(n, k requires 0 <= k < n => Some(Cell(year, month, k + 1, entries)));
    var cells := seq(offset, _ => None) + days;
    assert forall i :: offset <= i < |cells| ==> cells[i] == days[i - offset];
    cells
  }

  /** In a grid of seven columns, every day sits in the column of its weekday. */
  lemma CellsSitInWeekdayColumns(year: int, month: int, entries: map<Date, CalendarEntry>, i: int)
    requires ValidYear(year) && 1 <= month <= 12
    requires 0 <= i < |MonthCells(year, month, entries)|
    requires MonthCells(year, month, entries)[i].Some?
    ensures Weekday(MonthCells(year, month, entries)[i].value.date) == i % 7
  {
    var first := ToOrdinal(Ymd(year, month, 1));
    var k := i - Offset(year, month);
    DayOrdinal(Ymd(year, month, k + 1));
    WeekdayShift(first, k);
  }

  /** `_get_all_month`: the twelve months of a year, numbered 1 to 12; a
      year that `date` refuses is refused. */
  function AllMonths(year: int, entries: map<Date, CalendarEntry>): (r: Result<seq<MonthData>, CalendarView.NavigationError>)
    ensures r.Success? <==> ValidYear(year)
    ensures r.Success? ==> |r.value| == 12
    ensures r.Success? ==> forall k :: 0 <= k < 12 ==>
      r.value[k].number == k + 1 && r.value[k].days == MonthCells(year, k + 1, entries)
  {
    if !ValidYear(year) then Failure(CalendarView.YearOutOfRange)
    else Success(seq(12, k requires 0 <= k < 12 => MonthData(k + 1, MonthCells(year, k + 1, entries))))
  }

  /** Every day of the year appears in its month, in the cell after the
      padding, showing the entry stored for it. */
  lemma DayShownInItsMonth(c: Ymd, entries: map<Date, CalendarEntry>)
    requires ValidYmd(c)
    ensures var m := AllMonths(c.year, entries).value[c.month - 1];
      var i := Offset(c.year, c.month) + c.day - 1;
      var d := ToOrdinal(c);
      && m.number == c.month
      && 0 <= i < |m.days|
      && m.days[i] == Some(DayData(c.day, d, if d in entries then Some(entries[d]) else None, Weekday(d) >= 5))
  {
  }
}
