/** State of the employee attendance view: the displayed month of the calendar and
    the selected date, with the highlight test and the three ways to change them. */
module UserAttendance {
  import opened Calendar
  import opened CalendarGrid

  datatype UserView = UserView(currentMonth: Date, selectedDate: Date)

  /** The view opens on today's month with 3 August 2025 selected. */
  function InitialView(today: Date): (v: UserView)
    ensures v.currentMonth == today && v.selectedDate == Date(2025, 7, 3)
  {
    UserView(today, Date(2025, 7, 3))
  }

  /** isSelectedDate: same day of month, month and year; the time of day of either
      Date plays no part, so on calendar dates this is equality. */
  predicate IsSelectedDate(view: UserView, date: Date)
    ensures IsSelectedDate(view, date) <==> date == view.selectedDate
  {
    date.day == view.selectedDate.day &&
    date.month == view.selectedDate.month &&
    date.year == view.selectedDate.year
  }

  /** Clicking a cell selects its date, whether or not it belongs to the displayed
      month, and does not navigate. */
  function SelectDay(view: UserView, cell: CalendarDay): (r: UserView)
    ensures r.currentMonth == view.currentMonth
    ensures IsSelectedDate(r, cell.date)
  {
    view.(selectedDate := cell.date)
  }

  /** The left chevron: the first of the previous month; the selection is kept. */
  function ShowPrevMonth(view: UserView): (r: UserView)
    requires 0 <= view.currentMonth.month < 12
    ensures r.selectedDate == view.selectedDate
    ensures 0 <= r.currentMonth.month < 12 && r.currentMonth.day == 1
    ensures 12 * r.currentMonth.year + r.currentMonth.month
            == 12 * FullYear(view.currentMonth.year) + view.currentMonth.month - 1
  {
    view.(currentMonth := PrevMonthStart(view.currentMonth))
  }

  /** The right chevron: the first of the next month; the selection is kept. */
  function ShowNextMonth(view: UserView): (r: UserView)
    requires 0 <= view.currentMonth.month < 12
    ensures r.selectedDate == view.selectedDate
    ensures 0 <= r.currentMonth.month < 12 && r.currentMonth.day == 1
    ensures 12 * r.currentMonth.year + r.currentMonth.month
            == 12 * FullYear(view.currentMonth.year) + view.currentMonth.month + 1
  {
    view.(currentMonth := NextMonthStart(view.currentMonth))
  }

  /** Next followed by previous shows the first of the same month again, in the year
      the constructor reads, except from December of year -1 (see NextPrevRoundTrip). */
  lemma NextThenPrev(view: UserView)
    requires 0 <= view.currentMonth.month < 12
    requires !(view.currentMonth.year == -1 && view.currentMonth.month == 11)
    ensures ShowPrevMonth(ShowNextMonth(view))
            == view.(currentMonth := Date(FullYear(view.currentMonth.year), view.currentMonth.month, 1))
  {
    NextPrevRoundTrip(view.currentMonth);
  }

  /** The cells of the displayed grid, getDaysInMonth(currentMonth) (BuildMonthGrid
      computes them): 42 cells whose current-month cells are exactly the days of
      the displayed month, in the year the Date constructor reads. */
  function VisibleGrid(view: UserView): (g: seq<CalendarDay>)
    requires 0 <= view.currentMonth.month < 12
    ensures |g| == GridSize
    ensures var y, m := FullYear(view.currentMonth.year), view.currentMonth.month;
            CurrentMonthDates(g) == seq(DaysInMonth(y, m), i => Date(y, m, i + 1))
  {
    CurrentMonthCells(FullYear(view.currentMonth.year), view.currentMonth.month);
    MonthGrid(FullYear(view.currentMonth.year), view.currentMonth.month)
  }

  /** At most one cell of the grid is drawn as selected. */
  lemma AtMostOneSelectedCell(view: UserView, i: int, j: int)
    requires 0 <= view.currentMonth.month < 12
    requires 0 <= i < GridSize && 0 <= j < GridSize
    requires IsSelectedDate(view, VisibleGrid(view)[i].date)
    requires IsSelectedDate(view, VisibleGrid(view)[j].date)
    ensures i == j
  {
    var y, m := FullYear(view.currentMonth.year), view.currentMonth.month;
    if i < j {
      GridAscending(y, m, i, j);
    } else if j < i {
      GridAscending(y, m, j, i);
    }
  }

  /** After a click on cell k, cell k and no other cell is drawn as selected. */
  lemma SelectHighlightsClickedCell(view: UserView, k: int, j: int)
    requires 0 <= view.currentMonth.month < 12
    requires 0 <= k < GridSize && 0 <= j < GridSize
    ensures var after := SelectDay(view, VisibleGrid(view)[k]);
            IsSelectedDate(after, VisibleGrid(after)[j].date) <==> j == k
  {
    var y, m := FullYear(view.currentMonth.year), view.currentMonth.month;
    if j < k {
      GridAscending(y, m, j, k);
    } else if k < j {
      GridAscending(y, m, k, j);
    }
  }
}
