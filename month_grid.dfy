/** The month calendar shared by the admin and the employee attendance views:
    `getDaysInMonth` builds a 6 x 7 grid of day cells for the month of a reference
    date (trailing days of the previous month, the days of the month, leading days
    of the next month), and the chevron buttons move the displayed month by one. */
module CalendarGrid {
  import opened Calendar

  /** One cell of the grid: a date and whether it belongs to the displayed month. */
  datatype CalendarDay = CalendarDay(date: Date, isCurrentMonth: bool)

  /** Six rows of seven days. */
  const GridSize := 42

  /** getDay() of the first of the month: how many cells of the previous month lead. */
  function StartingDay(year: int, month: int): (w: int)
    requires 0 <= month < 12
    ensures 0 <= w < 7
  {
    WeekDay(Date(year, month, 1))
  }

  /** How many cells of the next month fill the grid: never negative and never more
      than the next month has days, so every trailing cell is a real date. */
  function TrailingCount(year: int, month: int): (n: int)
    requires 0 <= month < 12
    ensures 5 <= n <= 14
    ensures n <= DaysInMonth(NextMonth(year, month).0, NextMonth(year, month).1)
  {
    GridSize - StartingDay(year, month) - DaysInMonth(year, month)
  }

  /** Reference definition of cell `k`: the grid is 42 consecutive days starting
      StartingDay days before the first of the month, and a cell is current when
      its date lies in the displayed month. */
  function CellAt(year: int, month: int, k: int): (c: CalendarDay)
    requires 0 <= month < 12
    ensures ValidDate(c.date)
  {
    var d := MakeDate(year, month, k - StartingDay(year, month) + 1);
    CalendarDay(d, d.year == year && d.month == month)
  }

  /** The reference grid: six weeks of cells, every one a real calendar date. */
  function MonthGrid(year: int, month: int): (g: seq<CalendarDay>)
    requires 0 <= month < 12
    ensures |g| == GridSize
    ensures forall k :: 0 <= k < |g| ==> ValidDate(g[k].date)
  {
    seq(GridSize, k => CellAt(year, month, k))
  }

  /** getDaysInMonth: three counting loops that push the cells. Only the year and the
      month of `reference` matter, and the year as the Date constructor reads it: the
      result is MonthGrid of FullYear(year) and the month. */
  method BuildMonthGrid(reference: Date) returns (days: seq<CalendarDay>)
    requires 0 <= reference.month < 12
    ensures days == MonthGrid(FullYear(reference.year), reference.month)
  {
    var year := reference.year;
    var month := reference.month;
    ghost var fy := FullYear(year);
    var firstDay := NewDate(year, month, 1);
    var lastDay := NewDate(year, month + 1, 0);
    var daysInMonth := lastDay.day;
    var startingDay := WeekDay(firstDay);
    MakeDateInRange(fy, month, 1);
    LastDayOfMonth(fy, month);
    assert startingDay == StartingDay(fy, month) && daysInMonth == DaysInMonth(fy, month);

    days := [];

    // previous month's days
    var prevMonth := NewDate(year, month, 0);
    var prevMonthDays := prevMonth.day;
    LastDayOfPrevMonth(fy, month);
    assert prevMonthDays == DaysInMonth(PrevMonth(fy, month).0, PrevMonth(fy, month).1);
    var i := startingDay - 1;
    while i >= 0
      invariant -1 <= i < startingDay
      invariant |days| == startingDay - 1 - i
      invariant forall k :: 0 <= k < |days| ==> days[k] == CellAt(fy, month, k)
    {
      LeadingCellPushed(fy, month, i);
      days := days + [CalendarDay(NewDate(year, month - 1, prevMonthDays - i), false)];
      i := i - 1;
    }

    // current month's days
    i := 1;
    while i <= daysInMonth
      invariant 1 <= i <= daysInMonth + 1
      invariant |days| == startingDay + i - 1
      invariant forall k :: 0 <= k < |days| ==> days[k] == CellAt(fy, month, k)
    {
      CurrentCellPushed(fy, month, i);
      days := days + [CalendarDay(NewDate(year, month, i), true)];
      i := i + 1;
    }

    // next month's days, up to 42 cells
    var remainingDays := GridSize - |days|;
    i := 1;
    while i <= remainingDays
      invariant 1 <= i <= remainingDays + 1
      invariant |days| == startingDay + daysInMonth + i - 1
      invariant forall k :: 0 <= k < |days| ==> days[k] == CellAt(fy, month, k)
    {
      TrailingCellPushed(fy, month, i);
      days := days + [CalendarDay(NewDate(year, month + 1, i), false)];
      i := i + 1;
    }
    assert |days| == GridSize;
  }

  /** The cell the first loop pushes for counter i is grid cell StartingDay - 1 - i. */
  lemma LeadingCellPushed(year: int, month: int, i: int)
    requires 0 <= month < 12 && 0 <= i < StartingDay(year, month)
    ensures var prev := PrevMonth(year, month);
            CalendarDay(MakeDate(year, month - 1, DaysInMonth(prev.0, prev.1) - i), false)
            == CellAt(year, month, StartingDay(year, month) - 1 - i)
  {
    var sd := StartingDay(year, month);
    var d := MakeDate(year, month, -i);
    MakeDateShiftBack(year, month, -i);
    MakeDateStaysInMonth(year, month, -i);
    assert !(d.year == year && d.month == month);
    assert MakeDate(year, month, (sd - 1 - i) - sd + 1) == d;
  }

  /** The cell the second loop pushes for day i is grid cell StartingDay + i - 1. */
  lemma CurrentCellPushed(year: int, month: int, i: int)
    requires 0 <= month < 12 && 1 <= i <= DaysInMonth(year, month)
    ensures CalendarDay(MakeDate(year, month, i), true) == CellAt(year, month, StartingDay(year, month) + i - 1)
  {
    var sd := StartingDay(year, month);
    var d := MakeDate(year, month, i);
    MakeDateStaysInMonth(year, month, i);
    assert d.year == year && d.month == month;
    assert MakeDate(year, month, (sd + i - 1) - sd + 1) == d;
  }

  /** The cell the third loop pushes for day i is grid cell StartingDay + DaysInMonth + i - 1. */
  lemma TrailingCellPushed(year: int, month: int, i: int)
    requires 0 <= month < 12 && 1 <= i
    ensures CalendarDay(MakeDate(year, month + 1, i), false)
            == CellAt(year, month, StartingDay(year, month) + DaysInMonth(year, month) + i - 1)
  {
    var n, sd := DaysInMonth(year, month), StartingDay(year, month);
    var k := sd + n + i - 1;
    assert k - sd + 1 == n + i;
    var d := MakeDate(year, month, n + i);
    MakeDateShift(year, month, i);
    MakeDateStaysInMonth(year, month, n + i);
    assert !(d.year == year && d.month == month);
    assert MakeDate(year, month, k - StartingDay(year, month) + 1) == d;
    assert CellAt(year, month, k) == CalendarDay(d, false);
  }

  // ---------------------------------------------------------------------------
  // The three parts of the grid

  /** The first StartingDay cells are the last StartingDay days of the previous
      month, ascending, not current. */
  lemma GridLeadingCell(year: int, month: int, k: int)
    requires 0 <= month < 12 && 0 <= k < StartingDay(year, month)
    ensures var prev := PrevMonth(year, month);
            MonthGrid(year, month)[k]
            == CalendarDay(Date(prev.0, prev.1, DaysInMonth(prev.0, prev.1) - StartingDay(year, month) + 1 + k), false)
  {
    var prev := PrevMonth(year, month);
    var j := k - StartingDay(year, month) + 1;
    MakeDateShiftBack(year, month, j);
    MakeDateInPrevMonth(year, month, DaysInMonth(prev.0, prev.1) + j);
    MakeDateStaysInMonth(year, month, j);
  }

  /** The next DaysInMonth cells are days 1 .. DaysInMonth of the month, current. */
  lemma GridCurrentCell(year: int, month: int, k: int)
    requires 0 <= month < 12
    requires StartingDay(year, month) <= k < StartingDay(year, month) + DaysInMonth(year, month)
    ensures MonthGrid(year, month)[k] == CalendarDay(Date(year, month, k - StartingDay(year, month) + 1), true)
  {
    MakeDateInRange(year, month, k - StartingDay(year, month) + 1);
  }

  /** The remaining cells are days 1 .. TrailingCount of the next month, not current. */
  lemma GridTrailingCell(year: int, month: int, k: int)
    requires 0 <= month < 12
    requires StartingDay(year, month) + DaysInMonth(year, month) <= k < GridSize
    ensures var next := NextMonth(year, month);
            MonthGrid(year, month)[k]
            == CalendarDay(Date(next.0, next.1, k - StartingDay(year, month) - DaysInMonth(year, month) + 1), false)
  {
    var n := DaysInMonth(year, month);
    var i := k - StartingDay(year, month) - n + 1;
    var _ := TrailingCount(year, month);
    MakeDateShift(year, month, i);
    MakeDateInNextMonth(year, month, i);
    MakeDateStaysInMonth(year, month, n + i);
  }

  /** January's leading cells are in December of the previous year. */
  lemma JanuaryLeadsFromDecember(year: int, k: int)
    requires 0 <= k < StartingDay(year, 0)
    ensures MonthGrid(year, 0)[k].date.year == year - 1
    ensures MonthGrid(year, 0)[k].date.month == 11
  {
    GridLeadingCell(year, 0, k);
  }

  /** December's trailing cells are in January of the next year. */
  lemma DecemberTrailsIntoJanuary(year: int, k: int)
    requires StartingDay(year, 11) + 31 <= k < GridSize
    ensures MonthGrid(year, 11)[k].date.year == year + 1
    ensures MonthGrid(year, 11)[k].date.month == 0
  {
    GridTrailingCell(year, 11, k);
  }

  // ---------------------------------------------------------------------------
  // Consecutive days, week days, order

  /** Every cell holds a valid date whose day number is k days past the grid's first. */
  lemma GridDayNumber(year: int, month: int, k: int)
    requires 0 <= month < 12 && 0 <= k < GridSize
    ensures ValidDate(MonthGrid(year, month)[k].date)
    ensures DayNumber(MonthGrid(year, month)[k].date)
            == DayNumber(Date(year, month, 1)) - StartingDay(year, month) + k
  {
    MonthStartCarry(year, month);
    MakeDateDayNumber(year, month, k - StartingDay(year, month) + 1);
  }

  /** Each cell is the calendar day after the one before it. */
  lemma GridConsecutive(year: int, month: int, k: int)
    requires 0 <= month < 12 && 0 <= k < GridSize - 1
    ensures MonthGrid(year, month)[k + 1].date == NextDay(MonthGrid(year, month)[k].date)
  {
    GridDayNumber(year, month, k);
    GridDayNumber(year, month, k + 1);
    NextDayUnique(MonthGrid(year, month)[k].date, MonthGrid(year, month)[k + 1].date);
  }

  /** Cell k falls on week day k mod 7, under the Su .. Sa header. */
  lemma GridWeekDay(year: int, month: int, k: int)
    requires 0 <= month < 12 && 0 <= k < GridSize
    ensures WeekDay(MonthGrid(year, month)[k].date) == k % 7
  {
    GridDayNumber(year, month, k);
    WeekDayAfter(DayNumber(Date(year, month, 1)), k);
  }

  /** Counting k days on from the Sunday on or before day number `first`
      lands on week day k mod 7. */
  lemma WeekDayAfter(first: int, k: int)
    ensures (first - (first + 4) % 7 + k + 4) % 7 == k % 7
  {
    var q := (first + 4) / 7;
    assert first - (first + 4) % 7 + 4 == 7 * q;
    assert (7 * q + k) % 7 == k % 7;
  }

  /** The cells are in strictly ascending calendar order, hence 42 distinct dates. */
  lemma GridAscending(year: int, month: int, i: int, j: int)
    requires 0 <= month < 12 && 0 <= i < j < GridSize
    ensures Precedes(MonthGrid(year, month)[i].date, MonthGrid(year, month)[j].date)
  {
    var a, b := MonthGrid(year, month)[i].date, MonthGrid(year, month)[j].date;
    GridDayNumber(year, month, i);
    GridDayNumber(year, month, j);
    if !Precedes(a, b) && a != b {
      DayNumberOrder(b, a);
    }
  }

  // ---------------------------------------------------------------------------
  // The current-month cells as a whole

  /** The dates of the cells tagged isCurrentMonth, in grid order. */
  function CurrentMonthDates(cells: seq<CalendarDay>): seq<Date> {
    if cells == [] then []
    else (if cells[0].isCurrentMonth then [cells[0].date] else []) + CurrentMonthDates(cells[1..])
  }

  /** Days skipped + 1 .. DaysInMonth of the month, ascending. */
  function DaysFrom(year: int, month: int, skipped: nat): seq<Date>
    requires 0 <= month < 12
  {
    var left := if skipped < DaysInMonth(year, month) then DaysInMonth(year, month) - skipped else 0;
    seq(left, i => Date(year, month, skipped + 1 + i))
  }

  lemma DaysFromStep(year: int, month: int, skipped: nat)
    requires 0 <= month < 12 && skipped < DaysInMonth(year, month)
    ensures DaysFrom(year, month, skipped) == [Date(year, month, skipped + 1)] + DaysFrom(year, month, skipped + 1)
  {
  }

  /** Cell k is tagged current exactly in the middle part, and then holds day k - StartingDay + 1. */
  lemma GridCellIsCurrent(year: int, month: int, k: int)
    requires 0 <= month < 12 && 0 <= k < GridSize
    ensures MonthGrid(year, month)[k].isCurrentMonth
            <==> StartingDay(year, month) <= k < StartingDay(year, month) + DaysInMonth(year, month)
    ensures MonthGrid(year, month)[k].isCurrentMonth
            ==> MonthGrid(year, month)[k].date == Date(year, month, k - StartingDay(year, month) + 1)
  {
    var sd, n := StartingDay(year, month), DaysInMonth(year, month);
    if k < sd {
      GridLeadingCell(year, month, k);
    } else if k < sd + n {
      GridCurrentCell(year, month, k);
    } else {
      GridTrailingCell(year, month, k);
    }
  }

  /** The current-month dates of the grid from cell k on. */
  lemma {:induction false} CurrentMonthSuffix(year: int, month: int, k: int)
    requires 0 <= month < 12 && 0 <= k <= GridSize
    ensures CurrentMonthDates(MonthGrid(year, month)[k..])
            == DaysFrom(year, month, if k < StartingDay(year, month) then 0 else k - StartingDay(year, month))
    decreases GridSize - k
  {
    var g := MonthGrid(year, month);
    var sd := StartingDay(year, month);
    if k < GridSize {
      assert g[k..][1..] == g[k + 1..];
      CurrentMonthSuffix(year, month, k + 1);
      GridCellIsCurrent(year, month, k);
      if g[k].isCurrentMonth {
        DaysFromStep(year, month, k - sd);
      }
    }
  }

  /** The isCurrentMonth cells are exactly days 1 .. DaysInMonth of the month, in order. */
  lemma CurrentMonthCells(year: int, month: int)
    requires 0 <= month < 12
    ensures CurrentMonthDates(MonthGrid(year, month)) == seq(DaysInMonth(year, month), i => Date(year, month, i + 1))
  {
    assert DaysFrom(year, month, 0) == seq(DaysInMonth(year, month), i => Date(year, month, i + 1));
    CurrentMonthSuffix(year, month, 0);
    assert MonthGrid(year, month)[0..] == MonthGrid(year, month);
  }

  /** February has 29 current cells in 2024 and 28 in 2023. */
  lemma FebruaryCells()
    ensures |CurrentMonthDates(MonthGrid(2024, 1))| == 29
    ensures |CurrentMonthDates(MonthGrid(2023, 1))| == 28
  {
    CurrentMonthCells(2024, 1);
    CurrentMonthCells(2023, 1);
  }

  // ---------------------------------------------------------------------------
  // Month navigation

  /** The "previous month" chevron: new Date(year, month - 1), the first of the month
      before, in the year the constructor reads. */
  function PrevMonthStart(current: Date): (r: Date)
    requires 0 <= current.month < 12
    ensures var prev := PrevMonth(FullYear(current.year), current.month);
            r == Date(prev.0, prev.1, 1)
  {
    MakeDateInPrevMonth(FullYear(current.year), current.month, 1);
    NewDate(current.year, current.month - 1, 1)
  }

  /** The "next month" chevron: new Date(year, month + 1), the first of the month
      after, in the year the constructor reads. */
  function NextMonthStart(current: Date): (r: Date)
    requires 0 <= current.month < 12
    ensures var next := NextMonth(FullYear(current.year), current.month);
            r == Date(next.0, next.1, 1)
  {
    MakeDateInNextMonth(FullYear(current.year), current.month, 1);
    NewDate(current.year, current.month + 1, 1)
  }

  /** Next then previous returns to the first of the month shown, in the year the
      constructor reads, except from December of year -1: next shows January of
      year 0, which the second press reads as 1900 (NavigationAtYearMinusOne). */
  lemma NextPrevRoundTrip(current: Date)
    requires 0 <= current.month < 12
    requires !(current.year == -1 && current.month == 11)
    ensures PrevMonthStart(NextMonthStart(current)) == Date(FullYear(current.year), current.month, 1)
  {
  }

  /** Previous then next returns to the first of the month shown, in the year the
      constructor reads, except from January of year 100: previous shows December of
      year 99, which the second press reads as 1999 (NavigationAtYear100). */
  lemma PrevNextRoundTrip(current: Date)
    requires 0 <= current.month < 12
    requires !(current.year == 100 && current.month == 0)
    ensures NextMonthStart(PrevMonthStart(current)) == Date(FullYear(current.year), current.month, 1)
  {
  }

  /** From December of year -1, next shows January of year 0, and previous from there
      shows December 1899. */
  lemma NavigationAtYearMinusOne()
    ensures NextMonthStart(Date(-1, 11, 1)) == Date(0, 0, 1)
    ensures PrevMonthStart(Date(0, 0, 1)) == Date(1899, 11, 1)
  {
  }

  /** From January of year 100, previous shows December of year 99, and next from there
      shows January 2000. */
  lemma NavigationAtYear100()
    ensures PrevMonthStart(Date(100, 0, 1)) == Date(99, 11, 1)
    ensures NextMonthStart(Date(99, 11, 1)) == Date(2000, 0, 1)
  {
  }
}
