/** Calendar-day arithmetic of JavaScript's Date object, restricted to whole days:
    the proleptic Gregorian calendar, the day number of a date counted from
    1 January 1970 (Day / DayFromYear in section 21.4.1 of ECMA-262), the week day
    (WeekDay, 0 = Sunday) and the constructor `new Date(y, m, d)`: its two-digit
    year rule (FullYear), then MakeDay (MakeDate), which carries an out-of-range
    month into the year and an out-of-range day into the neighbouring months. */
module Calendar {

  /** A date as the getters getFullYear(), getMonth() and getDate() report it:
      the month counts from 0 (January) to 11 (December). */
  datatype Date = Date(year: int, month: int, day: int)

  predicate IsLeapYear(year: int) {
    year % 4 == 0 && (year % 100 != 0 || year % 400 == 0)
  }

  function DaysInYear(year: int): (n: int)
    ensures n == 365 || n == 366
    ensures n == 366 <==> IsLeapYear(year)
  {
    if IsLeapYear(year) then 366 else 365
  }

  function DaysInMonth(year: int, month: int): (n: int)
    requires 0 <= month < 12
    ensures 28 <= n <= 31
  {
    if month == 1 then (if IsLeapYear(year) then 29 else 28)
    else if month == 3 || month == 5 || month == 8 || month == 10 then 30
    else 31
  }

  /** A date whose fields are what the getters of a Date object can return. */
  predicate ValidDate(d: Date) {
    0 <= d.month < 12 && 1 <= d.day <= DaysInMonth(d.year, d.month)
  }

  /** Day number of 1 January of `year` (DayFromYear; `/` floors for a positive divisor). */
  function DayFromYear(year: int): int {
    365 * (year - 1970) + (year - 1969) / 4 - (year - 1901) / 100 + (year - 1601) / 400
  }

  /** Days of `year` before the first of `month` (the month table of MonthFromTime). */
  function DaysBeforeMonth(year: int, month: int): int
    requires 0 <= month < 12
  {
    var leap := if IsLeapYear(year) && month >= 2 then 1 else 0;
    leap +
    if month == 0 then 0 else if month == 1 then 31 else if month == 2 then 59
    else if month == 3 then 90 else if month == 4 then 120 else if month == 5 then 151
    else if month == 6 then 181 else if month == 7 then 212 else if month == 8 then 243
    else if month == 9 then 273 else if month == 10 then 304 else 334
  }

  function DayNumber(d: Date): int
    requires 0 <= d.month < 12
  {
    DayFromYear(d.year) + DaysBeforeMonth(d.year, d.month) + d.day - 1
  }

  /** getDay(): 0 = Sunday .. 6 = Saturday; 1 January 1970 was a Thursday. */
  function WeekDay(d: Date): (w: int)
    requires 0 <= d.month < 12
    ensures 0 <= w < 7
  {
    (DayNumber(d) + 4) % 7
  }

  /** Lexicographic order of (year, month, day): strictly earlier on the calendar. */
  predicate Precedes(a: Date, b: Date) {
    a.year < b.year ||
    (a.year == b.year && (a.month < b.month || (a.month == b.month && a.day < b.day)))
  }

  /** The month before / after `month` of `year`, with the year carried. */
  function PrevMonth(year: int, month: int): (r: (int, int))
    requires 0 <= month < 12
    ensures 0 <= r.1 < 12
    ensures month == 0 ==> r == (year - 1, 11)
    ensures month != 0 ==> r == (year, month - 1)
  {
    if month == 0 then (year - 1, 11) else (year, month - 1)
  }

  function NextMonth(year: int, month: int): (r: (int, int))
    requires 0 <= month < 12
    ensures 0 <= r.1 < 12
    ensures month == 11 ==> r == (year + 1, 0)
    ensures month != 11 ==> r == (year, month + 1)
  {
    if month == 11 then (year + 1, 0) else (year, month + 1)
  }

  // ---------------------------------------------------------------------------
  // Lengths of years and months in day numbers

  lemma YearLength(year: int)
    ensures DayFromYear(year + 1) == DayFromYear(year) + DaysInYear(year)
  {
    LeapCountStep4(year);
    LeapCountStep100(year);
    LeapCountStep400(year);
    DivisibilityChain(year);
    var b4 := if year % 4 == 0 then 1 else 0;
    var b100 := if year % 100 == 0 then 1 else 0;
    var b400 := if year % 400 == 0 then 1 else 0;
    assert DaysInYear(year) == 365 + b4 - b100 + b400;
  }

  /** Multiples of 400 are multiples of 100, which are multiples of 4. */
  lemma DivisibilityChain(year: int)
    ensures year % 400 == 0 ==> year % 100 == 0
    ensures year % 100 == 0 ==> year % 4 == 0
  {
    if year % 400 == 0 {
      MultipleOf400(year / 400);
    }
    if year % 100 == 0 {
      MultipleOf100(year / 100);
    }
  }

  lemma MultipleOf400(k: int)
    ensures (400 * k) % 100 == 0
  {
    assert 400 * k == 100 * (4 * k);
  }

  lemma MultipleOf100(k: int)
    ensures (100 * k) % 4 == 0
  {
    assert 100 * k == 4 * (25 * k);
  }

  lemma LeapCountStep4(year: int)
    ensures (year - 1968) / 4 == (year - 1969) / 4 + (if year % 4 == 0 then 1 else 0)
  {
  }

  lemma LeapCountStep100(year: int)
    ensures (year - 1900) / 100 == (year - 1901) / 100 + (if year % 100 == 0 then 1 else 0)
  {
  }

  lemma LeapCountStep400(year: int)
    ensures (year - 1600) / 400 == (year - 1601) / 400 + (if year % 400 == 0 then 1 else 0)
  {
  }

  /** The first of the next month lies DaysInMonth days after the first of this one. */
  lemma NextMonthFirst(year: int, month: int)
    requires 0 <= month < 12
    ensures DayNumber(Date(NextMonth(year, month).0, NextMonth(year, month).1, 1))
         == DayNumber(Date(year, month, 1)) + DaysInMonth(year, month)
  {
    if month == 11 {
      YearLength(year);
    }
  }

  lemma MonthsFitInYear(year: int, month: int)
    requires 0 <= month < 12
    ensures DaysBeforeMonth(year, month) + DaysInMonth(year, month) <= DaysInYear(year)
  {
  }

  lemma MonthOrder(year: int, m1: int, m2: int)
    requires 0 <= m1 < m2 < 12
    ensures DaysBeforeMonth(year, m1) + DaysInMonth(year, m1) <= DaysBeforeMonth(year, m2)
  {
  }

  lemma {:induction false} YearOrder(y1: int, y2: int)
    requires y1 < y2
    ensures DayFromYear(y1) + DaysInYear(y1) <= DayFromYear(y2)
    decreases y2 - y1
  {
    YearLength(y1);
    if y1 + 1 < y2 {
      YearOrder(y1 + 1, y2);
    }
  }

  /** Day numbers follow the calendar order. */
  lemma DayNumberOrder(a: Date, b: Date)
    requires ValidDate(a) && ValidDate(b) && Precedes(a, b)
    ensures DayNumber(a) < DayNumber(b)
  {
    if a.year < b.year {
      MonthsFitInYear(a.year, a.month);
      YearOrder(a.year, b.year);
    } else if a.month < b.month {
      MonthOrder(a.year, a.month, b.month);
    }
  }

  /** Two different dates never share a day number. */
  lemma DayNumberInjective(a: Date, b: Date)
    requires ValidDate(a) && ValidDate(b) && a != b
    ensures DayNumber(a) != DayNumber(b)
  {
    if Precedes(a, b) {
      DayNumberOrder(a, b);
    } else {
      DayNumberOrder(b, a);
    }
  }

  // ---------------------------------------------------------------------------
  // The normalising constructor

  /** The first of month `month` of `year` after the month carry of MakeDay:
      year + floor(month / 12), month modulo 12. */
  function MonthStart(year: int, month: int): (r: Date)
    ensures ValidDate(r) && r.day == 1
    ensures 12 * r.year + r.month == 12 * year + month
  {
    Date(year + month / 12, month % 12, 1)
  }

  lemma MonthStartCarry(year: int, month: int)
    requires 0 <= month < 12
    ensures MonthStart(year, month) == Date(year, month, 1)
    ensures var prev := PrevMonth(year, month); MonthStart(year, month - 1) == Date(prev.0, prev.1, 1)
    ensures var next := NextMonth(year, month); MonthStart(year, month + 1) == Date(next.0, next.1, 1)
  {
  }

  /** MakeDay: any integers, normalised to a valid date (MakeDateDayNumber states
      where). This is `new Date(year, month, day)` without the year rule: see NewDate. */
  function MakeDate(year: int, month: int, day: int): (r: Date)
    ensures ValidDate(r)
  {
    CarryDays(year + month / 12, month % 12, day)
  }

  /** Moves `day` month by month into range. */
  function CarryDays(year: int, month: int, day: int): (r: Date)
    requires 0 <= month < 12
    ensures ValidDate(r)
    decreases if day < 1 then 1 else 0, if day < 1 then 1 - day else day
  {
    if day < 1 then
      var prev := PrevMonth(year, month);
      CarryDays(prev.0, prev.1, day + DaysInMonth(prev.0, prev.1))
    else if day > DaysInMonth(year, month) then
      var next := NextMonth(year, month);
      CarryDays(next.0, next.1, day - DaysInMonth(year, month))
    else
      Date(year, month, day)
  }

  /** The carry keeps the day number: the result is `day` - 1 days after the first of the month. */
  lemma {:induction false} CarryDaysDayNumber(year: int, month: int, day: int)
    requires 0 <= month < 12
    ensures DayNumber(CarryDays(year, month, day)) == DayNumber(Date(year, month, 1)) + day - 1
    decreases if day < 1 then 1 else 0, if day < 1 then 1 - day else day
  {
    if day < 1 {
      var prev := PrevMonth(year, month);
      NextMonthFirst(prev.0, prev.1);
      assert NextMonth(prev.0, prev.1) == (year, month);
      CarryDaysDayNumber(prev.0, prev.1, day + DaysInMonth(prev.0, prev.1));
    } else if day > DaysInMonth(year, month) {
      var next := NextMonth(year, month);
      NextMonthFirst(year, month);
      CarryDaysDayNumber(next.0, next.1, day - DaysInMonth(year, month));
    }
  }

  /** MakeDay yields the valid date `day` - 1 days after the first of the carried month, whatever the signs and sizes of `month` and `day`. */
  lemma MakeDateDayNumber(year: int, month: int, day: int)
    ensures DayNumber(MakeDate(year, month, day)) == DayNumber(MonthStart(year, month)) + day - 1
  {
    CarryDaysDayNumber(year + month / 12, month % 12, day);
  }

  /** The unique valid date with a given day number is what MakeDate returns. */
  lemma MakeDateIs(year: int, month: int, day: int, d: Date)
    requires ValidDate(d)
    requires DayNumber(d) == DayNumber(MonthStart(year, month)) + day - 1
    ensures MakeDate(year, month, day) == d
  {
    var r := MakeDate(year, month, day);
    MakeDateDayNumber(year, month, day);
    if r != d {
      DayNumberInjective(r, d);
    }
  }

  /** A date already in range is left as it is. */
  lemma MakeDateInRange(year: int, month: int, day: int)
    requires ValidDate(Date(year, month, day))
    ensures MakeDate(year, month, day) == Date(year, month, day)
  {
    MonthStartCarry(year, month);
    MakeDateIs(year, month, day, Date(year, month, day));
  }

  /** Day `day` of the month after `month` is day DaysInMonth + `day` of `month`. */
  lemma MakeDateShift(year: int, month: int, day: int)
    requires 0 <= month < 12
    ensures MakeDate(year, month + 1, day) == MakeDate(year, month, DaysInMonth(year, month) + day)
  {
    var d := MakeDate(year, month, DaysInMonth(year, month) + day);
    MonthStartCarry(year, month);
    NextMonthFirst(year, month);
    MakeDateDayNumber(year, month, DaysInMonth(year, month) + day);
    MakeDateIs(year, month + 1, day, d);
  }

  /** Day `day` of the month before `month` is day `day` - DaysInMonth(previous) of `month`. */
  lemma MakeDateShiftBack(year: int, month: int, day: int)
    requires 0 <= month < 12
    ensures MakeDate(year, month - 1, DaysInMonth(PrevMonth(year, month).0, PrevMonth(year, month).1) + day)
         == MakeDate(year, month, day)
  {
    var prev := PrevMonth(year, month);
    var d := MakeDate(year, month, day);
    MonthStartCarry(year, month);
    NextMonthFirst(prev.0, prev.1);
    assert NextMonth(prev.0, prev.1) == (year, month);
    MakeDateDayNumber(year, month, day);
    MakeDateIs(year, month - 1, DaysInMonth(prev.0, prev.1) + day, d);
  }

  /** `new Date(year, month - 1, day)` for an in-range day lands in the previous month,
      carrying the year back from January to December. */
  lemma MakeDateInPrevMonth(year: int, month: int, day: int)
    requires 0 <= month < 12
    requires 1 <= day <= DaysInMonth(PrevMonth(year, month).0, PrevMonth(year, month).1)
    ensures MakeDate(year, month - 1, day) == Date(PrevMonth(year, month).0, PrevMonth(year, month).1, day)
  {
    var prev := PrevMonth(year, month);
    MonthStartCarry(year, month);
    MakeDateIs(year, month - 1, day, Date(prev.0, prev.1, day));
  }

  /** `new Date(year, month + 1, day)` for an in-range day lands in the next month,
      carrying the year forward from December to January. */
  lemma MakeDateInNextMonth(year: int, month: int, day: int)
    requires 0 <= month < 12
    requires 1 <= day <= DaysInMonth(NextMonth(year, month).0, NextMonth(year, month).1)
    ensures MakeDate(year, month + 1, day) == Date(NextMonth(year, month).0, NextMonth(year, month).1, day)
  {
    var next := NextMonth(year, month);
    MonthStartCarry(year, month);
    MakeDateIs(year, month + 1, day, Date(next.0, next.1, day));
  }

  /** `new Date(year, month + 1, 0)` is the last day of `month`, so its getDate()
      is the length of the month. */
  lemma LastDayOfMonth(year: int, month: int)
    requires 0 <= month < 12
    ensures MakeDate(year, month + 1, 0) == Date(year, month, DaysInMonth(year, month))
  {
    MakeDateShift(year, month, 0);
    MakeDateInRange(year, month, DaysInMonth(year, month));
  }

  /** `new Date(year, month, 0)` is the last day of the previous month. */
  lemma LastDayOfPrevMonth(year: int, month: int)
    requires 0 <= month < 12
    ensures var prev := PrevMonth(year, month);
            MakeDate(year, month, 0) == Date(prev.0, prev.1, DaysInMonth(prev.0, prev.1))
  {
    var prev := PrevMonth(year, month);
    MakeDateShiftBack(year, month, 0);
    MakeDateInPrevMonth(year, month, DaysInMonth(prev.0, prev.1));
  }

  /** The result of `new Date(year, month, day)` lies in `month` of `year` exactly when
      `day` is between 1 and the month's length. */
  lemma MakeDateStaysInMonth(year: int, month: int, day: int)
    requires 0 <= month < 12
    ensures var r := MakeDate(year, month, day);
            (r.year == year && r.month == month) <==> 1 <= day <= DaysInMonth(year, month)
  {
    var r := MakeDate(year, month, day);
    MonthStartCarry(year, month);
    MakeDateDayNumber(year, month, day);
  }

  // ---------------------------------------------------------------------------
  // The constructor's year rule

  /** How the Date constructor reads its year argument (section 21.4.2.1 of
      ECMA-262): a year from 0 to 99 stands for 1900 + year, any other is kept. */
  function FullYear(year: int): (y: int)
    ensures 0 <= year <= 99 ==> y == 1900 + year
    ensures !(0 <= year <= 99) ==> y == year
    ensures !(0 <= y <= 99)
  {
    if 0 <= year <= 99 then 1900 + year else year
  }

  /** Reading a year twice changes nothing more. */
  lemma FullYearIdempotent(year: int)
    ensures FullYear(FullYear(year)) == FullYear(year)
  {
  }

  /** `new Date(year, month, day)`: the year rule, then MakeDay. */
  function NewDate(year: int, month: int, day: int): (r: Date)
    ensures ValidDate(r)
  {
    MakeDate(FullYear(year), month, day)
  }

  /** The constructed date lies `day` - 1 days after the first of the month, in the
      year the constructor reads. */
  lemma NewDateDayNumber(year: int, month: int, day: int)
    ensures DayNumber(NewDate(year, month, day)) == DayNumber(MonthStart(FullYear(year), month)) + day - 1
  {
    MakeDateDayNumber(FullYear(year), month, day);
  }

  /** Year 99 is read as 1999, although a month carry can produce a date in year 99. */
  lemma TwoDigitYears()
    ensures NewDate(99, 11, 1) == Date(1999, 11, 1)
    ensures NewDate(100, -1, 1) == Date(99, 11, 1)
  {
    MakeDateInRange(1999, 11, 1);
    MakeDateInPrevMonth(100, 0, 1);
  }

  // ---------------------------------------------------------------------------
  // The next calendar day

  function NextDay(d: Date): (r: Date)
    requires ValidDate(d)
    ensures ValidDate(r) && Precedes(d, r)
    ensures DayNumber(r) == DayNumber(d) + 1
  {
    if d.day < DaysInMonth(d.year, d.month) then
      Date(d.year, d.month, d.day + 1)
    else
      NextMonthFirst(d.year, d.month);
      var next := NextMonth(d.year, d.month);
      Date(next.0, next.1, 1)
  }

  /** The day after a valid date is the unique valid date one day number later. */
  lemma NextDayUnique(d: Date, e: Date)
    requires ValidDate(d) && ValidDate(e)
    ensures e == NextDay(d) <==> DayNumber(e) == DayNumber(d) + 1
  {
    if e != NextDay(d) {
      DayNumberInjective(e, NextDay(d));
    }
  }

  lemma WeekDayOfEpoch()
    ensures WeekDay(Date(1970, 0, 1)) == 4
  {
  }
}
