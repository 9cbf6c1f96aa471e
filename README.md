# Attendance calendar and punch-in tracker, modelled in Dafny

This project models the logic inside three React components of an HR/CRM dashboard:

- **The attendance calendars.** The admin view (`admin-attendance.tsx`) and the
  employee view (`user-attendance.tsx`) each build a 42-cell month grid from the month
  on display. The grid is laid out in six rows of seven days, starting on Sunday. It
  holds the tail of the previous month, every day of the current month, and the head
  of the next month, and each cell is tagged as in the current month or not. Both
  views step between months with the chevron buttons. The employee view highlights
  one selected day, and the admin view toggles one status filter.
- **The status badges.** Both views have a `getStatusBadge`, which maps an attendance
  status label to a badge style and shows the label itself.
- **The punch-in tracker.** This is the header widget (`punch-in-tracker.tsx`). It
  punches in and out and takes and ends a break. A once-a-second clock re-renders it,
  and after each render an effect recomputes today's worked time and the running
  break's time.

The JavaScript `Date` arithmetic the calendars rely on is modelled explicitly, in
module `Calendar`.

- A date is a `(year, month, day)` triple with a 0-based month, as `getFullYear`,
  `getMonth` and `getDate` return it.
- `NewDate` is the `new Date(year, month, day)` constructor. It has two steps:
  - `FullYear` reads a year from 0 to 99 as 1900 + year, as section 21.4.2.1 of
    ECMA-262 prescribes.
  - `MakeDate` then carries a month outside 0..11 into the year and a day outside the
    month into the neighbouring months, as MakeDay (section 21.4.1.28) does.
- On the grid and chevron paths every year argument comes from `getFullYear()` of
  the displayed month, so for a displayed year from 0 to 99 the grid is built for
  1900 + year, while the header, which formats the displayed month itself, still
  shows the year as it is. `BuildMonthGrid` and the chevrons read the year through
  `FullYear` as the source does. Going back from January of year 100 shows December
  of year 99, and the next press of either chevron reads that year as 1999
  (`CalendarGrid.NavigationAtYear100`). Going forward from December of year -1 shows
  January of year 0, and going back from there shows December 1899
  (`CalendarGrid.NavigationAtYearMinusOne`).
- `WeekDay` is `getDay`: 0 is Sunday. The epoch, 1 January 1970, is a Thursday.
- Day numbers use the proleptic Gregorian calendar of ECMA-262 section 21.4.1.

Modules:

| file | module | what |
|---|---|---|
| `calendar.dfy` | `Calendar` | dates, leap years, month lengths, day numbers, week days, `MakeDate` normalisation |
| `month_grid.dfy` | `CalendarGrid` | `getDaysInMonth`, shared by both views, and month navigation |
| `status_badge.dfy` | `StatusBadge` | the two `getStatusBadge` switches |
| `admin_attendance.dfy` | `AdminAttendance` | the admin view's state: displayed month and status filter |
| `user_attendance.dfy` | `UserAttendance` | the employee view's state: displayed month and selected day |
| `punch_in_tracker.dfy` | `PunchInTracker` | the tracker's state machine and elapsed-time arithmetic |
| `wrappers.dfy` | `Wrappers` | `Option` |

Both views' `getDaysInMonth` are the same text, so `CalendarGrid.MonthGrid` and
`CalendarGrid.BuildMonthGrid` model both. Each grid row below cites one copy only.
The same statement holds for the other copy: admin-attendance.tsx:84-122 is line for
line user-attendance.tsx:75-113, nine lines earlier.

`BuildMonthGrid` is a method with the source's three loops. It is proved equal to
the specification function `MonthGrid`, which places cell `k` at
`MakeDate(year, month, k - startingDay + 1)` for the year as the constructor reads it. The lemmas then prove the following
about `MonthGrid`:

- the grid has 42 cells;
- each of its three parts holds the expected days;
- the days are consecutive and strictly ascending;
- cell `k` falls on week day `k % 7`;
- the current-month cells are exactly the days 1..N of the month, in order.

The tracker is a `class` with the component's state variables as fields. Each event
handler is a method, and so is the effect. `Valid()` is the invariant that every
handler preserves. Times are integers in milliseconds, and `now` is a parameter.
Elapsed times are held as whole minutes. The source holds them as fractional hours,
`hours + minutes / 60`. The two carry the same information.

## Model

| member | source | states |
|---|---|---|
| Calendar.DaysInYear | src/features/attendance/admin-attendance.tsx:88-89 | a year has 366 days exactly when it is a Gregorian leap year, else 365 |
| Calendar.DaysInMonth | src/features/attendance/admin-attendance.tsx:88-89 | every month has between 28 and 31 days |
| Calendar.WeekDay | src/features/attendance/admin-attendance.tsx:90 | `getDay` is a week-day index in 0..6 |
| Calendar.WeekDayOfEpoch | src/features/attendance/admin-attendance.tsx:90 | 1 January 1970 is a Thursday (4), anchoring `getDay` |
| Calendar.PrevMonth | src/features/attendance/admin-attendance.tsx:279 | the month before January is December of the previous year; otherwise the month index drops by one |
| Calendar.NextMonth | src/features/attendance/admin-attendance.tsx:289 | the month after December is January of the next year; otherwise the month index rises by one |
| Calendar.YearLength | src/features/attendance/admin-attendance.tsx:88 | the day number of 1 January of the next year is this year's plus the length of this year |
| Calendar.NextMonthFirst | src/features/attendance/admin-attendance.tsx:88 | the first of the next month comes exactly one month length after the first of this month |
| Calendar.MonthsFitInYear | src/features/attendance/admin-attendance.tsx:88 | each month ends within its year |
| Calendar.MonthOrder | src/features/attendance/admin-attendance.tsx:88 | earlier months of a year end before later ones start |
| Calendar.YearOrder | src/features/attendance/admin-attendance.tsx:88 | earlier years end before later ones start |
| Calendar.DayNumberOrder | src/features/attendance/admin-attendance.tsx:97-119 | a calendar-earlier valid date has a smaller day number |
| Calendar.DayNumberInjective | src/features/attendance/admin-attendance.tsx:97-119 | distinct valid dates have distinct day numbers |
| Calendar.MonthStart | src/features/attendance/admin-attendance.tsx:279 | MakeDay's month carry: the first of month `m` of year `y` is a valid first-of-month whose absolute month index `12*year+month` equals `12*y+m` |
| Calendar.MonthStartCarry | src/features/attendance/admin-attendance.tsx:279-289 | carrying months `m-1` and `m+1` lands on the first of the previous and of the next month, across year ends |
| Calendar.MakeDate | src/features/attendance/admin-attendance.tsx:87-116 | MakeDay, the constructor after its year rule: any year, month and day yield a valid calendar date |
| Calendar.CarryDays | src/features/attendance/admin-attendance.tsx:88 | carrying an out-of-range day through the neighbouring months yields a valid date |
| Calendar.CarryDaysDayNumber | src/features/attendance/admin-attendance.tsx:88 | the carried date lies `day - 1` days after the first of the month |
| Calendar.MakeDateDayNumber | src/features/attendance/admin-attendance.tsx:87-116 | MakeDay's date for day `d` lies `d - 1` days after the first of the carried month, for every integer `d` |
| Calendar.MakeDateIs | src/features/attendance/admin-attendance.tsx:87-116 | the constructed date is the unique valid date with that day number |
| Calendar.MakeDateInRange | src/features/attendance/admin-attendance.tsx:87 | an in-range triple is returned unchanged |
| Calendar.MakeDateShift | src/features/attendance/admin-attendance.tsx:116 | day `d` of month `m+1` is day `DIM(m)+d` of month `m` |
| Calendar.MakeDateShiftBack | src/features/attendance/admin-attendance.tsx:99 | day `DIM(m-1)+d` of month `m-1` is day `d` of month `m` |
| Calendar.MakeDateInPrevMonth | src/features/attendance/admin-attendance.tsx:99 | an in-range day of month `m-1` is that day of the previous month, across January |
| Calendar.MakeDateInNextMonth | src/features/attendance/admin-attendance.tsx:116 | an in-range day of month `m+1` is that day of the next month, across December |
| Calendar.LastDayOfMonth | src/features/attendance/admin-attendance.tsx:88-89 | `new Date(y, m+1, 0)` is the last day of month `m`, so its `getDate` is the month's length |
| Calendar.LastDayOfPrevMonth | src/features/attendance/admin-attendance.tsx:95-96 | `new Date(y, m, 0)` is the last day of the previous month |
| Calendar.MakeDateStaysInMonth | src/features/attendance/admin-attendance.tsx:105-107 | `new Date(y, m, d)` stays in month `m` exactly when `1 <= d <= DIM` |
| Calendar.NextDay | src/features/attendance/admin-attendance.tsx:105-116 | the next day is a valid, later date, one day number on |
| Calendar.NextDayUnique | src/features/attendance/admin-attendance.tsx:105-116 | a valid date is the next day exactly when its day number is one more |
| Calendar.FullYear | src/features/attendance/admin-attendance.tsx:87-88 | the constructor reads a year from 0 to 99 as 1900 + year and keeps any other, so what it reads is never a two-digit year |
| Calendar.FullYearIdempotent | src/features/attendance/admin-attendance.tsx:87-88 | reading a year already read leaves it unchanged |
| Calendar.NewDate | src/features/attendance/admin-attendance.tsx:87-116 | `new Date(y, m, d)` always yields a valid calendar date |
| Calendar.NewDateDayNumber | src/features/attendance/admin-attendance.tsx:87-116 | `new Date(y, m, d)` lies `d - 1` days after the first of month `m` of the year the constructor reads |
| Calendar.TwoDigitYears | src/features/attendance/admin-attendance.tsx:279-289 | `new Date(99, 11, 1)` is 1 December 1999, while `new Date(100, -1, 1)` is 1 December of year 99 |
| CalendarGrid.StartingDay | src/features/attendance/admin-attendance.tsx:87-90 | the number of leading cells is a week-day index in 0..6 |
| CalendarGrid.TrailingCount | src/features/attendance/admin-attendance.tsx:113 | between 5 and 14 trailing cells, never more than the next month has days |
| CalendarGrid.CellAt | src/features/attendance/admin-attendance.tsx:97-119 | the reference cell `k` is a valid calendar date |
| CalendarGrid.MonthGrid | src/features/attendance/admin-attendance.tsx:84-122 | the reference grid has 42 cells, each a valid calendar date |
| CalendarGrid.BuildMonthGrid | src/features/attendance/admin-attendance.tsx:84-122 | the three loops yield exactly the 42-cell reference grid of the month, in the year the Date constructor reads (the same text is user-attendance.tsx:75-113) |
| CalendarGrid.LeadingCellPushed | src/features/attendance/admin-attendance.tsx:97-101 | the `i`-th leading push is the grid's cell `startingDay-1-i` |
| CalendarGrid.CurrentCellPushed | src/features/attendance/admin-attendance.tsx:105-109 | the push of day `i` is the grid's cell `startingDay+i-1` |
| CalendarGrid.TrailingCellPushed | src/features/attendance/admin-attendance.tsx:113-118 | the push of next-month day `i` is the grid's cell `startingDay+DIM+i-1` |
| CalendarGrid.GridLeadingCell | src/features/attendance/admin-attendance.tsx:95-101 | the first `startingDay` cells are the last days of the previous month, in order, not current |
| CalendarGrid.GridCurrentCell | src/features/attendance/user-attendance.tsx:96-101 | the middle cells are days 1..DIM of the month, tagged current |
| CalendarGrid.GridTrailingCell | src/features/attendance/admin-attendance.tsx:113-119 | the remaining cells are days 1.. of the next month, not current |
| CalendarGrid.JanuaryLeadsFromDecember | src/features/attendance/admin-attendance.tsx:99 | January's leading cells are December of the previous year |
| CalendarGrid.DecemberTrailsIntoJanuary | src/features/attendance/admin-attendance.tsx:116 | December's trailing cells are January of the next year |
| CalendarGrid.GridDayNumber | src/features/attendance/user-attendance.tsx:75-113 | every cell is a valid date, `k - startingDay` days after the first of the month |
| CalendarGrid.GridConsecutive | src/features/attendance/user-attendance.tsx:75-113 | each cell's date is the day after the previous cell's |
| CalendarGrid.GridWeekDay | src/features/attendance/admin-attendance.tsx:296-305 | cell `k` falls on week day `k % 7`, so each cell sits under its Su..Sa header in the seven-column grid |
| CalendarGrid.GridAscending | src/features/attendance/user-attendance.tsx:75-113 | cell dates strictly ascend, so no date appears twice |
| CalendarGrid.GridCellIsCurrent | src/features/attendance/admin-attendance.tsx:98-117 | a cell is tagged current exactly when its index is in `startingDay .. startingDay+DIM-1`, and then holds day `k-startingDay+1` of the month |
| CalendarGrid.CurrentMonthSuffix | src/features/attendance/admin-attendance.tsx:105-119 | the current-tagged dates of any suffix of the grid are the month's days from that point |
| CalendarGrid.CurrentMonthCells | src/features/attendance/admin-attendance.tsx:104-110 | the current-tagged cells are exactly days 1..DIM of the month, in order |
| CalendarGrid.FebruaryCells | src/features/attendance/user-attendance.tsx:78-80 | February 2024 shows 29 current cells and February 2023 shows 28 |
| CalendarGrid.PrevMonthStart | src/features/attendance/user-attendance.tsx:153 | the previous-month button shows the first of the month before, in the year the constructor reads |
| CalendarGrid.NextMonthStart | src/features/attendance/user-attendance.tsx:163 | the next-month button shows the first of the month after, in the year the constructor reads |
| CalendarGrid.NextPrevRoundTrip | src/features/attendance/user-attendance.tsx:153-163 | next then previous returns to the first of month m of FullYear(y), for every month except December of year -1 |
| CalendarGrid.PrevNextRoundTrip | src/features/attendance/user-attendance.tsx:153-163 | previous then next returns to the first of month m of FullYear(y), for every month except January of year 100 |
| CalendarGrid.NavigationAtYearMinusOne | src/features/attendance/admin-attendance.tsx:279-289 | from December of year -1, next shows January of year 0, and previous from there shows December 1899 |
| CalendarGrid.NavigationAtYear100 | src/features/attendance/admin-attendance.tsx:279-289 | from January of year 100, previous shows December of year 99, and next from there shows January 2000 |
| StatusBadge.AdminStatusBadge | src/features/attendance/admin-attendance.tsx:53-68 | the admin badge always shows the status label itself |
| StatusBadge.UserStatusBadge | src/features/attendance/user-attendance.tsx:58-69 | the employee badge always shows the status label itself |
| StatusBadge.Classify | src/features/attendance/admin-attendance.tsx:53-68 | a table classifier colours a listed label by its entry and any other label as secondary |
| StatusBadge.AdminBadgeIsTable | src/features/attendance/admin-attendance.tsx:53-68 | the admin switch is the table Present→green, Late→yellow, Absent→destructive, On Leave→blue, Remote→purple, else secondary |
| StatusBadge.UserBadgeIsTable | src/features/attendance/user-attendance.tsx:58-69 | the employee switch is the table Present→green, Late→destructive, Weekend→secondary, else secondary |
| StatusBadge.AdminFallback | src/features/attendance/admin-attendance.tsx:65-66 | an admin badge is secondary exactly when the label is none of the five, compared case-sensitively |
| StatusBadge.UserFallback | src/features/attendance/user-attendance.tsx:64-67 | an employee badge is secondary exactly when the label is neither Present nor Late |
| StatusBadge.ViewsAgree | src/features/attendance/user-attendance.tsx:58-69 | the two views render a label identically exactly when it is not Late, Absent, On Leave or Remote |
| AdminAttendance.OptionValues | src/features/attendance/admin-attendance.tsx:76-82 | the filter buttons select exactly the values present, absent, late, leave and remote |
| AdminAttendance.InitialAdminView | src/features/attendance/admin-attendance.tsx:71-72 | the view opens on today's month with no status selected |
| AdminAttendance.IsHighlighted | src/features/attendance/admin-attendance.tsx:175-181 | a button is highlighted only while a status is selected |
| AdminAttendance.AtMostOneHighlighted | src/features/attendance/admin-attendance.tsx:175-181 | two highlighted buttons have the same value, so at most one is highlighted |
| AdminAttendance.ClickStatus | src/features/attendance/admin-attendance.tsx:183-185 | clicking a status button leaves the displayed month as it was |
| AdminAttendance.ClickHighlights | src/features/attendance/admin-attendance.tsx:178-185 | after a click, a button is highlighted exactly when it is the clicked one and that one was not highlighted before |
| AdminAttendance.ClickTwice | src/features/attendance/admin-attendance.tsx:183-185 | clicking the same button twice restores the filter if it was empty or that button; otherwise it clears it |
| AdminAttendance.ClickKeepsOption | src/features/attendance/admin-attendance.tsx:175-185 | a click on a button keeps the filter empty or one of the buttons' values |
| AdminAttendance.ShowPrevMonth | src/features/attendance/admin-attendance.tsx:279 | shows the valid first of the month one before, counting months across years, and keeps the status filter |
| AdminAttendance.ShowNextMonth | src/features/attendance/admin-attendance.tsx:289 | shows the valid first of the month one after, counting months across years, and keeps the status filter |
| UserAttendance.InitialView | src/features/attendance/user-attendance.tsx:72-73 | the view opens on today's month with 3 August 2025 selected |
| UserAttendance.IsSelectedDate | src/features/attendance/user-attendance.tsx:123-127 | a date is highlighted exactly when its day, month and year all equal the selected date's |
| UserAttendance.SelectDay | src/features/attendance/user-attendance.tsx:189 | clicking a cell selects its date and keeps the displayed month |
| UserAttendance.ShowPrevMonth | src/features/attendance/user-attendance.tsx:153 | shows the valid first of the month one before, counting months across years, and keeps the selection |
| UserAttendance.ShowNextMonth | src/features/attendance/user-attendance.tsx:163 | shows the valid first of the month one after, counting months across years, and keeps the selection |
| UserAttendance.NextThenPrev | src/features/attendance/user-attendance.tsx:153-163 | next then previous shows the first of month m of FullYear(y), with the selection kept, for every month except December of year -1 |
| UserAttendance.VisibleGrid | src/features/attendance/user-attendance.tsx:129 | the displayed grid has 42 cells, and its current-month cells are exactly days 1..DIM of the displayed month, in order |
| UserAttendance.AtMostOneSelectedCell | src/features/attendance/user-attendance.tsx:123-129 | at most one cell of the displayed grid is highlighted |
| UserAttendance.SelectHighlightsClickedCell | src/features/attendance/user-attendance.tsx:185-189 | after clicking cell `k`, cell `j` is highlighted exactly when `j == k` |
| PunchInTracker.TruncRemHour | src/components/punch-in-tracker.tsx:33 | JavaScript's `diff % 3600000` has the sign of `diff`, magnitude below an hour, and leaves a difference under an hour unchanged |
| PunchInTracker.ElapsedMinutesAsWritten | src/components/punch-in-tracker.tsx:31-34 | the source's hours-plus-minutes arithmetic, in minutes, is negative exactly when the difference is |
| PunchInTracker.AsWrittenWholeMinutes | src/components/punch-in-tracker.tsx:31-34 | for a non-negative difference, the source's hours-plus-minutes arithmetic is the whole minutes elapsed |
| PunchInTracker.AsWrittenNegative | src/components/punch-in-tracker.tsx:31-34 | for a negative difference it is negative, and -61 minutes for any lag under a minute |
| PunchInTracker.AsWrittenHalfSecondBehind | src/components/punch-in-tracker.tsx:31-34 | a clock reading half a second before the start gives -61 minutes |
| PunchInTracker.ElapsedMinutes | src/components/punch-in-tracker.tsx:31-34 | elapsed whole minutes, never negative: zero for a non-positive difference, else the floor of the difference in minutes |
| PunchInTracker.ElapsedMinutesAgrees | src/components/punch-in-tracker.tsx:31-34 | the corrected arithmetic equals the source's wherever the difference is non-negative |
| PunchInTracker.ElapsedMinutesMonotone | src/components/punch-in-tracker.tsx:29-43 | elapsed minutes never decrease as the clock advances |
| PunchInTracker.Tracker.constructor | src/components/punch-in-tracker.tsx:11-17 | the tracker starts not punched in, not on break, with nothing elapsed |
| PunchInTracker.Tracker.PunchIn | src/components/punch-in-tracker.tsx:45-50 | punching in sets the start time to now, unless already punched in; nothing else changes |
| PunchInTracker.Tracker.PunchOut | src/components/punch-in-tracker.tsx:52-58 | punching out clears the punch, the break and the break time, and keeps today's time |
| PunchInTracker.Tracker.TakeBreak | src/components/punch-in-tracker.tsx:60-69 | starts a break when punched in and off break, ends it when on break, and does nothing otherwise |
| PunchInTracker.Tracker.RecomputeElapsed | src/components/punch-in-tracker.tsx:29-43 | today's time counts from the start time when set, the break's time only while on break, and all else is kept |
| PunchInTracker.Tracker.Tick | src/components/punch-in-tracker.tsx:20-43 | a tick reads the clock, then recomputes both elapsed times against the new reading |
| PunchInTracker.Tracker.BreakButtonShown | src/components/punch-in-tracker.tsx:116 | the break button is shown exactly when a start time is set |
| PunchInTracker.Tracker.PressMainButton | src/components/punch-in-tracker.tsx:132-133 | the main button punches out when punched in and in otherwise; a fresh punch-in shows zero minutes |
| PunchInTracker.Tracker.PressBreakButton | src/components/punch-in-tracker.tsx:116-118 | the break button toggles the break, keeps the punch, and a fresh break shows zero minutes |

## Left out

- Rendering is not modelled: the JSX, CSS classes, icons, the attendance tables and
  the mock attendance records.
- Locale formatting is not modelled: `formatMonth`, `formatDate` and `formatTime`.
  They are display only.
- `formatHours` and the tracker's fractional hours are not modelled, because they are
  floating point. The model keeps the same value as whole minutes.
- Time of day and time zones are not modelled, and neither are dates outside the
  range JavaScript can represent. A `Date` is a calendar day, so `getDaysInMonth`
  reads only its year and month.
- The wall clock (`new Date()`) and the `setInterval` timer are not modelled directly.
  Each reading is a `now` parameter, and each timer firing is a call to
  `Tracker.Tick`.
- React's render scheduling is not modelled. Every event handler is followed by one
  run of the effect, because each one changes at least one of the effect's
  dependencies.
- The admin view's `viewMode`, `searchTerm` and export button are not modelled. They
  affect only rendering. `viewMode` picks the table or the calendar, and the chevrons
  exist only in the calendar. `searchTerm` is the search box's text, and the table
  does not filter by it.
- The selected status filter is modelled as a toggle only. The source never applies
  it to the table.
- The status option list's labels and colours are display only.
- `PunchInTracker.Tracker.RecomputeElapsed`, `Tick`, `PressMainButton` and
  `PressBreakButton` use the corrected `ElapsedMinutes`. The as-written arithmetic
  is `ElapsedMinutesAsWritten`; see Findings.
- Other files of the repository are not part of this model: the employee dashboard,
  the tasks drawer, the API configuration, the sidebar and the route files.

## Findings

| source | as written | input that shows it | evidently intended | confidence | as-written member | corrected member |
|---|---|---|---|---|---|---|
| src/components/punch-in-tracker.tsx:29-43 | Right after Punch In or Take Break, the effect re-runs against the clock reading of the last tick, which is up to a second older than the new start time. `diff` is then negative, and `Math.floor` of a negative hour count is -1. | `diff = -500` (start time half a second after the last tick) gives -1 hour and -1 minute, that is -61 minutes | elapsed time is never negative; a start time after the clock reading counts as zero minutes | not executed | PunchInTracker.AsWrittenHalfSecondBehind | PunchInTracker.ElapsedMinutes |
