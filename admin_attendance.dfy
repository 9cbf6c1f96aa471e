/** State of the admin attendance view that the model covers: the displayed month
    of the calendar and the status filter selected in the side panel. */
module AdminAttendance {
  import opened Wrappers
  import opened Calendar
  import opened CalendarGrid

  /** One button of the status filter: its caption and the value it selects. */
  datatype StatusOption = StatusOption(caption: string, value: string)

  const StatusOptions: seq<StatusOption> := [
    StatusOption("Present", "present"),
    StatusOption("Absent", "absent"),
    StatusOption("Late", "late"),
    StatusOption("On Leave", "leave"),
    StatusOption("Remote", "remote")
  ]

  /** The values the filter buttons can select. */
  function OptionValues(): (values: set<string>)
    ensures values == {"present", "absent", "late", "leave", "remote"}
  {
    var values := set o | o in StatusOptions :: o.value;
    assert forall v :: v in values ==> v in {"present", "absent", "late", "leave", "remote"};
    assert StatusOptions[0].value in values && StatusOptions[1].value in values;
    assert StatusOptions[2].value in values && StatusOptions[3].value in values;
    assert StatusOptions[4].value in values;
    values
  }

  datatype AdminView = AdminView(currentMonth: Date, selectedStatus: Option<string>)

  /** The view opens on today's month with no status selected. */
  function InitialAdminView(today: Date): (v: AdminView)
    ensures v.currentMonth == today && v.selectedStatus == None
  {
    AdminView(today, None)
  }

  /** The filter holds nothing or the value of one of the buttons. */
  predicate FilterIsOption(view: AdminView) {
    view.selectedStatus == None || view.selectedStatus.value in OptionValues()
  }

  /** A filter button is drawn highlighted when its value is the selected one. */
  predicate IsHighlighted(view: AdminView, value: string)
    ensures IsHighlighted(view, value) ==> view.selectedStatus != None
  {
    view.selectedStatus == Some(value)
  }

  /** At most one filter button is highlighted at a time. */
  lemma AtMostOneHighlighted(view: AdminView, a: string, b: string)
    requires IsHighlighted(view, a) && IsHighlighted(view, b)
    ensures a == b
  {
  }

  /** Clicking a filter button: the selected option is deselected, any other is selected. */
  function ClickStatus(view: AdminView, value: string): (r: AdminView)
    ensures r.currentMonth == view.currentMonth
  {
    view.(selectedStatus := if view.selectedStatus == Some(value) then None else Some(value))
  }

  /** After a click on `value`, the only button that can be highlighted is `value`,
      and it is highlighted exactly when it was not before. */
  lemma ClickHighlights(view: AdminView, value: string, other: string)
    ensures IsHighlighted(ClickStatus(view, value), other)
            <==> other == value && !IsHighlighted(view, value)
  {
  }

  /** Clicking one of the buttons keeps the filter among the buttons' values. */
  lemma ClickKeepsOption(view: AdminView, value: string)
    requires FilterIsOption(view) && value in OptionValues()
    ensures FilterIsOption(ClickStatus(view, value))
  {
  }

  /** Two clicks on the same button restore the filter when nothing or that button
      was selected; if another button was selected, they end with nothing selected. */
  lemma ClickTwice(view: AdminView, value: string)
    ensures view.selectedStatus == None || view.selectedStatus == Some(value)
            ==> ClickStatus(ClickStatus(view, value), value) == view
    ensures view.selectedStatus != None && view.selectedStatus != Some(value)
            ==> ClickStatus(ClickStatus(view, value), value).selectedStatus == None
  {
  }

  /** The left chevron: the first of the previous month; the filter is kept. */
  function ShowPrevMonth(view: AdminView): (r: AdminView)
    requires 0 <= view.currentMonth.month < 12
    ensures r.selectedStatus == view.selectedStatus
    ensures 0 <= r.currentMonth.month < 12 && r.currentMonth.day == 1
    ensures 12 * r.currentMonth.year + r.currentMonth.month
            == 12 * FullYear(view.currentMonth.year) + view.currentMonth.month - 1
  {
    view.(currentMonth := PrevMonthStart(view.currentMonth))
  }

  /** The right chevron: the first of the next month; the filter is kept. */
  function ShowNextMonth(view: AdminView): (r: AdminView)
    requires 0 <= view.currentMonth.month < 12
    ensures r.selectedStatus == view.selectedStatus
    ensures 0 <= r.currentMonth.month < 12 && r.currentMonth.day == 1
    ensures 12 * r.currentMonth.year + r.currentMonth.month
            == 12 * FullYear(view.currentMonth.year) + view.currentMonth.month + 1
  {
    view.(currentMonth := NextMonthStart(view.currentMonth))
  }
}
