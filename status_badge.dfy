/** The attendance-status badges (`getStatusBadge`) of the two attendance views.
    Each maps a free-form status label to a badge style and always shows the
    label itself; each view has its own table of recognised labels, and every
    other label falls back to the neutral "secondary" style. */
module StatusBadge {

  /** The Tailwind colours and Badge variants the two switches use. */
  datatype BadgeStyle = Green | Yellow | Destructive | Blue | Purple | Secondary

  datatype Badge = Badge(style: BadgeStyle, text: string)

  /** The admin view's switch. */
  function AdminStatusBadge(status: string): (b: Badge)
    ensures b.text == status
  {
    if status == "Present" then Badge(Green, "Present")
    else if status == "Late" then Badge(Yellow, "Late")
    else if status == "Absent" then Badge(Destructive, "Absent")
    else if status == "On Leave" then Badge(Blue, "On Leave")
    else if status == "Remote" then Badge(Purple, "Remote")
    else Badge(Secondary, status)
  }

  /** The employee view's switch: "Weekend" has its own case, with the fallback's style. */
  function UserStatusBadge(status: string): (b: Badge)
    ensures b.text == status
  {
    if status == "Present" then Badge(Green, "Present")
    else if status == "Late" then Badge(Destructive, "Late")
    else if status == "Weekend" then Badge(Secondary, "Weekend")
    else Badge(Secondary, status)
  }

  /** A classifier driven by a label-to-style table, with the secondary fallback. */
  function Classify(styles: map<string, BadgeStyle>, status: string): (b: Badge)
    ensures b.text == status
    ensures status in styles ==> b.style == styles[status]
    ensures status !in styles ==> b.style == Secondary
  {
    Badge(if status in styles then styles[status] else Secondary, status)
  }

  const AdminStyles: map<string, BadgeStyle> :=
    map["Present" := Green, "Late" := Yellow, "Absent" := Destructive,
        "On Leave" := Blue, "Remote" := Purple]

  const UserStyles: map<string, BadgeStyle> :=
    map["Present" := Green, "Late" := Destructive, "Weekend" := Secondary]

  /** The admin switch is the table-driven classifier over AdminStyles. */
  lemma AdminBadgeIsTable(status: string)
    ensures AdminStatusBadge(status) == Classify(AdminStyles, status)
  {
  }

  /** The employee switch is the table-driven classifier over UserStyles. */
  lemma UserBadgeIsTable(status: string)
    ensures UserStatusBadge(status) == Classify(UserStyles, status)
  {
  }

  /** In the admin view a label gets the neutral style exactly when it is not one of
      the five recognised labels (matching is exact and case-sensitive). */
  lemma AdminFallback(status: string)
    ensures AdminStatusBadge(status).style == Secondary <==> status !in AdminStyles
  {
  }

  /** In the employee view every label other than "Present" and "Late" is neutral. */
  lemma UserFallback(status: string)
    ensures UserStatusBadge(status).style == Secondary <==> status != "Present" && status != "Late"
  {
  }

  /** The two views agree on a label exactly when it is not one that the admin view
      colours and the employee view does not colour the same way. */
  lemma ViewsAgree(status: string)
    ensures AdminStatusBadge(status) == UserStatusBadge(status)
            <==> status !in {"Late", "Absent", "On Leave", "Remote"}
  {
  }
}
