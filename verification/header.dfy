/** Navigation and the title line of the calendar header
    (src/components/calendar/CalendarHeader.tsx).  Day and week views step with
    `new Date(year, month, day ± k)`, which lands on local midnight; month and
    agenda views step with date-fns `addMonths`/`subMonths`, which keep the
    time of day and clamp the day to the target month. */
module Header {
  import opened Dates
  import opened Strings

  datatype View = DayView | WeekView | MonthView | AgendaView

  /** Midnight of the date that lies k days from t's date. */
  function ShiftDays(t: DateTime, k: int): (r: DateTime)
    requires t.date.Valid()
    ensures r.Valid() && r.hour == 0 && r.minute == 0
    ensures DayNumber(r.date) == DayNumber(t.date) + k
  {
    AddDaysNumber(t.date, k);
    DateTime(AddDays(t.date, k), 0, 0)
  }

  /** t moved by n months, keeping the time of day. */
  function ShiftMonths(t: DateTime, n: int): (r: DateTime)
    requires t.Valid()
    ensures r.Valid() && r.hour == t.hour && r.minute == t.minute
    ensures MonthIndex(r.date) == MonthIndex(t.date) + n
    ensures r.date.day == t.date.day || r.date.day == DaysInMonth(r.date.year, r.date.month)
  {
    DateTime(AddMonths(t.date, n), t.hour, t.minute)
  }

  /** `handleNext`. */
  function Next(view: View, t: DateTime): (r: DateTime)
    requires t.Valid()
    ensures r.Valid()
    ensures view == DayView ==> DayNumber(r.date) == DayNumber(t.date) + 1 && r.hour == 0 && r.minute == 0
    ensures view == WeekView ==> DayNumber(r.date) == DayNumber(t.date) + 7 && r.hour == 0 && r.minute == 0
    ensures view in {MonthView, AgendaView} ==>
              MonthIndex(r.date) == MonthIndex(t.date) + 1 && r.hour == t.hour && r.minute == t.minute
    ensures TimeBefore(t, r)
  {
    var r :=
      match view
      case DayView => ShiftDays(t, 1)
      case WeekView => ShiftDays(t, 7)
      case _ => ShiftMonths(t, 1);
    if view in {DayView, WeekView} then
      BeforeIffDayNumberLess(t.date, r.date);
      r
    else
      MonthIndexBefore(t.date, r.date);
      r
  }

  /** `handlePrevious`. */
  function Previous(view: View, t: DateTime): (r: DateTime)
    requires t.Valid()
    ensures r.Valid()
    ensures view == DayView ==> DayNumber(r.date) == DayNumber(t.date) - 1 && r.hour == 0 && r.minute == 0
    ensures view == WeekView ==> DayNumber(r.date) == DayNumber(t.date) - 7 && r.hour == 0 && r.minute == 0
    ensures view in {MonthView, AgendaView} ==>
              MonthIndex(r.date) == MonthIndex(t.date) - 1 && r.hour == t.hour && r.minute == t.minute
    ensures TimeBefore(r, t)
  {
    var r :=
      match view
      case DayView => ShiftDays(t, -1)
      case WeekView => ShiftDays(t, -7)
      case _ => ShiftMonths(t, -1);
    if view in {DayView, WeekView} then
      BeforeIffDayNumberLess(r.date, t.date);
      r
    else
      MonthIndexBefore(r.date, t.date);
      r
  }

  /** In day and week views, previous undoes next and next undoes previous,
      up to the time of day, which both reset to midnight. */
  lemma PreviousNextInverse(view: View, t: DateTime)
    requires t.Valid() && view in {DayView, WeekView}
    ensures Previous(view, Next(view, t)) == DateTime(t.date, 0, 0)
    ensures Next(view, Previous(view, t)) == DateTime(t.date, 0, 0)
  {
    var k := if view == DayView then 1 else 7;
    AddDaysCompose(t.date, k, -k);
    AddDaysCompose(t.date, -k, k);
  }

  /** In month and agenda views, previous undoes next whenever the day of the
      month exists in every month (no clamping). */
  lemma PreviousNextMonths(view: View, t: DateTime)
    requires t.Valid() && view in {MonthView, AgendaView} && t.date.day <= 28
    ensures Previous(view, Next(view, t)) == t
  {
    AddMonthsRoundTrip(t.date, 1);
  }

  /** The day view steps to the calendar day after (before) the current one. */
  lemma NextDayStepsOneDay(t: DateTime)
    requires t.Valid()
    ensures Next(DayView, t).date == NextDay(t.date)
    ensures Previous(DayView, t).date == PrevDay(t.date)
  {
    NextDayNumber(t.date);
    PrevDayNumber(t.date);
    DayNumberInjective(Next(DayView, t).date, NextDay(t.date));
    DayNumberInjective(Previous(DayView, t).date, PrevDay(t.date));
  }

  // ---------------------------------------------------------------------------
  // Day stepping as written, on two-digit years
  // ---------------------------------------------------------------------------

  /** Day and week stepping exactly as written: the year, month and shifted
      day are fed back through the Date constructor. */
  function ShiftDaysAsWritten(t: DateTime, k: int): (r: DateTime)
    requires t.date.Valid()
    ensures r.Valid() && r.hour == 0 && r.minute == 0
    ensures !(0 <= t.date.year <= 99) ==> r == ShiftDays(t, k)
  {
    var r := DateTime(DateCtor(t.date.year, t.date.month, t.date.day + k), 0, 0);
    if !(0 <= t.date.year <= 99) then
      var first := Date(t.date.year, t.date.month, 1);
      assert DayNumber(t.date) == DayNumber(first) + t.date.day - 1;
      DayNumberInjective(r.date, ShiftDays(t, k).date);
      r
    else r
  }

  /** For a date in the years 0 to 99 the written step leaves the century:
      one day after 10 March 0050 it shows 11 March 1950. */
  lemma TwoDigitYearStep()
    ensures ShiftDaysAsWritten(DateTime(Date(50, 3, 10), 12, 0), 1).date == Date(1950, 3, 11)
    ensures ShiftDays(DateTime(Date(50, 3, 10), 12, 0), 1).date == Date(50, 3, 11)
  {
    AddDaysWithinMonth(1950, 3, 10);
    AddDaysWithinMonth(50, 3, 9);
    AddDaysCompose(Date(50, 3, 1), 9, 1);
  }

  // ---------------------------------------------------------------------------
  // Header text
  // ---------------------------------------------------------------------------

  function MonthName(m: int): (s: string)
    ensures |s| >= 3
  {
    if m == 1 then "January" else if m == 2 then "February" else if m == 3 then "March"
    else if m == 4 then "April" else if m == 5 then "May" else if m == 6 then "June"
    else if m == 7 then "July" else if m == 8 then "August" else if m == 9 then "September"
    else if m == 10 then "October" else if m == 11 then "November" else "December"
  }

  function WeekdayName(w: int): (s: string)
    ensures |s| >= 6
  {
    if w == 0 then "Sunday" else if w == 1 then "Monday" else if w == 2 then "Tuesday"
    else if w == 3 then "Wednesday" else if w == 4 then "Thursday" else if w == 5 then "Friday"
    else "Saturday"
  }

  const WeekOfPrefix: string := "Week of "

  /** The `MMMM d, yyyy` rendering of a date. */
  function LongDate(d: Date): string
    requires d.Valid()
  {
    MonthName(d.month) + " " + NatToString(d.day as nat) + ", " + ZeroPad(EraYear(d.year), 4)
  }

  /** The `MMMM yyyy` rendering of a date. */
  function MonthYear(d: Date): string {
    MonthName(d.month) + " " + ZeroPad(EraYear(d.year), 4)
  }

  /** `getHeaderText`: the full day in day view, "Week of" and the day in week
      view, month and year otherwise. */
  function HeaderText(view: View, t: DateTime): (s: string)
    requires t.date.Valid()
    ensures view == DayView ==> s == WeekdayName(DayOfWeek(t.date)) + ", " + LongDate(t.date)
    ensures view == WeekView ==> s == WeekOfPrefix + LongDate(t.date)
    ensures view in {MonthView, AgendaView} ==> s == MonthYear(t.date)
  {
    match view
    case DayView => WeekdayName(DayOfWeek(t.date)) + ", " + LongDate(t.date)
    case WeekView => WeekOfPrefix + LongDate(t.date)
    case _ => MonthYear(t.date)
  }

  /** The month-view title names the month only: every day of a month, at any
      time, gets the same title, and the agenda view shares it. */
  lemma MonthTitleIgnoresDay(a: DateTime, b: DateTime)
    requires a.date.Valid() && b.date.Valid()
    requires a.date.year == b.date.year && a.date.month == b.date.month
    ensures HeaderText(MonthView, a) == HeaderText(MonthView, b) == HeaderText(AgendaView, a)
  {
  }

  /** The three renderings are told apart by their first three letters: no
      day title is a week or month title and no week title is a month title. */
  lemma TitlesDistinguishViews(a: DateTime, b: DateTime)
    requires a.date.Valid() && b.date.Valid()
    ensures HeaderText(DayView, a) != HeaderText(WeekView, b)
    ensures HeaderText(DayView, a) != HeaderText(MonthView, b)
    ensures HeaderText(WeekView, a) != HeaderText(MonthView, b)
  {
    var wd, mb := WeekdayName(DayOfWeek(a.date)), MonthName(b.date.month);
    NamePrefixes(DayOfWeek(a.date), b.date.month);
    assert HeaderText(DayView, a)[..3] == wd[..3];
    assert HeaderText(WeekView, a)[..3] == WeekOfPrefix[..3];
    assert HeaderText(WeekView, b)[..3] == WeekOfPrefix[..3];
    assert HeaderText(MonthView, b)[..3] == mb[..3];
  }

  /** Weekday names, month names and "Week of" differ within the first
      three letters. */
  lemma NamePrefixes(w: int, m: int)
    requires 0 <= w < 7 && 1 <= m <= 12
    ensures WeekdayName(w)[..3] != MonthName(m)[..3]
    ensures WeekdayName(w)[..3] != WeekOfPrefix[..3]
    ensures MonthName(m)[..3] != WeekOfPrefix[..3]
  {
    var wd, mn, wk := WeekdayName(w), MonthName(m), WeekOfPrefix;
    assert (wd[0], wd[1], wd[2]) != (mn[0], mn[1], mn[2]);
    assert (wd[0], wd[1], wd[2]) != (wk[0], wk[1], wk[2]);
    assert (mn[0], mn[1], mn[2]) != (wk[0], wk[1], wk[2]);
    assert wd[..3][0] == wd[0] && wd[..3][1] == wd[1] && wd[..3][2] == wd[2];
    assert mn[..3][0] == mn[0] && mn[..3][1] == mn[1] && mn[..3][2] == mn[2];
    assert wk[..3][0] == wk[0] && wk[..3][1] == wk[1] && wk[..3][2] == wk[2];
  }

  /** The day-view title is the weekday followed by the rest of the week-view
      title, so the two views differ only in their lead-in. */
  lemma DayTitleExtendsWeekTitle(t: DateTime)
    requires t.date.Valid()
    ensures HeaderText(WeekView, t)[|WeekOfPrefix|..] == HeaderText(DayView, t)[|WeekdayName(DayOfWeek(t.date))| + 2..]
  {
  }
}
