/** The month view (src/components/calendar/CalendarMonth.tsx): one cell per
    day of the 42-day grid, dimmed outside the displayed month, marked when it
    is the current or today's date, listing at most three of the day's events
    and counting the rest. */
module MonthView {
  import opened Dates
  import opened Wrappers
  import opened Events
  import opened CalendarUtils

  /** Events listed in a cell before the "+N more" line takes over. */
  const MaxShown: nat := 3

  datatype MonthCell = MonthCell(
    date: Date,
    dimmed: bool,
    selected: bool,
    today: bool,
    shown: seq<CalendarEvent>,
    more: Option<nat>
  )

  /** One cell: the day's events in input order, the first three listed and
      the number of the others reported when there are any. */
  function Cell(day: Date, current: Date, today: Date, events: seq<CalendarEvent>): (c: MonthCell)
    ensures c.date == day
    ensures c.dimmed <==> !IsCurrentMonth(day, current)
    ensures c.selected <==> day == current
    ensures c.today <==> day == today
    ensures |c.shown| == Min(MaxShown, |EventsForDay(events, day)|)
    ensures c.shown == EventsForDay(events, day)[..|c.shown|]
    ensures c.more.Some? <==> |EventsForDay(events, day)| > MaxShown
    ensures |c.shown| + (if c.more.Some? then c.more.value else 0) == |EventsForDay(events, day)|
  {
    var dayEvents := EventsForDay(events, day);
    var n := |dayEvents|;
    MonthCell(
      day,
      !IsCurrentMonth(day, current),
      day == current,
      day == today,
      if n <= MaxShown then dayEvents else dayEvents[..MaxShown],
      if n > MaxShown then Some(n - MaxShown) else None)
  }

  /** The cells of the month view for the current date. */
  function MonthCells(current: Date, today: Date, events: seq<CalendarEvent>): (cells: seq<MonthCell>)
    requires current.Valid()
    ensures |cells| == GridCells
    ensures forall i :: 0 <= i < |cells| ==> cells[i] == Cell(MonthGrid(current)[i], current, today, events)
  {
    var grid := MonthGrid(current);
    seq(|grid|, i requires 0 <= i < |grid| => Cell(grid[i], current, today, events))
  }

  /** The grid holds 42 different days, so no two cells show the same day. */
  lemma GridDaysDistinct(current: Date, i: int, j: int)
    requires current.Valid()
    requires 0 <= i < GridCells && 0 <= j < GridCells && i != j
    ensures MonthGrid(current)[i] != MonthGrid(current)[j]
  {
    var first := StartOfMonth(current);
    var lead := DayOfWeek(first);
    AddDaysNumber(first, i - lead);
    AddDaysNumber(first, j - lead);
  }

  /** Every event is listed or counted in at most one cell: the cells whose
      day list holds it are all the same cell. */
  lemma EventInAtMostOneCell(current: Date, today: Date, events: seq<CalendarEvent>, e: CalendarEvent, i: int, j: int)
    requires current.Valid()
    requires 0 <= i < GridCells && 0 <= j < GridCells
    ensures (e in EventsForDay(events, MonthCells(current, today, events)[i].date)
             && e in EventsForDay(events, MonthCells(current, today, events)[j].date)) ==> i == j
  {
    if i != j {
      GridDaysDistinct(current, i, j);
    }
  }

  /** Exactly one cell is selected: the one holding the current date, at
      position weekday-of-the-1st + day - 1. */
  lemma SelectedCellIsCurrentDay(current: Date, today: Date, events: seq<CalendarEvent>, i: int)
    requires current.Valid() && 0 <= i < GridCells
    ensures MonthCells(current, today, events)[i].selected <==>
              i == DayOfWeek(StartOfMonth(current)) + current.day - 1
  {
    var first := StartOfMonth(current);
    var lead := DayOfWeek(first);
    var cell := MonthGrid(current)[i];
    AddDaysNumber(first, i - lead);
    SameMonthOffset(current, first);
    if i == lead + current.day - 1 {
      DayNumberInjective(cell, current);
    }
  }

  /** A cell is dimmed exactly outside the run of the displayed month's days. */
  lemma DimmedOutsideMonth(current: Date, today: Date, events: seq<CalendarEvent>, i: int)
    requires current.Valid() && 0 <= i < GridCells
    ensures
      var lead := DayOfWeek(StartOfMonth(current));
      var inMonth := lead <= i < lead + DaysInMonth(current.year, current.month);
      MonthCells(current, today, events)[i].dimmed <==> !inMonth
  {
    MonthGridCurrentMonth(current, i);
  }
}
