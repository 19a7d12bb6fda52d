/** Date-grid generation and the mock-event generator of
    src/utils/calendarUtils.ts. */
module CalendarUtils {
  import opened Dates
  import opened Wrappers
  import opened Strings
  import opened Seqs
  import opened Events

  /** Cells shown by the month view: six rows of seven days. */
  const GridCells: nat := 42

  /** `isCurrentMonth` (date-fns isSameMonth): same year and same month. */
  predicate IsCurrentMonth(date: Date, current: Date) {
    date.year == current.year && date.month == current.month
  }

  // ---------------------------------------------------------------------------
  // generateCalendarMonth
  // ---------------------------------------------------------------------------

  /** `generateCalendarMonth`: the trailing days of the previous month up to the
      weekday of the 1st, the month's own days, then the next month's first days
      until 42 cells are filled.  The result is the 42 consecutive days whose
      cell number `DayOfWeek(1st)` holds the 1st, so the first cell is a Sunday. */
  function MonthGrid(date: Date): (cells: seq<Date>)
    requires date.Valid()
    ensures |cells| == GridCells
    ensures forall i :: 0 <= i < |cells| ==> cells[i].Valid()
    ensures forall i :: 0 <= i < |cells| ==>
              cells[i] == AddDays(StartOfMonth(date), i - DayOfWeek(StartOfMonth(date)))
    ensures DayOfWeek(cells[0]) == 0
  {
    var first := StartOfMonth(date);
    var lead := DayOfWeek(first);
    var a, b, c := LeadingDays(date), OwnDays(date), TrailingDays(date);
    var cells := a + b + c;
    assert forall i :: 0 <= i < |a| ==> cells[i] == a[i];
    assert forall i :: |a| <= i < |a| + |b| ==> cells[i] == b[i - |a|];
    assert forall i :: |a| + |b| <= i < |cells| ==> cells[i] == c[i - |a| - |b|];
    AddDaysWeekday(first, -lead);
    cells
  }

  /** The previous month's last days, one per weekday before the 1st: the
      days 1st - lead .. 1st - 1. */
  function LeadingDays(date: Date): (r: seq<Date>)
    requires date.Valid()
    ensures |r| == DayOfWeek(StartOfMonth(date))
    ensures forall i :: 0 <= i < |r| ==>
              r[i] == AddDays(StartOfMonth(date), i - DayOfWeek(StartOfMonth(date)))
  {
    var lead := DayOfWeek(StartOfMonth(date));
    var prev := AddMonths(date, -1);
    var daysInPrev := DaysInMonth(prev.year, prev.month);
    var r := seq(lead, i requires 0 <= i < lead => Date(prev.year, prev.month, daysInPrev - (lead - 1 - i)));
    forall i | 0 <= i < lead
      ensures r[i] == AddDays(StartOfMonth(date), i - lead)
    {
      LeadingCell(date, i);
    }
    r
  }

  /** The month's own days, 1 .. days-in-month, in order. */
  function OwnDays(date: Date): (r: seq<Date>)
    requires date.Valid()
    ensures |r| == DaysInMonth(date.year, date.month)
    ensures forall i :: 0 <= i < |r| ==> r[i] == AddDays(StartOfMonth(date), i)
  {
    var days := DaysInMonth(date.year, date.month);
    var r := seq(days, i requires 0 <= i < days => Date(date.year, date.month, i + 1));
    forall i | 0 <= i < days
      ensures r[i] == AddDays(StartOfMonth(date), i)
    {
      AddDaysWithinMonth(date.year, date.month, i);
    }
    r
  }

  /** The next month's first days, filling the grid to 42 cells. */
  function TrailingDays(date: Date): (r: seq<Date>)
    requires date.Valid()
    ensures |r| == GridCells - DayOfWeek(StartOfMonth(date)) - DaysInMonth(date.year, date.month)
    ensures forall i :: 0 <= i < |r| ==>
              r[i] == AddDays(StartOfMonth(date), DaysInMonth(date.year, date.month) + i)
  {
    var remaining := GridCells - DayOfWeek(StartOfMonth(date)) - DaysInMonth(date.year, date.month);
    var next := AddMonths(date, 1);
    var r := seq(remaining, i => Date(next.year, next.month, i + 1));
    forall i | 0 <= i < remaining
      ensures r[i] == AddDays(StartOfMonth(date), DaysInMonth(date.year, date.month) + i)
    {
      TrailingCell(date, i);
    }
    r
  }

  /** Leading cell i (counting from 0) is the day (lead - i) days before the 1st. */
  lemma LeadingCell(date: Date, i: int)
    requires date.Valid()
    requires 0 <= i < DayOfWeek(StartOfMonth(date))
    ensures
      var prev := AddMonths(date, -1);
      var cell := Date(prev.year, prev.month, DaysInMonth(prev.year, prev.month) - (DayOfWeek(StartOfMonth(date)) - 1 - i));
      cell == AddDays(StartOfMonth(date), i - DayOfWeek(StartOfMonth(date)))
  {
    var first := StartOfMonth(date);
    var lead := DayOfWeek(first);
    var prev := AddMonths(date, -1);
    var lastPrev := Date(prev.year, prev.month, DaysInMonth(prev.year, prev.month));
    var cell := Date(prev.year, prev.month, DaysInMonth(prev.year, prev.month) - (lead - 1 - i));
    assert PrevDay(first) == lastPrev;
    PrevDayNumber(first);
    SameMonthOffset(cell, lastPrev);
    AddDaysNumber(first, i - lead);
    DayNumberInjective(cell, AddDays(first, i - lead));
  }

  /** Trailing cell k (counting from 0) is day k + 1 of the next month.  A
      grid has at most 14 trailing cells; the fact holds for every k below 28,
      the length of the shortest month. */
  lemma TrailingCell(date: Date, k: int)
    requires date.Valid()
    requires 0 <= k < 28
    ensures
      var next := AddMonths(date, 1);
      Date(next.year, next.month, k + 1)
        == AddDays(StartOfMonth(date), DaysInMonth(date.year, date.month) + k)
  {
    var first := StartOfMonth(date);
    var days := DaysInMonth(date.year, date.month);
    var next := AddMonths(date, 1);
    var last := Date(date.year, date.month, days);
    var firstNext := Date(next.year, next.month, 1);
    var cell := Date(next.year, next.month, k + 1);
    assert NextDay(last) == firstNext;
    NextDayNumber(last);
    SameMonthOffset(last, first);
    SameMonthOffset(cell, firstNext);
    AddDaysNumber(first, days + k);
    DayNumberInjective(cell, AddDays(first, days + k));
  }

  /** Within one month, day numbers differ by the difference of the days. */
  lemma SameMonthOffset(a: Date, b: Date)
    requires a.Valid() && b.Valid()
    requires a.year == b.year && a.month == b.month
    ensures DayNumber(a) - DayNumber(b) == a.day - b.day
  {
  }

  /** A grid cell is in the displayed month exactly for the cells from the
      weekday of the 1st through the month's last day. */
  lemma MonthGridCurrentMonth(date: Date, i: int)
    requires date.Valid() && 0 <= i < GridCells
    ensures
      var lead := DayOfWeek(StartOfMonth(date));
      var inMonth := lead <= i < lead + DaysInMonth(date.year, date.month);
      IsCurrentMonth(MonthGrid(date)[i], date) <==> inMonth
  {
    var first := StartOfMonth(date);
    var lead := DayOfWeek(first);
    var days := DaysInMonth(date.year, date.month);
    var cell := MonthGrid(date)[i];
    AddDaysNumber(first, i - lead);
    if lead <= i < lead + days {
      var own := Date(date.year, date.month, i - lead + 1);
      DayNumberInjective(cell, own);
    } else {
      if cell.year == date.year && cell.month == date.month {
        SameMonthOffset(cell, first);
      }
    }
  }

  /** The grid exactly as written: every cell goes through the Date
      constructor with the year, month and day the three loops compute, so a
      cell whose year lies between 0 and 99 is moved to 1900 + year. */
  function MonthGridAsWritten(date: Date): (cells: seq<Date>)
    requires date.Valid()
    ensures |cells| == GridCells
    ensures forall i :: 0 <= i < |cells| ==> cells[i].Valid()
  {
    seq(GridCells, i requires 0 <= i < GridCells => CellAsWritten(date, i))
  }

  /** Cell i of the written grid: a leading cell is day (days in the previous
      month - (lead - 1 - i)) of the previous month, an own cell day i - lead + 1
      of the month, a trailing cell day i - lead - days + 1 of the next month. */
  function CellAsWritten(date: Date, i: int): (cell: Date)
    requires date.Valid() && 0 <= i < GridCells
    ensures cell.Valid()
  {
    var lead := DayOfWeek(StartOfMonth(date));
    var days := DaysInMonth(date.year, date.month);
    if i < lead then
      var prev := AddMonths(date, -1);
      DateCtor(prev.year, prev.month, DaysInMonth(prev.year, prev.month) - (lead - 1 - i))
    else if i < lead + days then
      DateCtor(date.year, date.month, i - lead + 1)
    else
      var next := AddMonths(date, 1);
      DateCtor(next.year, next.month, i - lead - days + 1)
  }

  /** Away from the years 0 to 99 the written grid is the intended one: the
      grid of a month borrows days from its two neighbouring months only, so
      every cell keeps its year. */
  lemma MonthGridAsWrittenAgrees(date: Date)
    requires date.Valid()
    requires date.year < -1 || date.year > 100
    ensures MonthGridAsWritten(date) == MonthGrid(date)
  {
    var first := StartOfMonth(date);
    var lead := DayOfWeek(first);
    var days := DaysInMonth(date.year, date.month);
    var written := MonthGridAsWritten(date);
    var grid := MonthGrid(date);
    forall i | 0 <= i < GridCells
      ensures written[i] == grid[i]
    {
      if i < lead {
        LeadingCell(date, i);
      } else if i < lead + days {
        AddDaysWithinMonth(date.year, date.month, i - lead);
      } else {
        TrailingCell(date, i - lead - days);
      }
    }
  }

  /** In the year 50 the written March grid shows March 1950: the cell that
      holds the 1st is 1 March 0050 in the intended grid and 1 March 1950 in
      the written one. */
  lemma MonthGridTwoDigitYear()
    ensures var lead := DayOfWeek(Date(50, 3, 1));
      && MonthGrid(Date(50, 3, 10))[lead] == Date(50, 3, 1)
      && MonthGridAsWritten(Date(50, 3, 10))[lead] == Date(1950, 3, 1)
  {
  }

  // ---------------------------------------------------------------------------
  // generateWeekDays and getEventsForDay
  // ---------------------------------------------------------------------------

  /** `generateWeekDays`: the Sunday-to-Saturday week containing date. */
  function WeekDays(date: Date): (days: seq<Date>)
    requires date.Valid()
    ensures |days| == 7
    ensures forall i :: 0 <= i < 7 ==> days[i].Valid() && DayOfWeek(days[i]) == i
    ensures days[DayOfWeek(date)] == date
    ensures forall i :: 0 <= i < 6 ==> days[i + 1] == NextDay(days[i])
  {
    var offset := DayOfWeek(date);
    var days := seq(7, i => AddDays(date, i - offset));
    WeekDaysFacts(date, days);
    days
  }

  lemma WeekDaysFacts(date: Date, days: seq<Date>)
    requires date.Valid() && |days| == 7
    requires forall i :: 0 <= i < 7 ==> days[i] == AddDays(date, i - DayOfWeek(date))
    ensures forall i :: 0 <= i < 7 ==> days[i].Valid()
    ensures forall i :: 0 <= i < 7 ==> DayOfWeek(days[i]) == i
    ensures forall i :: 0 <= i < 6 ==> days[i + 1] == NextDay(days[i])
  {
    WeekDaysValid(date, days);
    WeekDaysWeekday(date, days);
    forall i | 0 <= i < 6
      ensures days[i + 1] == NextDay(days[i])
    {
      WeekDayNext(date, i, days[i], days[i + 1]);
    }
  }

  lemma WeekDaysValid(date: Date, days: seq<Date>)
    requires date.Valid() && |days| == 7
    requires forall i :: 0 <= i < 7 ==> days[i] == AddDays(date, i - DayOfWeek(date))
    ensures forall i :: 0 <= i < 7 ==> days[i].Valid()
  {
  }

  lemma WeekDaysWeekday(date: Date, days: seq<Date>)
    requires date.Valid() && |days| == 7
    requires forall i :: 0 <= i < 7 ==> days[i] == AddDays(date, i - DayOfWeek(date))
    requires forall i :: 0 <= i < 7 ==> days[i].Valid()
    ensures forall i :: 0 <= i < 7 ==> DayOfWeek(days[i]) == i
  {
    forall i | 0 <= i < 7
      ensures DayOfWeek(days[i]) == i
    {
      WeekDay(date, i, days[i]);
    }
  }

  lemma WeekDay(date: Date, i: int, d: Date)
    requires date.Valid() && d == AddDays(date, i - DayOfWeek(date))
    requires 0 <= i < 7
    ensures d.Valid() && DayOfWeek(d) == i
  {
    AddDaysWeekday(date, i - DayOfWeek(date));
  }

  lemma WeekDayNext(date: Date, i: int, d: Date, e: Date)
    requires date.Valid()
    requires d == AddDays(date, i - DayOfWeek(date))
    requires e == AddDays(date, (i + 1) - DayOfWeek(date))
    ensures d.Valid() && e == NextDay(d)
  {
    AddDaysCompose(date, i - DayOfWeek(date), 1);
    NextDayIsAddOne(d);
  }

  /** `getEventsForDay`, as intended: the events starting on the given day, in
      input order. */
  function EventsForDay(events: seq<CalendarEvent>, day: Date): (r: seq<CalendarEvent>)
    ensures forall e :: e in r <==> e in events && StartDay(e) == day
    ensures |r| <= |events|
  {
    Filter(events, StartsOn(day))
  }

  /** Adding events to the end of the list adds their same-day events to the
      end of the result: the filter keeps input order. */
  lemma EventsForDayAppend(a: seq<CalendarEvent>, b: seq<CalendarEvent>, day: Date)
    ensures EventsForDay(a + b, day) == EventsForDay(a, day) + EventsForDay(b, day)
  {
    FilterConcat(a, b, StartsOn(day));
  }

  /** Every event starts on exactly one day: the events for a day and those
      for all other days split the list. */
  lemma EventsForDayPartition(events: seq<CalendarEvent>, day: Date)
    ensures |EventsForDay(events, day)| + |Filter(events, e => StartDay(e) != day)| == |events|
  {
    FilterPartition(events, StartsOn(day), e => StartDay(e) != day);
  }

  // ---------------------------------------------------------------------------
  // generateMockEvents
  // ---------------------------------------------------------------------------

  /** The five `Math.random()` results one mock event consumes, in the order
      the generator draws them. */
  datatype MockDraw = MockDraw(day: real, hour: real, duration: real, source: real, virtual: real)

  predicate UnitInterval(x: real) {
    0.0 <= x < 1.0
  }

  predicate ValidDraw(d: MockDraw) {
    UnitInterval(d.day) && UnitInterval(d.hour) && UnitInterval(d.duration)
    && UnitInterval(d.source) && UnitInterval(d.virtual)
  }

  /** `Math.floor(x * n)` for a draw x in [0, 1): an index below n. */
  function ScaledIndex(x: real, n: nat): (k: int)
    requires UnitInterval(x) && n > 0
    ensures 0 <= k < n
  {
    assert x * (n as real) < n as real by {
      assert (1.0 - x) * (n as real) > 0.0;
    }
    (x * (n as real)).Floor
  }

  function MockSource(x: real): Source
    requires UnitInterval(x)
  {
    var k := ScaledIndex(x, 3);
    if k == 0 then Teams else if k == 1 then Outlook else Manual
  }

  function MockColor(s: Source): string {
    if s == Teams then TeamsColor else if s == Outlook then OutlookColor else ManualColor
  }

  /** The i-th mock event of the month of base. */
  function MockEvent(base: Date, i: nat, d: MockDraw): (e: CalendarEvent)
    requires base.Valid() && ValidDraw(d)
    ensures e.id == "event-" + NatToString(i) && e.title == "Event " + NatToString(i + 1)
    ensures e.start.Valid() && e.end.Valid()
    ensures IsCurrentMonth(e.start.date, base) && e.end.date == e.start.date
    ensures 9 <= e.start.hour <= 16 && 1 <= e.end.hour - e.start.hour <= 3
    ensures e.start.minute == 0 && e.end.minute == 0
    ensures e.source.Some? && e.source.value != Google && e.color == Some(MockColor(e.source.value))
  {
    var offset := ScaledIndex(d.day, DaysInMonth(base.year, base.month));
    AddDaysWithinMonth(base.year, base.month, offset);
    var eventDate := AddDays(StartOfMonth(base), offset);
    var startHour := 9 + ScaledIndex(d.hour, 8);
    var durationHours := 1 + ScaledIndex(d.duration, 3);
    var source := MockSource(d.source);
    CalendarEvent(
      "event-" + NatToString(i),
      "Event " + NatToString(i + 1),
      DateTime(eventDate, startHour, 0),
      DateTime(eventDate, startHour + durationHours, 0),
      Some("Description for event " + NatToString(i + 1)),
      None,
      Some(d.virtual > 0.5),
      Some(MockColor(source)),
      Some(source))
  }

  /** `generateMockEvents(base, n)` with its random draws passed in: n events
      numbered from 0, each on a day of base's month, starting on the hour
      between 9:00 and 16:00 and ending one to three hours later that day. */
  function MockEvents(base: Date, draws: seq<MockDraw>): (r: seq<CalendarEvent>)
    requires base.Valid()
    requires forall i :: 0 <= i < |draws| ==> ValidDraw(draws[i])
    ensures |r| == |draws|
    ensures forall i :: 0 <= i < |r| ==>
              && r[i].id == "event-" + NatToString(i)
              && r[i].title == "Event " + NatToString(i + 1)
    ensures forall i :: 0 <= i < |r| ==>
              && r[i].start.Valid() && r[i].end.Valid()
              && IsCurrentMonth(r[i].start.date, base)
              && r[i].end.date == r[i].start.date
              && 9 <= r[i].start.hour <= 16
              && 1 <= r[i].end.hour - r[i].start.hour <= 3
              && r[i].start.minute == 0 && r[i].end.minute == 0
    ensures forall i :: 0 <= i < |r| ==>
              && r[i].source.Some? && r[i].source.value != Google
              && r[i].color == Some(MockColor(r[i].source.value))
  {
    seq(|draws|, i requires 0 <= i < |draws| => MockEvent(base, i, draws[i]))
  }

  /** Mock event ids are pairwise distinct. */
  lemma MockIdsDistinct(base: Date, draws: seq<MockDraw>, i: int, j: int)
    requires base.Valid()
    requires forall k :: 0 <= k < |draws| ==> ValidDraw(draws[k])
    requires 0 <= i < |draws| && 0 <= j < |draws| && i != j
    ensures MockEvents(base, draws)[i].id != MockEvents(base, draws)[j].id
  {
    var r := MockEvents(base, draws);
    if r[i].id == r[j].id {
      var prefix := "event-";
      assert r[i].id[|prefix|..] == NatToString(i);
      assert r[j].id[|prefix|..] == NatToString(j);
      ZeroPadInjective(i, j, 1);
    }
  }

  /** The i-th mock event as written: its start and end are rebuilt through
      the Date constructor from the event day's year, month and day; every
      other field is the intended event's. */
  function MockEventAsWritten(base: Date, i: nat, d: MockDraw): (e: CalendarEvent)
    requires base.Valid() && ValidDraw(d)
    ensures e.start.Valid() && e.end.Valid() && e.end.date == e.start.date
  {
    var intended := MockEvent(base, i, d);
    var day := intended.start.date;
    var rebuilt := DateCtor(day.year, day.month, day.day);
    intended.(start := intended.start.(date := rebuilt), end := intended.end.(date := rebuilt))
  }

  /** Away from the years 0 to 99 the written mock event is the intended one. */
  lemma MockEventAsWrittenAgrees(base: Date, i: nat, d: MockDraw)
    requires base.Valid() && ValidDraw(d)
    requires !(0 <= base.year <= 99)
    ensures MockEventAsWritten(base, i, d) == MockEvent(base, i, d)
  {
    AddDaysWithinMonth(base.year, base.month, ScaledIndex(d.day, DaysInMonth(base.year, base.month)));
  }

  /** In the year 50 the written generator leaves the month it was asked for:
      a first-day draw for March 0050 yields an event on 1 March 1950. */
  lemma MockEventTwoDigitYear()
    ensures var d := MockDraw(0.0, 0.0, 0.0, 0.0, 0.0);
      && MockEvent(Date(50, 3, 10), 0, d).start.date == Date(50, 3, 1)
      && MockEventAsWritten(Date(50, 3, 10), 0, d).start.date == Date(1950, 3, 1)
      && !IsCurrentMonth(MockEventAsWritten(Date(50, 3, 10), 0, d).start.date, Date(50, 3, 10))
  {
  }
}
