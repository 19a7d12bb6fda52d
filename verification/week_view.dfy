/** The week view (src/components/calendar/CalendarWeek.tsx): one row per hour
    slot from 7:00 to 21:00 and one column per day of the Sunday-to-Saturday
    week, each cell holding the events that start on that day in that hour. */
module WeekView {
  import opened Dates
  import opened Seqs
  import opened Events
  import opened CalendarUtils
  import opened HourSlots
  import DayView

  /** Events starting on the given day in the given hour. */
  function StartsAt(day: Date, h: int): (p: CalendarEvent -> bool)
    ensures forall e :: p(e) <==> StartDay(e) == day && StartHour(e) == h
  {
    e => StartDay(e) == day && StartHour(e) == h
  }

  /** The time grid, row by hour and column by day, as the view renders it. */
  function WeekGrid(current: Date, events: seq<CalendarEvent>): (rows: seq<seq<seq<CalendarEvent>>>)
    requires current.Valid()
    ensures |rows| == SlotCount
    ensures forall h :: 0 <= h < |rows| ==> |rows[h]| == 7
    ensures forall h, d :: 0 <= h < |rows| && 0 <= d < 7 ==>
              rows[h][d] == Filter(events, StartsAt(WeekDays(current)[d], Hours()[h]))
  {
    var days := WeekDays(current);
    var hours := Hours();
    seq(SlotCount, h requires 0 <= h < SlotCount =>
      seq(7, d requires 0 <= d < 7 => Filter(events, StartsAt(days[d], hours[h]))))
  }

  /** A cell holds exactly the events starting on its day in its hour. */
  lemma WeekCellContents(current: Date, events: seq<CalendarEvent>, h: int, d: int, e: CalendarEvent)
    requires current.Valid() && 0 <= h < SlotCount && 0 <= d < 7
    ensures e in WeekGrid(current, events)[h][d] <==>
              e in events && StartDay(e) == WeekDays(current)[d] && StartHour(e) == FirstHour + h
  {
  }

  /** No event appears in two cells. */
  lemma WeekCellUnique(current: Date, events: seq<CalendarEvent>, e: CalendarEvent, h1: int, d1: int, h2: int, d2: int)
    requires current.Valid()
    requires 0 <= h1 < SlotCount && 0 <= d1 < 7 && 0 <= h2 < SlotCount && 0 <= d2 < 7
    ensures e in WeekGrid(current, events)[h1][d1] && e in WeekGrid(current, events)[h2][d2] ==>
              h1 == h2 && d1 == d2
  {
    if e in WeekGrid(current, events)[h1][d1] && e in WeekGrid(current, events)[h2][d2] {
      var days := WeekDays(current);
      assert days[d1] == StartDay(e) == days[d2];
      assert DayOfWeek(days[d1]) == d1 && DayOfWeek(days[d2]) == d2;
    }
  }

  /** An event appears somewhere in the grid exactly when it starts during
      the week at an hour from 7 to 21; in particular events before 7:00 or
      from 22:00 on appear nowhere. */
  lemma WeekShownIff(current: Date, events: seq<CalendarEvent>, e: CalendarEvent)
    requires current.Valid()
    ensures (exists h, d :: 0 <= h < SlotCount && 0 <= d < 7 && e in WeekGrid(current, events)[h][d]) <==>
              e in events && StartDay(e) in WeekDays(current) && 7 <= StartHour(e) <= 21
  {
    var days := WeekDays(current);
    var rows := WeekGrid(current, events);
    if e in events && StartDay(e) in days && 7 <= StartHour(e) <= 21 {
      var d :| 0 <= d < 7 && days[d] == StartDay(e);
      var h := StartHour(e) - FirstHour;
      assert e in rows[h][d];
    }
  }

  /** Each column of the week grid is the day view of that column's day. */
  lemma WeekColumnIsDayView(current: Date, events: seq<CalendarEvent>, h: int, d: int)
    requires current.Valid() && 0 <= h < SlotCount && 0 <= d < 7
    ensures WeekGrid(current, events)[h][d] == DayView.DaySlots(events, WeekDays(current)[d])[h]
  {
    var day := WeekDays(current)[d];
    var hour := Hours()[h];
    FilterFilter(events, StartsOn(day), StartsInHour(hour), StartsAt(day, hour));
  }
}
