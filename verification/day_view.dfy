/** The day view (src/components/calendar/CalendarDay.tsx): the events that
    start on the current date, spread over the hour slots 7:00 to 21:00 by
    their starting hour. */
module DayView {
  import opened Dates
  import opened Seqs
  import opened Events
  import opened CalendarUtils
  import opened HourSlots

  /** One list per hour slot: the current date's events starting in that
      hour, in input order. */
  function DaySlots(events: seq<CalendarEvent>, current: Date): (slots: seq<seq<CalendarEvent>>)
    ensures |slots| == SlotCount
    ensures forall i :: 0 <= i < |slots| ==>
              forall e :: e in slots[i] <==> e in events && StartDay(e) == current && StartHour(e) == Hours()[i]
  {
    HourBuckets(EventsForDay(events, current), FirstHour, SlotCount)
  }

  /** The slots together show each of the day's events that starts between
      7:00 and 21:59 exactly as often as it occurs, and nothing else. */
  lemma DaySlotsShowEachOnce(events: seq<CalendarEvent>, current: Date)
    ensures multiset(Flatten(DaySlots(events, current)))
            == multiset(Filter(EventsForDay(events, current), StartsBetween(FirstHour, FirstHour + SlotCount)))
  {
    HourBucketsCover(EventsForDay(events, current), FirstHour, FirstHour + SlotCount);
  }

  /** An event is shown in the day view exactly when it starts on the current
      date at an hour from 7 to 21. */
  lemma DaySlotsShown(events: seq<CalendarEvent>, current: Date, e: CalendarEvent)
    ensures e in Flatten(DaySlots(events, current)) <==>
              e in events && StartDay(e) == current && 7 <= StartHour(e) <= 21
  {
    DaySlotsShowEachOnce(events, current);
    assert e in Flatten(DaySlots(events, current)) <==> e in multiset(Flatten(DaySlots(events, current)));
  }
}
