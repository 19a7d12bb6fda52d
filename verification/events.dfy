/** The event record shared by the views (src/utils/calendarUtils.ts), the
    sources an event can come from and the colour each source is drawn in. */
module Events {
  import opened Dates
  import opened Wrappers

  /** Where an event comes from.  The utilities' event type admits teams,
      outlook and manual; the dialog's event type (src/types/calendar.ts) adds
      google, which nothing in the front-end produces. */
  datatype Source = Teams | Outlook | Google | Manual

  const TeamsColor: string := "#7b83eb"
  const OutlookColor: string := "#71afe5"
  const ManualColor: string := "#3aa0f3"

  /** An event as the views consume it.  Optional fields are `Option`s; the
      recurrence, attendee and attachment fields of the source type are not set
      by any modelled operation and are omitted. */
  datatype CalendarEvent = CalendarEvent(
    id: string,
    title: string,
    start: DateTime,
    end: DateTime,
    description: Option<string>,
    location: Option<string>,
    isVirtual: Option<bool>,
    color: Option<string>,
    source: Option<Source>
  )

  /** The calendar day an event starts on (what `isSameDay` compares). */
  function StartDay(e: CalendarEvent): Date {
    e.start.date
  }

  /** The hour an event starts in (`getHours()` of its start). */
  function StartHour(e: CalendarEvent): int {
    e.start.hour
  }

  /** The test `getEventsForDay` and the views apply: does the event start on
      the given day? */
  function StartsOn(day: Date): (p: CalendarEvent -> bool)
    ensures forall e :: p(e) <==> StartDay(e) == day
  {
    e => StartDay(e) == day
  }

  predicate IsTeams(e: CalendarEvent) {
    e.source == Some(Teams)
  }

  predicate IsOutlook(e: CalendarEvent) {
    e.source == Some(Outlook)
  }
}
