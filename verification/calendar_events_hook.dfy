/** The event-loading hook of src/hooks/useCalendarEvents.tsx: which events
    the calendar shows after `fetchEvents` and `refreshEvents`, and whether it
    is still loading.  The signed-in user's Microsoft flag, the outcome of the
    Graph request and the random draws of the mock generator are inputs; the
    toasts and console messages are not modelled. */
module CalendarEventsHook {
  import opened Dates
  import opened Events
  import opened CalendarUtils
  import opened MsGraph
  import opened Header

  /** The hook's two pieces of state. */
  datatype HookState = HookState(events: seq<CalendarEvent>, isLoading: bool)

  /** The state before the first fetch: no events, not loading. */
  const InitialState: HookState := HookState([], false)

  /** How many mock events stand in for a missing calendar. */
  const MockCount: nat := 20

  /** Draws for a full set of mock events. */
  predicate MockDraws(draws: seq<MockDraw>) {
    |draws| == MockCount && forall i :: 0 <= i < |draws| ==> ValidDraw(draws[i])
  }

  /** The requested window: six months either side of the current date, the
      time of day kept. */
  function RequestRange(current: DateTime): (range: (DateTime, DateTime))
    requires current.Valid()
    ensures range.0.Valid() && range.1.Valid()
    ensures MonthIndex(range.0.date) == MonthIndex(current.date) - 6
    ensures MonthIndex(range.1.date) == MonthIndex(current.date) + 6
  {
    (ShiftMonths(current, -6), ShiftMonths(current, 6))
  }

  /** The window contains the current date strictly inside it. */
  lemma RequestRangeContainsCurrent(current: DateTime)
    requires current.Valid()
    ensures TimeBefore(RequestRange(current).0, current)
    ensures TimeBefore(current, RequestRange(current).1)
  {
    var (start, end) := RequestRange(current);
    MonthIndexBefore(start.date, current.date);
    MonthIndexBefore(current.date, end.date);
  }

  /** `fetchEvents`.  With a Microsoft account the fetched events replace the
      list when there are any; an empty answer or a failed request (the
      `catch`) shows twenty mock events of the current month instead, and
      loading ends either way.  Without one the mock events are shown and the
      loading flag is not touched. */
  function FetchEvents(state: HookState, msAccount: bool, current: DateTime,
                       outcome: HttpOutcome, draws: seq<MockDraw>): (r: HookState)
    requires current.Valid() && MockDraws(draws)
    ensures !msAccount ==> r == HookState(MockEvents(current.date, draws), state.isLoading)
    ensures msAccount ==> !r.isLoading
    ensures msAccount && FetchMsCalendarEvents(outcome).Ok? && |FetchMsCalendarEvents(outcome).value| > 0 ==>
              r.events == FetchMsCalendarEvents(outcome).value
    ensures msAccount && (FetchMsCalendarEvents(outcome).Err? || |FetchMsCalendarEvents(outcome).value| == 0) ==>
              r.events == MockEvents(current.date, draws)
  {
    var mock := MockEvents(current.date, draws);
    if !msAccount then HookState(mock, state.isLoading)
    else
      match FetchMsCalendarEvents(outcome)
      case Ok(fetched) => HookState(if |fetched| > 0 then fetched else mock, false)
      case Err(_) => HookState(mock, false)
  }

  /** `refreshEvents`.  Only a Microsoft account refreshes: a non-empty answer
      replaces the list, an empty answer or a failure keeps it, and loading
      ends either way. */
  function RefreshEvents(state: HookState, msAccount: bool, outcome: HttpOutcome): (r: HookState)
    ensures !msAccount ==> r == state
    ensures msAccount ==> !r.isLoading
    ensures msAccount && FetchMsCalendarEvents(outcome).Ok? && |FetchMsCalendarEvents(outcome).value| > 0 ==>
              r.events == FetchMsCalendarEvents(outcome).value
    ensures FetchMsCalendarEvents(outcome).Err? || |FetchMsCalendarEvents(outcome).value| == 0 ==>
              r.events == state.events
  {
    if !msAccount then state
    else
      match FetchMsCalendarEvents(outcome)
      case Ok(fetched) => HookState(if |fetched| > 0 then fetched else state.events, false)
      case Err(_) => HookState(state.events, false)
  }

  /** After `fetchEvents` the calendar is never empty: it shows either the
      fetched events or the twenty mock events. */
  lemma FetchNeverLeavesCalendarEmpty(state: HookState, msAccount: bool, current: DateTime,
                                      outcome: HttpOutcome, draws: seq<MockDraw>)
    requires current.Valid() && MockDraws(draws)
    ensures |FetchEvents(state, msAccount, current, outcome, draws).events| > 0
    ensures !msAccount || FetchMsCalendarEvents(outcome).Err? ==>
              |FetchEvents(state, msAccount, current, outcome, draws).events| == MockCount
  {
  }

  /** Every event shown after `fetchEvents` is either fetched from the
      account or a mock event in the current month. */
  lemma FetchedEventsComeFromAccountOrMonth(state: HookState, msAccount: bool, current: DateTime,
                                            outcome: HttpOutcome, draws: seq<MockDraw>, e: CalendarEvent)
    requires current.Valid() && MockDraws(draws)
    ensures e in FetchEvents(state, msAccount, current, outcome, draws).events ==>
              (msAccount && FetchMsCalendarEvents(outcome).Ok? && e in FetchMsCalendarEvents(outcome).value)
              || IsCurrentMonth(e.start.date, current.date)
  {
  }

  /** A failed refresh after a fetch keeps the fetched (or mock) events and
      leaves nothing loading. */
  lemma FailedRefreshKeepsEvents(state: HookState, msAccount: bool, current: DateTime,
                                 first: HttpOutcome, second: HttpOutcome, draws: seq<MockDraw>)
    requires current.Valid() && MockDraws(draws)
    requires FetchMsCalendarEvents(second).Err?
    ensures
      var fetched := FetchEvents(state, msAccount, current, first, draws);
      var refreshed := RefreshEvents(fetched, msAccount, second);
      refreshed.events == fetched.events && |refreshed.events| > 0 && (msAccount ==> !refreshed.isLoading)
  {
    FetchNeverLeavesCalendarEmpty(state, msAccount, current, first, draws);
  }
}
