# All-in-one calendar: a Dafny model of the calendar logic

This project models the pure logic of a React calendar front-end that merges a
user's Microsoft Outlook and Teams events with locally created ones. The views
are written in TypeScript on top of date-fns. The model covers:

- **The calendar utilities.** The 42-cell month grid, the Sunday-first week,
  the same-day event filter and the mock-event generator.
- **The Microsoft Graph client.** The wire-to-app event transform, the
  Teams/Outlook classification, the status check and the two source filters.
- **The header.** Previous/next navigation per view and the title text.
- **The four views.**
  - Month: the cells, with at most three events shown and a "+ n more" counter.
  - Week: a 15 × 7 grid of hour slots.
  - Day: 15 hour slots.
  - Agenda: events grouped by `yyyy-MM-dd` key, with the keys sorted.
- **The create-event dialog's submit handler.** Title and time validation,
  attendee parsing and construction of the new event.
- **Two hooks.** The event-loading hook (`fetchEvents`, `refreshEvents`) and
  the simulated sign-in hook (`login`, `logout`, restoring a saved user).

Dates are proleptic Gregorian `Date(year, month, day)` values. Times of day are
`DateTime(date, hour, minute)`. Event lists are sequences, and
`Array.prototype.filter` is `Seqs.Filter`.

Inputs the program gets from its environment are parameters of the model:

- `Math.random()` results become a sequence of draws;
- `Date.now()` becomes a number;
- "today" is a date;
- the Graph response becomes an `HttpOutcome`;
- whether the user has a Microsoft account is a boolean;
- the `localStorage` entry is a field of the auth state.

Modules, one per file:

| file | module | models |
|---|---|---|
| wrappers.dfy | Wrappers | `Option`, `Result` |
| seqs.dfy | Seqs | filter, flatten and their algebra |
| strings.dfy | Strings | zero padding, string order, `split`/`join`, `trim`, `toLowerCase`, `includes` |
| dates.dfy | Dates | the calendar, day numbers, `addDays`, `addMonths`, `getDay` |
| events.dfy | Events | the event record and its sources |
| calendar_utils.dfy | CalendarUtils | src/utils/calendarUtils.ts |
| ms_graph.dfy | MsGraph | src/utils/msGraphUtils.ts |
| header.dfy | Header | src/components/calendar/CalendarHeader.tsx |
| month_view.dfy | MonthView | src/components/calendar/CalendarMonth.tsx |
| hour_slots.dfy | HourSlots | the hour rows shared by the day and week views |
| day_view.dfy | DayView | src/components/calendar/CalendarDay.tsx |
| week_view.dfy | WeekView | src/components/calendar/CalendarWeek.tsx |
| grouping.dfy | Grouping | grouping into a `Record<string, T[]>`, `Object.keys`, `sort()` |
| agenda_view.dfy | AgendaView | src/components/calendar/CalendarAgenda.tsx |
| create_event.dfy | CreateEvent | `handleSubmit` of src/components/calendar/CreateEventDialog.tsx |
| calendar_events_hook.dfy | CalendarEventsHook | src/hooks/useCalendarEvents.tsx |
| auth.dfy | Auth | src/hooks/useAuth.tsx |

## Model

| member | source | states |
|---|---|---|
| Dates.AddDaysNumber | src/utils/calendarUtils.ts:29 | `addDays(d, n)` moves the day number by exactly n, in either direction and across month and year ends |
| Dates.AddDaysWeekday | src/utils/calendarUtils.ts:111-118 | moving n days moves the weekday by n modulo 7 |
| Dates.AddDaysCompose | src/utils/calendarUtils.ts:114-118 | adding a days and then b days is adding a + b days |
| Dates.AddMonths | src/components/calendar/CalendarHeader.tsx:28 | `addMonths` gives a valid date whose month index moves by n, keeping the day or clamping it to the last day of the target month |
| Dates.AddMonthsRoundTrip | src/components/calendar/CalendarHeader.tsx:28-38 | for days up to 28, moving n months forward and back returns the same date |
| Dates.AddMonthsClampsAtMonthEnd | src/components/calendar/CalendarHeader.tsx:38 | from 31 January 2024 the next month is 29 February, and going back lands on 29 January, so the round trip loses the day |
| Dates.CalendarAnchors | src/utils/calendarUtils.ts:73 | weekday numbering follows `getDay` (1 January 2024 is a Monday, 1 January 1970 a Thursday), and 2000 is a leap year while 1900 is not |
| Dates.TimeBeforeIffEarlierStamp | src/components/calendar/CreateEventDialog.tsx:51 | comparing two date-times as timestamps is comparing date, then hour, then minute |
| Dates.EraYear | src/components/calendar/CalendarAgenda.tsx:25 | the `yyyy` year is at least 1 and is the year itself for years from 1 on |
| CalendarUtils.MonthGrid | src/utils/calendarUtils.ts:70-101 | the grid has 42 valid days, starts on a Sunday, and cell i is the first of the month moved by i minus the weekday of the first |
| CalendarUtils.MonthGridAsWritten | src/utils/calendarUtils.ts:78-98 | the grid as written, each cell built through the Date constructor, has 42 valid days |
| CalendarUtils.MonthGridAsWrittenAgrees | src/utils/calendarUtils.ts:78-98 | for a month of a year below -1 or above 100 the grid as written is the intended grid |
| CalendarUtils.MonthGridTwoDigitYear | src/utils/calendarUtils.ts:87 | for March of year 50 the cell of the 1st holds 1 March 1950 as written and 1 March of year 50 as intended |
| Dates.DateCtor | src/utils/calendarUtils.ts:87 | `new Date(y, m, d)` gives day d counted from the 1st of month m of the year it reads, 1900 + y for y from 0 to 99; a day inside the month gives exactly that date |
| CalendarUtils.LeadingCell | src/utils/calendarUtils.ts:78-83 | the cell built from the previous month's length and year/month equals the consecutive day before the first of the month |
| CalendarUtils.TrailingCell | src/utils/calendarUtils.ts:91-98 | the cell built as day k + 1 of the next month is the k-th consecutive day after the month's end, for every k below 28 and so for each of the at most 14 trailing cells |
| CalendarUtils.MonthGridCurrentMonth | src/utils/calendarUtils.ts:85-89 | a grid cell lies in the current month exactly when its index falls in the block after the leading days |
| CalendarUtils.WeekDays | src/utils/calendarUtils.ts:109-122 | the week holds seven consecutive valid days from Sunday to Saturday and contains the given date at its weekday |
| CalendarUtils.EventsForDay | src/utils/calendarUtils.ts:104-106 | an event is in the result exactly when it is in the list and starts on the given day |
| CalendarUtils.EventsForDayAppend | src/utils/calendarUtils.ts:104-106 | the filter distributes over concatenation, so input order is kept |
| CalendarUtils.EventsForDayPartition | src/utils/calendarUtils.ts:104-106 | that day's events and the other events together account for every event |
| CalendarUtils.MockEvents | src/utils/calendarUtils.ts:24-67 | `generateMockEvents` produces one event per draw: id `event-i`, title `Event i+1`, start in the base month between 9:00 and 16:00 on the hour, end one to three hours later the same day, colour matching the source |
| CalendarUtils.MockEvent | src/utils/calendarUtils.ts:28-63 | the i-th mock event has id `event-i`, starts on the hour between 9:00 and 16:00 on a day of the base month, ends one to three hours later that day, and is coloured by its source |
| CalendarUtils.MockEventAsWritten | src/utils/calendarUtils.ts:33-49 | the mock event as written, with start and end rebuilt through the Date constructor, starts and ends on the same valid day |
| CalendarUtils.MockEventAsWrittenAgrees | src/utils/calendarUtils.ts:29-49 | for a base date outside the years 0 to 99 the mock event as written is the intended one |
| CalendarUtils.MockEventTwoDigitYear | src/utils/calendarUtils.ts:33-40 | for March of year 50 and a first-day draw, the event as written starts on 1 March 1950, outside the requested month; the intended event starts on 1 March of year 50 |
| CalendarUtils.MockIdsDistinct | src/utils/calendarUtils.ts:55 | mock event ids are pairwise distinct |
| MsGraph.ToCalendarEvent | src/utils/msGraphUtils.ts:36-59 | the transform keeps id, times, body preview and location; the title is the subject when non-empty, else "Untitled Event"; the source is Teams exactly under the three-way detection rule, else Outlook; the colour follows the source |
| MsGraph.TeamsDetectionSpec | src/utils/msGraphUtils.ts:38-43 | the Teams rule holds exactly when the event is online and the provider is `teamsForBusiness`, the URL contains the Teams host, or the lower-cased preview contains "teams" |
| MsGraph.ToCalendarEvents | src/utils/msGraphUtils.ts:36 | one event per record, in record order |
| MsGraph.FetchMsCalendarEvents | src/utils/msGraphUtils.ts:10-64 | a non-OK status gives an error carrying the status, a failed request gives an error, and an OK response gives every record transformed, in record order, each sourced Teams or Outlook |
| MsGraph.FetchTeamsMeetings | src/utils/msGraphUtils.ts:68-79 | an error is passed on; otherwise the result is exactly the fetched Teams events, in fetched order |
| MsGraph.FetchOutlookEvents | src/utils/msGraphUtils.ts:82-93 | an error is passed on; otherwise the result is exactly the fetched Outlook events, in fetched order |
| MsGraph.AllTeamsResponse | src/utils/msGraphUtils.ts:68-93 | when every fetched record is a Teams meeting, the Teams fetch returns the whole fetch unchanged and the Outlook fetch returns no events |
| MsGraph.TeamsOutlookPartition | src/utils/msGraphUtils.ts:57-93 | the Teams and Outlook lists split the fetched events as a multiset |
| Header.ShiftDays | src/components/calendar/CalendarHeader.tsx:24-36 | `new Date(y, m, d ± k)` gives a valid date k days away, at midnight |
| Header.ShiftMonths | src/components/calendar/CalendarHeader.tsx:28-38 | moving by months keeps the time of day and moves the month index by n |
| Header.Next | src/components/calendar/CalendarHeader.tsx:32-40 | next moves one day or one week forward (to midnight) in day or week view, and one month forward (keeping the time) otherwise; the result is always later |
| Header.Previous | src/components/calendar/CalendarHeader.tsx:22-30 | previous moves one day or one week back (to midnight) in day or week view, and one month back (keeping the time) otherwise; the result is always earlier |
| Header.PreviousNextInverse | src/components/calendar/CalendarHeader.tsx:22-40 | in day and week view, previous after next and next after previous return to the same day at midnight |
| Header.PreviousNextMonths | src/components/calendar/CalendarHeader.tsx:28-38 | in month and agenda view, previous undoes next for days up to 28 |
| Header.NextDayStepsOneDay | src/components/calendar/CalendarHeader.tsx:24-34 | in day view next and previous land on the calendar's next and previous day |
| Header.ShiftDaysAsWritten | src/components/calendar/CalendarHeader.tsx:24-36 | the constructor as written agrees with the intended day shift outside the years 0 to 99 |
| Header.TwoDigitYearStep | src/components/calendar/CalendarHeader.tsx:34 | from 10 March of year 50, next in day view as written lands in 1950, not year 50 |
| Header.HeaderText | src/components/calendar/CalendarHeader.tsx:46-54 | the title is weekday and long date in day view, "Week of " and the long date in week view, and month and year otherwise |
| Header.MonthTitleIgnoresDay | src/components/calendar/CalendarHeader.tsx:52 | the month and agenda titles depend only on year and month, and are the same for both views |
| Header.TitlesDistinguishViews | src/components/calendar/CalendarHeader.tsx:46-54 | titles of different view kinds never coincide, whatever the dates |
| Header.DayTitleExtendsWeekTitle | src/components/calendar/CalendarHeader.tsx:48-50 | after its prefixes the week title is the day title without the weekday |
| MonthView.Cell | src/components/calendar/CalendarMonth.tsx:36-82 | a cell is dimmed exactly outside the current month, selected exactly on the current date and marked exactly on today; it shows the first min(3, n) of the day's n events, and "+ more" appears exactly when n > 3 and counts the rest |
| MonthView.MonthCells | src/components/calendar/CalendarMonth.tsx:20-36 | one cell per grid day, 42 in all |
| MonthView.GridDaysDistinct | src/utils/calendarUtils.ts:70-101 | no day appears twice in the grid |
| MonthView.EventInAtMostOneCell | src/components/calendar/CalendarMonth.tsx:38 | an event is listed in at most one cell |
| MonthView.SelectedCellIsCurrentDay | src/components/calendar/CalendarMonth.tsx:39 | exactly one cell is selected: the one at the leading-day count plus the day of the month minus one |
| MonthView.DimmedOutsideMonth | src/components/calendar/CalendarMonth.tsx:37-47 | exactly the leading and trailing cells are dimmed |
| HourSlots.Hours | src/components/calendar/CalendarWeek.tsx:23 | the slots are 15 strictly increasing hours and are exactly 7 to 21 |
| HourSlots.HourBuckets | src/components/calendar/CalendarDay.tsx:40-51 | bucket i holds exactly the events starting in hour lo + i, in input order |
| HourSlots.HourBucketsCover | src/components/calendar/CalendarDay.tsx:40-51 | together the buckets hold each event of the hour range exactly as often as the input does |
| DayView.DaySlots | src/components/calendar/CalendarDay.tsx:19-51 | slot i holds exactly the events starting on the current day in the slot's hour |
| DayView.DaySlotsShowEachOnce | src/components/calendar/CalendarDay.tsx:22-51 | the slots partition that day's events starting from 7:00 to before 22:00 |
| DayView.DaySlotsShown | src/components/calendar/CalendarDay.tsx:22-51 | an event is shown exactly when it starts on the current day at an hour from 7 to 21 |
| WeekView.WeekGrid | src/components/calendar/CalendarWeek.tsx:58-78 | the grid has 15 rows of 7 cells, and cell (h, d) is the events starting on weekday d of the week in hour h |
| WeekView.WeekCellUnique | src/components/calendar/CalendarWeek.tsx:64-78 | an event appears in at most one cell of the week |
| WeekView.WeekShownIff | src/components/calendar/CalendarWeek.tsx:58-78 | an event is shown exactly when it starts on a day of the week at an hour from 7 to 21 |
| WeekView.WeekColumnIsDayView | src/components/calendar/CalendarWeek.tsx:72-78 | each week cell equals the matching slot of the day view for that day |
| Grouping.GroupByKey | src/components/calendar/CalendarAgenda.tsx:23-30 | after the loop every element's key is present in the record |
| Grouping.GroupByKeyFilters | src/components/calendar/CalendarAgenda.tsx:23-30 | each key's list is non-empty and is exactly the elements filed under it, in input order |
| Grouping.KeysInOrder | src/components/calendar/CalendarAgenda.tsx:33 | `Object.keys` lists each key that occurs exactly once |
| Grouping.SortKeys | src/components/calendar/CalendarAgenda.tsx:33 | `sort()` of distinct keys is strictly ascending and a permutation of them |
| Grouping.SortedGroups | src/components/calendar/CalendarAgenda.tsx:23-45 | there are no groups exactly when there is no input; keys ascend strictly; each group holds its key's elements in order and is non-empty; every element's key has a group |
| Grouping.SortedGroupsPartition | src/components/calendar/CalendarAgenda.tsx:23-30 | flattened, the groups hold every element exactly as often as the input does |
| Strings.SplitJoin | src/components/calendar/CreateEventDialog.tsx:60-61 | splitting a join on a separator not in the pieces gives the pieces back |
| Strings.JoinSplit | src/components/calendar/CreateEventDialog.tsx:60-61 | joining the pieces of a split gives back the string |
| Strings.ZeroPadOrder | src/components/calendar/CalendarAgenda.tsx:25 | at a fixed width, zero-padded numerals compare as strings as the numbers do |
| AgendaView.DateKey | src/components/calendar/CalendarAgenda.tsx:25 | for years 1 to 9999 the key is ten characters with dashes at positions 4 and 7 |
| AgendaView.KeyOrderIsChronological | src/components/calendar/CalendarAgenda.tsx:25-33 | for years 1 to 9999 the string order of keys is the calendar order of the dates |
| AgendaView.KeysTellDaysApart | src/components/calendar/CalendarAgenda.tsx:25 | in those years equal keys mean equal days |
| AgendaView.Agenda | src/components/calendar/CalendarAgenda.tsx:20-45 | no events gives no groups; keys ascend; each group holds its key's events in input order and is non-empty; every event's key has a group |
| AgendaView.AgendaShowsEachEventOnce | src/components/calendar/CalendarAgenda.tsx:23-30 | every event appears in the agenda exactly once |
| AgendaView.AgendaGroupIsOneDay | src/components/calendar/CalendarAgenda.tsx:23-30 | in years 1 to 9999, an event is in a group exactly when it starts on that group's day |
| AgendaView.AgendaIsChronological | src/components/calendar/CalendarAgenda.tsx:33-45 | in years 1 to 9999, every event of an earlier group starts on an earlier day than every event of a later group |
| CreateEvent.AttendeeEmails | src/components/calendar/CreateEventDialog.tsx:60-63 | every parsed address is non-empty, has no comma and no surrounding blanks |
| CreateEvent.ParseAttendees | src/components/calendar/CreateEventDialog.tsx:60-68 | one attendee per parsed address, in order, with response "none" and as name the text before the first '@' |
| CreateEvent.AttendeeEmailsPieces | src/components/calendar/CreateEventDialog.tsx:60-63 | for any comma-free pieces, the comma-joined field yields the trimmed pieces with the blank ones dropped, in order |
| CreateEvent.AttendeeSpaceAfterComma | src/components/calendar/CreateEventDialog.tsx:196 | two clean addresses written with a comma and a space, as in the field's placeholder, yield those two addresses |
| CreateEvent.AttendeeEmptyPiece | src/components/calendar/CreateEventDialog.tsx:60-63 | an empty piece between two commas is dropped |
| CreateEvent.AttendeeEmailsJoin | src/components/calendar/CreateEventDialog.tsx:60-63 | a comma-joined list of clean addresses parses back to the same list |
| CreateEvent.BlankAttendeesField | src/components/calendar/CreateEventDialog.tsx:60-63 | an empty field gives no attendees |
| CreateEvent.Submit | src/components/calendar/CreateEventDialog.tsx:43-81 | an empty title is rejected first; an end before the start is rejected; otherwise the event copies the form, gets id `event-<now>`, is Teams exactly when the Teams box is ticked with the matching colour, has no attendee list exactly when none were parsed, and otherwise carries the parsed attendee records |
| CreateEvent.EqualTimesAccepted | src/components/calendar/CreateEventDialog.tsx:51 | an end equal to the start is accepted |
| CalendarEventsHook.RequestRange | src/hooks/useCalendarEvents.tsx:24-25 | the window runs from six months before to six months after the current date |
| CalendarEventsHook.RequestRangeContainsCurrent | src/hooks/useCalendarEvents.tsx:24-25 | the current date lies strictly inside the window |
| CalendarEventsHook.FetchEvents | src/hooks/useCalendarEvents.tsx:19-54 | with an account, non-empty fetched events replace the list, while an empty answer or a failure shows the mock events, and loading ends; without an account the mock events are shown and the loading flag is untouched |
| CalendarEventsHook.RefreshEvents | src/hooks/useCalendarEvents.tsx:56-85 | without an account nothing changes; with one, non-empty fetched events replace the list, while an empty answer or a failure keeps it, and loading ends |
| CalendarEventsHook.FetchNeverLeavesCalendarEmpty | src/hooks/useCalendarEvents.tsx:28-52 | after a fetch the list is never empty, and it holds exactly the twenty mock events when there is no account or the request failed |
| CalendarEventsHook.FetchedEventsComeFromAccountOrMonth | src/hooks/useCalendarEvents.tsx:28-52 | every event shown after a fetch was fetched from the account or is a mock event in the current month |
| CalendarEventsHook.FailedRefreshKeepsEvents | src/hooks/useCalendarEvents.tsx:78-83 | a failed refresh after a fetch keeps the same non-empty list |
| Auth.Initial | src/hooks/useAuth.tsx:23-25 | the provider starts with nobody signed in, loading, and no error |
| Auth.Restore | src/hooks/useAuth.tsx:27-34 | a saved user is signed back in, and loading ends |
| Auth.Login | src/hooks/useAuth.tsx:36-63 | a valid address signs in user `123456` named after the text before its first '@', stores it and clears the error; an invalid one records the message and leaves user and storage alone; loading ends either way |
| Auth.Logout | src/hooks/useAuth.tsx:65-68 | nobody is signed in and the stored entry is gone |
| Auth.LoginSurvivesReload | src/hooks/useAuth.tsx:27-56 | after a successful login, a reload restores the same user |
| Auth.LogoutSurvivesReload | src/hooks/useAuth.tsx:27-68 | after logout, a reload signs nobody in |
| Auth.NameIsLocalPart | src/hooks/useAuth.tsx:51 | the address is the user name, an '@' and the rest |
| Auth.LoginAuthenticatesIffValid | src/hooks/useAuth.tsx:43-74 | starting signed out, a login authenticates exactly when the address is valid |

## Left out

- Rate limiting and retry with back-off are not modelled, because the code has none. `fetchMsCalendarEvents` throws on any non-OK status (src/utils/msGraphUtils.ts:28-30); that behaviour is modelled.
- Token acquisition (MSAL), the HTTP request, JSON decoding and the `toISOString` query parameters are not modelled. They are I/O; the request's outcome is an input.
- `createMsCalendarEvent` and the Microsoft sign-in (`loginWithMS`) are not modelled. They live in files outside this model. The dialog's event construction up to that call is modelled.
- `microsoftAccount` is a boolean input of the event hook, because the account record itself comes from the sign-in library.
- Time zones and daylight saving are not modelled; all dates are local calendar dates. In particular, `new Date(dateStr)` in the agenda parses the key as UTC midnight, which can show the previous day in zones west of UTC.
- Seconds and milliseconds are not modelled; times are kept to the minute, the resolution of the dialog's inputs.
- Rendering, CSS classes, click handlers, toasts and console output are not modelled.
- React's asynchronous state updates are not modelled: the intermediate `isLoading = true` is not observable, and each hook operation is a function from state to state.
- `CalendarUtils.EventsForDay`: the source re-parses `event.start.toString()` with `parseISO`. Because `Date.toString()` is not an ISO string, that filter likely matches nothing. The model uses the evidently intended same-day comparison that the day and week views use.
- `CalendarUtils.MonthGrid` follows the intended calendar in the years 0 to 99. The written grid reads those years as 1900 to 1999; that behaviour is `CalendarUtils.MonthGridAsWritten`, listed under Findings.
- `CalendarUtils.MockEvents` places every event in the requested month, also in the years 0 to 99, where the written generator moves it to 1900 + year; that behaviour is `CalendarUtils.MockEventAsWritten`, listed under Findings.
- `CalendarEventsHook.FetchedEventsComeFromAccountOrMonth` is stated for the intended mock events; in the years 0 to 99 the written generator's events fall outside the current month.
- `CreateEvent.Submit` requires both date-times to be valid. Unparsable input fields, which make `new Date` invalid and every comparison false, are not modelled.
- `formatEventTime` and the `h:mm a` and `EEE` labels are not modelled; the header's title formats are.
- Strings: `trim` uses only the ASCII blanks space, tab, newline, carriage return, form feed and vertical tab. `toLowerCase` folds only A to Z. Other Unicode behaviour is not modelled.
- `Strings.LexLess` and `Grouping.SortKeys` order strings by code point, whereas JavaScript's default `sort()` compares UTF-16 code units. The two orders differ only for characters outside the Basic Multilingual Plane; the agenda sorts date keys made of digits and dashes, where they agree.
- `AgendaView.KeyOrderIsChronological`, `AgendaView.AgendaGroupIsOneDay` and `AgendaView.AgendaIsChronological` are stated only for years 1 to 9999. Outside that range the `yyyy` key has more digits or is an era year, and string order no longer follows calendar order.
- `AgendaView.Agenda` requires valid start dates, because `format` throws on an invalid date.
- `AgendaView.EventKey` files an invalid start under the empty key. The agenda never uses that key.
- Randomness: the mock generator's `Math.random()` values are a parameter, a sequence of draws in [0, 1).
- The "today" highlight is not modelled as a clock reading: today's date is a parameter of the month cell.
- `Date.now()` in the dialog is a parameter.
- The `localStorage` entry is stored as the user value itself; `JSON.stringify` and `JSON.parse` are not modelled.
- `login`'s rethrow after recording the error is not modelled separately; the recorded error is the outcome.
- The recurrence, attendee, attachment and avatar fields of the event and user types are not modelled, because no operation in the model sets them. The dialog's attendee records belong to the new-event type, which is modelled.

## Findings

| source | as written | input that shows it | evidently intended | confidence | as-written member | corrected member |
|---|---|---|---|---|---|---|
| src/components/calendar/CalendarHeader.tsx:24-36 | day and week navigation rebuild the date with `new Date(year, month, day ± k)`, and that constructor reads years 0 to 99 as 1900 to 1999 | current date 10 March of year 50, day view, next | the next day, 11 March of year 50 | not executed | Header.ShiftDaysAsWritten, Header.TwoDigitYearStep | Header.ShiftDays, Header.Next, Header.Previous |
| src/utils/calendarUtils.ts:78-98 | the month grid builds every cell with `new Date(year, month, day)`, which reads years 0 to 99 as 1900 to 1999 | March of year 50 | the 42 days around March of year 50 | not executed | CalendarUtils.MonthGridAsWritten, CalendarUtils.MonthGridTwoDigitYear | CalendarUtils.MonthGrid, CalendarUtils.MonthGridAsWrittenAgrees |
| src/utils/calendarUtils.ts:33-49 | mock start and end are rebuilt with `new Date(year, month, day, hour, 0, 0)`, which reads years 0 to 99 as 1900 to 1999 | base date 10 March of year 50, first-day draw | an event on 1 March of year 50 | not executed | CalendarUtils.MockEventAsWritten, CalendarUtils.MockEventTwoDigitYear | CalendarUtils.MockEvents, CalendarUtils.MockEventAsWrittenAgrees |
