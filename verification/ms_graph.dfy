/** The Microsoft Graph calendar client of src/utils/msGraphUtils.ts: the
    per-record transform from the wire format to app events, the Teams/Outlook
    classification, the response-status check and the two source filters.
    Token acquisition, the HTTP request and JSON decoding are inputs. */
module MsGraph {
  import opened Dates
  import opened Wrappers
  import opened Strings
  import opened Seqs
  import opened Events

  /** A `calendarView` entry with the selected fields; `location` stands for
      `location?.displayName`. */
  datatype WireEvent = WireEvent(
    id: string,
    subject: Option<string>,
    start: DateTime,
    end: DateTime,
    bodyPreview: Option<string>,
    location: Option<string>,
    isOnlineMeeting: bool,
    onlineMeetingUrl: Option<string>,
    onlineMeetingProvider: Option<string>
  )

  /** What the request produced: a response with its status and (for a
      successful one) the decoded `value` array, or no response at all (the
      token could not be acquired or the network call failed). */
  datatype HttpOutcome =
    | Response(ok: bool, status: int, value: seq<WireEvent>)
    | NoResponse

  datatype FetchError =
    | BadStatus(status: int)
    | RequestFailed

  const UntitledEvent: string := "Untitled Event"
  const TeamsProvider: string := "teamsForBusiness"
  const TeamsHost: string := "teams.microsoft.com"
  const TeamsWord: string := "teams"

  /** JavaScript truthiness of an optional string: present and non-empty. */
  predicate Truthy(s: Option<string>) {
    s.Some? && |s.value| > 0
  }

  /** The detection rule: an online meeting whose provider is Teams for
      Business, whose join URL mentions the Teams host, or whose lower-cased
      body preview mentions "teams". */
  predicate IsTeamsMeeting(w: WireEvent) {
    w.isOnlineMeeting && (
      (Truthy(w.onlineMeetingProvider) && w.onlineMeetingProvider.value == TeamsProvider)
      || (Truthy(w.onlineMeetingUrl) && Contains(w.onlineMeetingUrl.value, TeamsHost))
      || (Truthy(w.bodyPreview) && Contains(ToLower(w.bodyPreview.value), TeamsWord)))
  }

  /** The detection rule restated with explicit substring occurrences; the
      truthiness tests are implied by the non-empty patterns. */
  lemma TeamsDetectionSpec(w: WireEvent)
    ensures IsTeamsMeeting(w) <==>
              w.isOnlineMeeting && (
                w.onlineMeetingProvider == Some(TeamsProvider)
                || (w.onlineMeetingUrl.Some? && exists i :: OccursAt(w.onlineMeetingUrl.value, TeamsHost, i))
                || (w.bodyPreview.Some? && exists i :: OccursAt(ToLower(w.bodyPreview.value), TeamsWord, i)))
  {
    if w.onlineMeetingUrl.Some? {
      ContainsIffOccurs(w.onlineMeetingUrl.value, TeamsHost);
      if exists i :: OccursAt(w.onlineMeetingUrl.value, TeamsHost, i) {
        var i :| OccursAt(w.onlineMeetingUrl.value, TeamsHost, i);
        assert |w.onlineMeetingUrl.value| >= |TeamsHost|;
      }
    }
    if w.bodyPreview.Some? {
      ContainsIffOccurs(ToLower(w.bodyPreview.value), TeamsWord);
      if exists i :: OccursAt(ToLower(w.bodyPreview.value), TeamsWord, i) {
        var i :| OccursAt(ToLower(w.bodyPreview.value), TeamsWord, i);
        assert |w.bodyPreview.value| >= |TeamsWord|;
      }
    }
  }

  /** The transform of one wire record (the callback of `data.value.map`). */
  function ToCalendarEvent(w: WireEvent): (e: CalendarEvent)
    ensures e.id == w.id && e.start == w.start && e.end == w.end
    ensures e.title == if Truthy(w.subject) then w.subject.value else UntitledEvent
    ensures |e.title| > 0
    ensures e.isVirtual == Some(w.isOnlineMeeting)
    ensures e.description == w.bodyPreview && e.location == w.location
    ensures e.source == Some(Teams) || e.source == Some(Outlook)
    ensures e.source == Some(Teams) <==>
              w.isOnlineMeeting && (
                w.onlineMeetingProvider == Some(TeamsProvider)
                || (w.onlineMeetingUrl.Some? && exists i :: OccursAt(w.onlineMeetingUrl.value, TeamsHost, i))
                || (w.bodyPreview.Some? && exists i :: OccursAt(ToLower(w.bodyPreview.value), TeamsWord, i)))
    ensures e.color == Some(if e.source == Some(Teams) then TeamsColor else OutlookColor)
  {
    TeamsDetectionSpec(w);
    var teams := IsTeamsMeeting(w);
    CalendarEvent(
      w.id,
      if Truthy(w.subject) then w.subject.value else UntitledEvent,
      w.start,
      w.end,
      w.bodyPreview,
      w.location,
      Some(w.isOnlineMeeting),
      Some(if teams then TeamsColor else OutlookColor),
      Some(if teams then Teams else Outlook))
  }

  /** `data.value.map(...)`: one event per record, in record order. */
  function ToCalendarEvents(ws: seq<WireEvent>): (es: seq<CalendarEvent>)
    ensures |es| == |ws|
    ensures forall i :: 0 <= i < |ws| ==> es[i] == ToCalendarEvent(ws[i])
  {
    seq(|ws|, i requires 0 <= i < |ws| => ToCalendarEvent(ws[i]))
  }

  /** `fetchMsCalendarEvents` after the request: a non-OK status or a missing
      response is an error carrying no events; otherwise every record is
      transformed. */
  function FetchMsCalendarEvents(outcome: HttpOutcome): (r: Result<seq<CalendarEvent>, FetchError>)
    ensures outcome.NoResponse? ==> r == Err(RequestFailed)
    ensures outcome.Response? && !outcome.ok ==> r == Err(BadStatus(outcome.status))
    ensures outcome.Response? && outcome.ok ==> r.Ok? && |r.value| == |outcome.value|
    ensures outcome.Response? && outcome.ok ==>
              forall i :: 0 <= i < |r.value| ==> r.value[i] == ToCalendarEvent(outcome.value[i])
    ensures r.Ok? ==> forall e :: e in r.value ==> e.source == Some(Teams) || e.source == Some(Outlook)
  {
    match outcome
    case NoResponse => Err(RequestFailed)
    case Response(ok, status, value) =>
      if !ok then Err(BadStatus(status)) else Ok(ToCalendarEvents(value))
  }

  /** `fetchTeamsMeetings`: the Teams events of the fetch, in order, or its error. */
  function FetchTeamsMeetings(outcome: HttpOutcome): (r: Result<seq<CalendarEvent>, FetchError>)
    ensures FetchMsCalendarEvents(outcome).Err? ==> r == FetchMsCalendarEvents(outcome)
    ensures FetchMsCalendarEvents(outcome).Ok? ==>
              r.Ok? && forall e :: e in r.value <==> e in FetchMsCalendarEvents(outcome).value && IsTeams(e)
    ensures FetchMsCalendarEvents(outcome).Ok? ==>
              r.value == Filter(FetchMsCalendarEvents(outcome).value, IsTeams)
  {
    match FetchMsCalendarEvents(outcome)
    case Err(e) => Err(e)
    case Ok(events) => Ok(Filter(events, IsTeams))
  }

  /** `fetchOutlookEvents`: the Outlook events of the fetch, in order, or its error. */
  function FetchOutlookEvents(outcome: HttpOutcome): (r: Result<seq<CalendarEvent>, FetchError>)
    ensures FetchMsCalendarEvents(outcome).Err? ==> r == FetchMsCalendarEvents(outcome)
    ensures FetchMsCalendarEvents(outcome).Ok? ==>
              r.Ok? && forall e :: e in r.value <==> e in FetchMsCalendarEvents(outcome).value && IsOutlook(e)
    ensures FetchMsCalendarEvents(outcome).Ok? ==>
              r.value == Filter(FetchMsCalendarEvents(outcome).value, IsOutlook)
  {
    match FetchMsCalendarEvents(outcome)
    case Err(e) => Err(e)
    case Ok(events) => Ok(Filter(events, IsOutlook))
  }

  /** The Teams and Outlook lists split the fetched events: their sizes add up
      and together they hold each fetched event as often as the fetch does. */
  lemma TeamsOutlookPartition(outcome: HttpOutcome)
    requires FetchMsCalendarEvents(outcome).Ok?
    ensures
      var all := FetchMsCalendarEvents(outcome).value;
      var teams := FetchTeamsMeetings(outcome).value;
      var outlook := FetchOutlookEvents(outcome).value;
      && |teams| + |outlook| == |all|
      && multiset(teams) + multiset(outlook) == multiset(all)
  {
    var all := FetchMsCalendarEvents(outcome).value;
    FilterPartition(all, IsTeams, IsOutlook);
  }

  /** The filters keep the fetched order: when every record is a Teams
      meeting the Teams list is the whole fetch and the Outlook list is empty. */
  lemma AllTeamsResponse(outcome: HttpOutcome)
    requires outcome.Response? && outcome.ok
    requires forall i :: 0 <= i < |outcome.value| ==> IsTeamsMeeting(outcome.value[i])
    ensures FetchTeamsMeetings(outcome) == FetchMsCalendarEvents(outcome)
    ensures FetchOutlookEvents(outcome) == Ok([])
  {
    var events := FetchMsCalendarEvents(outcome).value;
    FilterAll(events, IsTeams);
    FilterNone(events, IsOutlook);
  }

  /** A failed request yields an error from all three fetchers, never events. */
  lemma FailedRequestYieldsNoEvents(outcome: HttpOutcome)
    requires outcome.NoResponse? || !outcome.ok
    ensures FetchMsCalendarEvents(outcome).Err?
    ensures FetchTeamsMeetings(outcome).Err? && FetchOutlookEvents(outcome).Err?
  {
  }
}
