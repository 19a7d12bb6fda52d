/** The submit handler of the event-creation dialog
    (src/components/calendar/CreateEventDialog.tsx): validating the title and
    the time order, parsing the comma-separated attendee list and building the
    new event with its source and colour.  The form's date and time inputs
    arrive already combined into date-times; the clock reading used for the id
    is a parameter. */
module CreateEvent {
  import opened Dates
  import opened Wrappers
  import opened Strings
  import opened Seqs
  import opened Events

  /** An attendee's reply; the dialog always records `none`. */
  datatype Response = Accepted | Declined | Tentative | NoReply

  datatype Attendee = Attendee(name: string, email: string, response: Response)

  /** The event shape the dialog builds (src/types/calendar.ts), which unlike
      the views' event type has `isAllDay` and `attendees` and a mandatory
      source. */
  datatype NewEvent = NewEvent(
    id: string,
    title: string,
    description: Option<string>,
    location: Option<string>,
    start: DateTime,
    end: DateTime,
    source: Source,
    color: Option<string>,
    isAllDay: Option<bool>,
    attendees: Option<seq<Attendee>>
  )

  /** The dialog's form fields at submission. */
  datatype Form = Form(
    title: string,
    description: string,
    location: string,
    start: DateTime,
    end: DateTime,
    isAllDay: bool,
    isTeamsMeeting: bool,
    attendees: string
  )

  /** Why a submission is refused (each shows an error toast). */
  datatype FormError = MissingTitle | EndBeforeStart

  const EventIdPrefix: string := "event-"

  predicate NonEmpty(s: string) {
    |s| > 0
  }

  /** Each comma-separated piece, trimmed. */
  function TrimAll(pieces: seq<string>): (r: seq<string>)
    ensures |r| == |pieces|
    ensures forall i :: 0 <= i < |r| ==> r[i] == Trim(pieces[i])
  {
    seq(|pieces|, i requires 0 <= i < |pieces| => Trim(pieces[i]))
  }

  /** What a parsed entry looks like: non-empty, comma-free and without white
      space at either end. */
  predicate CleanEntry(x: string) {
    |x| > 0 && ',' !in x && !IsSpace(x[0]) && !IsSpace(x[|x| - 1])
  }

  /** The attendee e-mail entries: the comma-split pieces, trimmed, with the
      empty ones dropped, in input order. */
  function AttendeeEmails(s: string): (r: seq<string>)
    ensures forall i :: 0 <= i < |r| ==> CleanEntry(r[i])
  {
    var pieces := Split(s, ',');
    var trimmed := TrimAll(pieces);
    var r := Filter(trimmed, NonEmpty);
    forall j | 0 <= j < |trimmed| ensures CleanOrEmpty(trimmed[j]) {
      TrimmedPieceClean(pieces[j]);
    }
    FilterPreserves(trimmed, NonEmpty, CleanOrEmpty);
    r
  }

  predicate CleanOrEmpty(x: string) {
    x == [] || CleanEntry(x)
  }

  lemma TrimmedPieceClean(piece: string)
    requires ',' !in piece
    ensures CleanOrEmpty(Trim(piece))
  {
    if ',' in Trim(piece) {
      TrimKeepsChars(piece, ',');
    }
  }

  /** The attendee records: the name is the text before the first `@` (the
      whole entry when it has none) and the reply is `none`. */
  function ParseAttendees(s: string): (r: seq<Attendee>)
    ensures |r| == |AttendeeEmails(s)|
    ensures forall i :: 0 <= i < |r| ==>
              && r[i].email == AttendeeEmails(s)[i]
              && CleanEntry(r[i].email)
              && r[i].response == NoReply
              && r[i].name <= r[i].email
              && '@' !in r[i].name
              && (|r[i].name| < |r[i].email| ==> r[i].email[|r[i].name|] == '@')
  {
    var emails := AttendeeEmails(s);
    seq(|emails|, i requires 0 <= i < |emails| => Attendee(BeforeFirst(emails[i], '@'), emails[i], NoReply))
  }

  /** `handleSubmit` up to the hand-off of the new event: refuse an empty
      title, refuse an end strictly before the start (equal times pass), and
      otherwise build the event.  `now` is the millisecond clock reading. */
  function Submit(f: Form, now: nat): (r: Result<NewEvent, FormError>)
    requires f.start.Valid() && f.end.Valid()
    ensures f.title == [] ==> r == Err(MissingTitle)
    ensures f.title != [] && TimeBefore(f.end, f.start) ==> r == Err(EndBeforeStart)
    ensures r.Ok? <==> f.title != [] && !TimeBefore(f.end, f.start)
    ensures r.Ok? ==>
              && r.value.id == EventIdPrefix + NatToString(now)
              && r.value.title == f.title
              && r.value.description == Some(f.description)
              && r.value.location == Some(f.location)
              && r.value.start == f.start && r.value.end == f.end
              && r.value.isAllDay == Some(f.isAllDay)
    ensures r.Ok? ==> (r.value.source == Teams <==> f.isTeamsMeeting)
    ensures r.Ok? ==> r.value.source in {Teams, Outlook}
    ensures r.Ok? ==> r.value.color == Some(if f.isTeamsMeeting then TeamsColor else OutlookColor)
    ensures r.Ok? ==> (r.value.attendees.None? <==> |AttendeeEmails(f.attendees)| == 0)
    ensures r.Ok? && r.value.attendees.Some? ==>
              && |r.value.attendees.value| == |AttendeeEmails(f.attendees)|
              && forall i :: 0 <= i < |r.value.attendees.value| ==>
                   r.value.attendees.value[i].email == AttendeeEmails(f.attendees)[i]
    ensures r.Ok? && r.value.attendees.Some? ==> r.value.attendees.value == ParseAttendees(f.attendees)
  {
    TimeBeforeIffEarlierStamp(f.end, f.start);
    if f.title == [] then Err(MissingTitle)
    else if MinuteStamp(f.end) < MinuteStamp(f.start) then Err(EndBeforeStart)
    else
      var attendees := ParseAttendees(f.attendees);
      Ok(NewEvent(
        EventIdPrefix + NatToString(now),
        f.title,
        Some(f.description),
        Some(f.location),
        f.start,
        f.end,
        if f.isTeamsMeeting then Teams else Outlook,
        Some(if f.isTeamsMeeting then TeamsColor else OutlookColor),
        Some(f.isAllDay),
        if |attendees| > 0 then Some(attendees) else None))
  }

  /** A list written as the entries joined by commas parses back to exactly
      those entries, provided each is non-empty, has no comma and no
      surrounding white space. */
  lemma AttendeeEmailsJoin(emails: seq<string>)
    requires |emails| >= 1
    requires forall i :: 0 <= i < |emails| ==> CleanEntry(emails[i])
    ensures AttendeeEmails(Join(emails, ',')) == emails
  {
    SplitJoin(emails, ',');
    var trimmed := TrimAll(emails);
    forall i | 0 <= i < |emails| ensures trimmed[i] == emails[i] {
      TrimNoSpace(emails[i]);
    }
    assert trimmed == emails;
    FilterAll(emails, NonEmpty);
  }

  /** For any comma-free pieces, the field written as the pieces joined by
      commas yields the trimmed pieces with the blank ones dropped, in order. */
  lemma AttendeeEmailsPieces(pieces: seq<string>)
    requires |pieces| >= 1
    requires forall i :: 0 <= i < |pieces| ==> ',' !in pieces[i]
    ensures AttendeeEmails(Join(pieces, ',')) == Filter(TrimAll(pieces), NonEmpty)
  {
    SplitJoin(pieces, ',');
  }

  lemma Regroup(a: string, x: string, y: string, b: string)
    ensures a + x + (y + b) == a + (x + y) + b
  {
  }

  lemma JoinPair(x: string, y: string, sep: char)
    ensures Join([x, y], sep) == x + [sep] + y
  {
    assert [x, y][1..] == [y];
  }

  /** Two entries separated by a comma and a space, as in the form's
      placeholder `john@example.com, jane@example.com`, yield the two entries. */
  lemma AttendeeSpaceAfterComma(a: string, b: string)
    requires CleanEntry(a) && CleanEntry(b)
    ensures AttendeeEmails(a + ", " + b) == [a, b]
  {
    var pieces := [a, " " + b];
    SpaceAfterCommaTrim(a, b);
    SpaceAfterCommaSplit(a, b);
    assert Join(pieces, ',') == a + ", " + b by {
      JoinSpaceAfterComma(a, b);
    }
  }

  lemma SpaceAfterCommaSplit(a: string, b: string)
    requires ',' !in a && ',' !in b
    ensures AttendeeEmails(Join([a, " " + b], ',')) == Filter(TrimAll([a, " " + b]), NonEmpty)
  {
    var pieces := [a, " " + b];
    assert ',' !in pieces[0] && ',' !in pieces[1];
    AttendeeEmailsPieces(pieces);
  }

  lemma SpaceAfterCommaTrim(a: string, b: string)
    requires CleanEntry(a) && CleanEntry(b)
    ensures Filter(TrimAll([a, " " + b]), NonEmpty) == [a, b]
  {
    assert TrimAll([a, " " + b]) == [a, b] by {
      TrimNoSpace(a);
      LeadingSpaceTrimmed(b);
    }
    FilterAll([a, b], NonEmpty);
  }

  lemma LeadingSpaceTrimmed(b: string)
    requires CleanEntry(b)
    ensures Trim(" " + b) == b
  {
    var s := " " + b;
    assert s[1..] == b;
    assert TrimStart(s) == TrimStart(b);
    TrimNoSpace(b);
  }

  lemma JoinSpaceAfterComma(a: string, b: string)
    ensures Join([a, " " + b], ',') == a + ", " + b
  {
    JoinPair(a, " " + b, ',');
    Regroup(a, [','], " ", b);
    assert [','] + " " == ", ";
  }

  /** An empty piece between two commas is dropped. */
  lemma AttendeeEmptyPiece(a: string, b: string)
    requires CleanEntry(a) && CleanEntry(b)
    ensures AttendeeEmails(a + ",," + b) == [a, b]
  {
    var pieces := [a, "", b];
    EmptyPieceTrim(a, b);
    EmptyPieceSplit(a, b);
    assert Join(pieces, ',') == a + ",," + b by {
      JoinEmptyPiece(a, b);
    }
  }

  lemma EmptyPieceTrim(a: string, b: string)
    requires CleanEntry(a) && CleanEntry(b)
    ensures Filter(TrimAll([a, "", b]), NonEmpty) == [a, b]
  {
    var pieces := [a, "", b];
    assert TrimAll(pieces) == pieces by {
      TrimNoSpace(a);
      TrimNoSpace("");
      TrimNoSpace(b);
    }
    DropEmptyMiddle(a, b);
  }

  lemma DropEmptyMiddle(a: string, b: string)
    requires a != [] && b != []
    ensures Filter([a, "", b], NonEmpty) == [a, b]
  {
    assert [a, "", b] == [a] + [""] + [b];
    FilterConcat([a] + [""], [b], NonEmpty);
    FilterConcat([a], [""], NonEmpty);
  }

  lemma EmptyPieceSplit(a: string, b: string)
    requires ',' !in a && ',' !in b
    ensures AttendeeEmails(Join([a, "", b], ',')) == Filter(TrimAll([a, "", b]), NonEmpty)
  {
    var pieces := [a, "", b];
    assert ',' !in pieces[0] && ',' !in pieces[1] && ',' !in pieces[2];
    AttendeeEmailsPieces(pieces);
  }

  lemma JoinEmptyPiece(a: string, b: string)
    ensures Join([a, "", b], ',') == a + ",," + b
  {
    var pieces := [a, "", b];
    JoinPair("", b, ',');
    assert pieces[1..] == ["", b];
    assert "" + [','] + b == [','] + b;
    Regroup(a, [','], [','], b);
  }

  /** A blank attendee field yields no attendees. */
  lemma BlankAttendeesField()
    ensures AttendeeEmails("") == []
  {
    assert Split("", ',') == [""];
    assert Trim("") == "";
  }

  /** Equal start and end times are accepted: the check is strict. */
  lemma EqualTimesAccepted(f: Form, now: nat)
    requires f.start.Valid() && f.end.Valid()
    requires f.title != [] && f.end == f.start
    ensures Submit(f, now).Ok?
  {
  }
}
