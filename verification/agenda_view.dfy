/** The agenda view (src/components/calendar/CalendarAgenda.tsx): events are
    grouped under the `yyyy-MM-dd` key of their start date (the extended
    complete calendar-date form of section 4.1.2.2 of ISO 8601:2004), each
    group keeping input order, and the groups are listed by ascending key. */
module AgendaView {
  import opened Dates
  import opened Strings
  import opened Seqs
  import opened Events
  import opened Grouping

  // ---------------------------------------------------------------------------
  // The date key
  // ---------------------------------------------------------------------------

  /** `format(date, 'yyyy-MM-dd')`: the year of the era padded to four digits,
      month and day padded to two. */
  function DateKey(d: Date): (k: string)
    requires d.Valid()
    ensures 1 <= d.year <= 9999 ==> |k| == 10 && k[4] == '-' && k[7] == '-'
  {
    var y, m, dd := ZeroPad(EraYear(d.year), 4), ZeroPad(d.month as nat, 2), ZeroPad(d.day as nat, 2);
    var k := y + ("-" + (m + ("-" + dd)));
    if 1 <= d.year <= 9999 then
      ZeroPadWidth(d.year as nat, 4);
      ZeroPadWidth(d.month as nat, 2);
      ZeroPadWidth(d.day as nat, 2);
      k
    else k
  }

  /** The key an event is filed under.  `format` throws on an invalid date,
      so the agenda is only drawn for events with valid starts; the fallback
      key of an invalid start is never used there. */
  function EventKey(e: CalendarEvent): string {
    if StartDay(e).Valid() then DateKey(StartDay(e)) else ""
  }

  /** Every start is a calendar date that `format` can print. */
  predicate StartsValid(events: seq<CalendarEvent>) {
    forall i :: 0 <= i < |events| ==> StartDay(events[i]).Valid()
  }

  /** Every start lies in the years 1 to 9999, where keys have four-digit years. */
  predicate StartsInFourDigitYears(events: seq<CalendarEvent>) {
    forall i :: 0 <= i < |events| ==> 1 <= StartDay(events[i]).year <= 9999
  }

  /** For years 1 to 9999 the string order of keys is the calendar order of
      the dates, so sorting the keys sorts the days chronologically. */
  lemma KeyOrderIsChronological(a: Date, b: Date)
    requires a.Valid() && b.Valid()
    requires 1 <= a.year <= 9999 && 1 <= b.year <= 9999
    ensures LexLess(DateKey(a), DateKey(b)) <==> Before(a, b)
  {
    var ya, ma, da := ZeroPad(a.year as nat, 4), ZeroPad(a.month as nat, 2), ZeroPad(a.day as nat, 2);
    var yb, mb, db := ZeroPad(b.year as nat, 4), ZeroPad(b.month as nat, 2), ZeroPad(b.day as nat, 2);
    ZeroPadWidth(a.year as nat, 4);
    ZeroPadWidth(b.year as nat, 4);
    ZeroPadWidth(a.month as nat, 2);
    ZeroPadWidth(b.month as nat, 2);
    ZeroPadOrder(a.year as nat, b.year as nat, 4);
    ZeroPadOrder(a.month as nat, b.month as nat, 2);
    ZeroPadOrder(a.day as nat, b.day as nat, 2);
    if ya == yb { ZeroPadInjective(a.year as nat, b.year as nat, 4); }
    if ma == mb { ZeroPadInjective(a.month as nat, b.month as nat, 2); }
    LexIrreflexive("-");
    LexConcat(ma, "-" + da, mb, "-" + db);
    LexConcat("-", ma + ("-" + da), "-", mb + ("-" + db));
    LexConcat("-", da, "-", db);
    LexConcat(ya, "-" + (ma + ("-" + da)), yb, "-" + (mb + ("-" + db)));
  }

  /** Different days in the years 1 to 9999 get different keys. */
  lemma KeysTellDaysApart(a: Date, b: Date)
    requires a.Valid() && b.Valid()
    requires 1 <= a.year <= 9999 && 1 <= b.year <= 9999
    requires DateKey(a) == DateKey(b)
    ensures a == b
  {
    KeyOrderIsChronological(a, b);
    KeyOrderIsChronological(b, a);
    LexIrreflexive(DateKey(a));
  }

  /** Two events with valid starts in the years 1 to 9999 share a key exactly
      when they start on the same day. */
  lemma SameKeyIffSameDay(a: CalendarEvent, b: CalendarEvent)
    requires StartDay(a).Valid() && StartDay(b).Valid()
    requires 1 <= StartDay(a).year <= 9999 && 1 <= StartDay(b).year <= 9999
    ensures EventKey(a) == EventKey(b) <==> StartDay(a) == StartDay(b)
  {
    if EventKey(a) == EventKey(b) {
      KeysTellDaysApart(StartDay(a), StartDay(b));
    }
  }

  // ---------------------------------------------------------------------------
  // The rendered groups
  // ---------------------------------------------------------------------------

  /** `eventsByDate` keyed by `sortedDates`: one group per start date, by
      ascending key, each holding that date's events in input order; no
      events gives no groups (the "No events to display" branch). */
  function Agenda(events: seq<CalendarEvent>): (groups: seq<Group<CalendarEvent>>)
    requires StartsValid(events)
    ensures |groups| == 0 <==> |events| == 0
    ensures forall i, j :: 0 <= i < j < |groups| ==> LexLess(groups[i].key, groups[j].key)
    ensures forall i :: 0 <= i < |groups| ==>
              groups[i].items == Filter(events, KeyIs(EventKey, groups[i].key)) && |groups[i].items| > 0
    ensures forall i :: 0 <= i < |events| ==>
              exists g :: 0 <= g < |groups| && groups[g].key == EventKey(events[i])
  {
    SortedGroups(events, EventKey)
  }

  /** Every event appears in the agenda exactly once. */
  lemma AgendaShowsEachEventOnce(events: seq<CalendarEvent>)
    requires StartsValid(events)
    ensures multiset(Flatten(Items(Agenda(events)))) == multiset(events)
    ensures |Flatten(Items(Agenda(events)))| == |events|
  {
    SortedGroupsPartition(events, EventKey);
  }

  /** In the years 1 to 9999 each group is one day: an event is in a group
      exactly when it starts on the day of the group's first event. */
  lemma AgendaGroupIsOneDay(events: seq<CalendarEvent>, g: nat, e: CalendarEvent)
    requires StartsValid(events) && StartsInFourDigitYears(events)
    requires e in events
    ensures g < |Agenda(events)| ==>
              (e in Agenda(events)[g].items <==> StartDay(e) == StartDay(Agenda(events)[g].items[0]))
  {
    if g < |Agenda(events)| {
      var group := Agenda(events)[g];
      var first := group.items[0];
      assert first in events;
      SameKeyIffSameDay(e, first);
    }
  }

  /** In the years 1 to 9999 the groups run in calendar order: every event of
      an earlier group starts on an earlier day than every event of a later
      one. */
  lemma AgendaIsChronological(events: seq<CalendarEvent>, g: nat, h: nat, a: CalendarEvent, b: CalendarEvent)
    requires StartsValid(events) && StartsInFourDigitYears(events)
    requires g < h
    ensures h < |Agenda(events)| && a in Agenda(events)[g].items && b in Agenda(events)[h].items ==>
              Before(StartDay(a), StartDay(b))
  {
    var groups := Agenda(events);
    if h < |groups| && a in groups[g].items && b in groups[h].items {
      assert a in events && b in events;
      assert EventKey(a) == groups[g].key && EventKey(b) == groups[h].key;
      KeyOrderIsChronological(StartDay(a), StartDay(b));
    }
  }
}
