/** The hour rows shared by the week and day views
    (src/components/calendar/CalendarWeek.tsx, CalendarDay.tsx): fifteen
    one-hour slots from 7:00 to 21:00, and the bucketing of events by the hour
    they start in. */
module HourSlots {
  import opened Dates
  import opened Seqs
  import opened Events

  const FirstHour: int := 7
  const SlotCount: nat := 15

  /** `Array.from({ length: 15 }, (_, i) => i + 7)`. */
  function Hours(): (hs: seq<int>)
    ensures |hs| == SlotCount
    ensures forall i, j :: 0 <= i < j < |hs| ==> hs[i] < hs[j]
    ensures forall h :: h in hs <==> 7 <= h <= 21
  {
    var hs := seq(SlotCount, i requires 0 <= i < SlotCount => FirstHour + i);
    forall h | 7 <= h <= 21 ensures h in hs {
      assert hs[h - FirstHour] == h;
    }
    hs
  }

  /** Events starting in hour h (on any day). */
  function StartsInHour(h: int): (p: CalendarEvent -> bool)
    ensures forall e :: p(e) <==> StartHour(e) == h
  {
    e => StartHour(e) == h
  }

  /** Events starting in the hours lo .. hi - 1. */
  function StartsBetween(lo: int, hi: int): (p: CalendarEvent -> bool)
    ensures forall e :: p(e) <==> lo <= StartHour(e) < hi
  {
    e => lo <= StartHour(e) < hi
  }

  /** n consecutive hour buckets from hour lo, each the events starting in
      its hour, in input order. */
  function HourBuckets(es: seq<CalendarEvent>, lo: int, n: nat): (b: seq<seq<CalendarEvent>>)
    ensures |b| == n
    ensures forall i :: 0 <= i < n ==> b[i] == Filter(es, StartsInHour(lo + i))
  {
    seq(n, i requires 0 <= i < n => Filter(es, StartsInHour(lo + i)))
  }

  /** The buckets for the hours lo .. hi - 1 together hold each event
      starting in those hours exactly as often as es does, and nothing else. */
  lemma {:induction false} HourBucketsCover(es: seq<CalendarEvent>, lo: int, hi: int)
    requires lo <= hi
    ensures multiset(Flatten(HourBuckets(es, lo, hi - lo))) == multiset(Filter(es, StartsBetween(lo, hi)))
    decreases hi - lo
  {
    if lo == hi {
      EmptyHourRange(es, lo);
    } else {
      var b := HourBuckets(es, lo, hi - lo);
      var rest := HourBuckets(es, lo + 1, hi - (lo + 1));
      HourBucketsTail(es, lo, hi);
      HourBucketsCover(es, lo + 1, hi);
      BucketStep(es, lo, hi, b[0], Flatten(rest));
    }
  }

  /** Peeling off the first hour of a range of buckets. */
  lemma HourBucketsTail(es: seq<CalendarEvent>, lo: int, hi: int)
    requires lo < hi
    ensures var b := HourBuckets(es, lo, hi - lo);
            Flatten(b) == Filter(es, StartsInHour(lo)) + Flatten(HourBuckets(es, lo + 1, hi - (lo + 1)))
  {
    var b := HourBuckets(es, lo, hi - lo);
    assert b[1..] == HourBuckets(es, lo + 1, hi - (lo + 1));
  }

  /** No event starts in an empty range of hours. */
  lemma EmptyHourRange(es: seq<CalendarEvent>, lo: int)
    ensures Filter(es, StartsBetween(lo, lo)) == []
  {
  }

  /** The inductive step: the bucket of hour lo and the events of the later
      hours make up the events of hours lo .. hi - 1. */
  lemma BucketStep(es: seq<CalendarEvent>, lo: int, hi: int, first: seq<CalendarEvent>, later: seq<CalendarEvent>)
    requires lo < hi
    requires first == Filter(es, StartsInHour(lo))
    requires multiset(later) == multiset(Filter(es, StartsBetween(lo + 1, hi)))
    ensures multiset(first + later) == multiset(Filter(es, StartsBetween(lo, hi)))
  {
    FilterDisjointUnion(es, StartsInHour(lo), StartsBetween(lo + 1, hi), StartsBetween(lo, hi));
  }
}
