/** Abstract proleptic Gregorian calendar dates: month lengths, leap years, a day
    count since 0001-01-01 and the day of the week (0 = Sunday, as JavaScript's
    getDay reports it).  Section 3.2.1 of ISO 8601:2004 fixes the calendar; the
    week numbering here is the one the front-end uses, not the ISO Monday-first one.
 */
module Dates {

  datatype Date = Date(year: int, month: int, day: int) {
    /** A real calendar day: month 1..12 and day within that month's length. */
    predicate Valid() {
      1 <= month <= 12 && 1 <= day <= DaysInMonth(year, month)
    }
  }

  /** A date with a wall-clock time of day, as the events carry it. */
  datatype DateTime = DateTime(date: Date, hour: int, minute: int) {
    predicate Valid() {
      date.Valid() && 0 <= hour < 24 && 0 <= minute < 60
    }
  }

  predicate IsLeapYear(y: int) {
    y % 4 == 0 && (y % 100 != 0 || y % 400 == 0)
  }

  function DaysInYear(y: int): int {
    if IsLeapYear(y) then 366 else 365
  }

  function DaysInMonth(y: int, m: int): (n: int)
    ensures 28 <= n <= 31
  {
    if m == 2 then (if IsLeapYear(y) then 29 else 28)
    else if m == 4 || m == 6 || m == 9 || m == 11 then 30
    else 31
  }

  /** Number of days in the months of year y before month m (m in 1..13). */
  function DaysBeforeMonth(y: int, m: int): int
    requires 1 <= m <= 13
  {
    var common :=
      if m == 1 then 0 else if m == 2 then 31 else if m == 3 then 59
      else if m == 4 then 90 else if m == 5 then 120 else if m == 6 then 151
      else if m == 7 then 181 else if m == 8 then 212 else if m == 9 then 243
      else if m == 10 then 273 else if m == 11 then 304 else if m == 12 then 334
      else 365;
    common + (if m > 2 && IsLeapYear(y) then 1 else 0)
  }

  /** Number of days from 0001-01-01 to the first day of year y. */
  function DaysBeforeYear(y: int): int {
    var x := y - 1;
    365 * x + x / 4 - x / 100 + x / 400
  }

  /** Days elapsed since 0001-01-01 (day 0). */
  function DayNumber(d: Date): int
    requires d.Valid()
  {
    DaysBeforeYear(d.year) + DaysBeforeMonth(d.year, d.month) + d.day - 1
  }

  /** Day of the week, 0 = Sunday .. 6 = Saturday; 0001-01-01 was a Monday. */
  function DayOfWeek(d: Date): (w: int)
    requires d.Valid()
    ensures 0 <= w < 7
  {
    (DayNumber(d) + 1) % 7
  }

  /** Strict chronological order on dates. */
  predicate Before(a: Date, b: Date) {
    a.year < b.year
    || (a.year == b.year && (a.month < b.month || (a.month == b.month && a.day < b.day)))
  }

  function NextDay(d: Date): Date
    requires d.Valid()
  {
    if d.day < DaysInMonth(d.year, d.month) then Date(d.year, d.month, d.day + 1)
    else if d.month < 12 then Date(d.year, d.month + 1, 1)
    else Date(d.year + 1, 1, 1)
  }

  function PrevDay(d: Date): Date
    requires d.Valid()
  {
    if d.day > 1 then Date(d.year, d.month, d.day - 1)
    else if d.month > 1 then Date(d.year, d.month - 1, DaysInMonth(d.year, d.month - 1))
    else Date(d.year - 1, 12, 31)
  }

  /** The date n days after d (before it when n is negative), as date-fns addDays
      and `new Date(y, m, d + n)` compute it. */
  function AddDays(d: Date, n: int): (r: Date)
    requires d.Valid()
    ensures r.Valid()
    decreases if n < 0 then -n else n
  {
    if n == 0 then d
    else if n > 0 then AddDays(NextDay(d), n - 1)
    else AddDays(PrevDay(d), n + 1)
  }

  /** Months counted from January of year 0, so that adding months is adding here. */
  function MonthIndex(d: Date): int {
    d.year * 12 + d.month - 1
  }

  function Min(a: int, b: int): int {
    if a <= b then a else b
  }

  /** date-fns addMonths: move by n months, clamping the day to the target month. */
  function AddMonths(d: Date, n: int): (r: Date)
    requires d.Valid()
    ensures r.Valid()
    ensures MonthIndex(r) == MonthIndex(d) + n
    ensures r.day <= d.day
    ensures r.day == d.day || r.day == DaysInMonth(r.year, r.month)
  {
    var idx := MonthIndex(d) + n;
    var y := idx / 12;
    var m := idx % 12 + 1;
    Date(y, m, Min(d.day, DaysInMonth(y, m)))
  }

  /** date-fns startOfMonth, on the date part. */
  function StartOfMonth(d: Date): (r: Date)
    ensures r.Valid() <==> 1 <= d.month <= 12
    ensures r.year == d.year && r.month == d.month && r.day == 1
  {
    Date(d.year, d.month, 1)
  }

  // ---------------------------------------------------------------------------
  // Lemmas relating the calendar arithmetic to the day count
  // ---------------------------------------------------------------------------

  /** The cumulative month table agrees with the month lengths. */
  lemma DaysBeforeMonthStep(y: int, m: int)
    requires 1 <= m <= 12
    ensures DaysBeforeMonth(y, m + 1) == DaysBeforeMonth(y, m) + DaysInMonth(y, m)
    ensures DaysBeforeMonth(y, 13) == DaysInYear(y)
  {
  }

  /** A year contributes exactly its own length to the day count. */
  lemma DaysBeforeYearStep(y: int)
    ensures DaysBeforeYear(y + 1) == DaysBeforeYear(y) + DaysInYear(y)
  {
    DivSucc4(y - 1);
    DivSucc100(y - 1);
    DivSucc400(y - 1);
  }

  lemma DivSucc4(x: int)
    ensures (x + 1) / 4 == x / 4 + (if (x + 1) % 4 == 0 then 1 else 0)
  {
    var q, r := x / 4, x % 4;
    assert x == 4 * q + r;
    if r == 3 {
      assert x + 1 == 4 * (q + 1);
    } else {
      assert x + 1 == 4 * q + (r + 1);
    }
  }

  lemma DivSucc100(x: int)
    ensures (x + 1) / 100 == x / 100 + (if (x + 1) % 100 == 0 then 1 else 0)
  {
    var q, r := x / 100, x % 100;
    assert x == 100 * q + r;
    if r == 99 {
      assert x + 1 == 100 * (q + 1);
    } else {
      assert x + 1 == 100 * q + (r + 1);
    }
  }

  lemma DivSucc400(x: int)
    ensures (x + 1) / 400 == x / 400 + (if (x + 1) % 400 == 0 then 1 else 0)
  {
    var q, r := x / 400, x % 400;
    assert x == 400 * q + r;
    if r == 399 {
      assert x + 1 == 400 * (q + 1);
    } else {
      assert x + 1 == 400 * q + (r + 1);
    }
  }

  /** Shifting by a multiple of seven does not change a weekday. */
  lemma ModSevenShift(a: int, n: int)
    ensures (a + n) % 7 == (a % 7 + n) % 7
  {
    var q := a / 7;
    assert a == 7 * q + a % 7;
    var b := a % 7 + n;
    assert a + n == b + 7 * q;
    assert (b + 7 * q) % 7 == b % 7;
  }

  lemma {:induction false} DaysBeforeYearMonotone(y1: int, y2: int)
    requires y1 <= y2
    ensures DaysBeforeYear(y1) + 365 * (y2 - y1) <= DaysBeforeYear(y2)
    decreases y2 - y1
  {
    if y1 < y2 {
      DaysBeforeYearMonotone(y1, y2 - 1);
      DaysBeforeYearStep(y2 - 1);
    }
  }

  /** Within its year a date's offset is below the year's length. */
  lemma DayOfYearBound(d: Date)
    requires d.Valid()
    ensures 0 <= DaysBeforeMonth(d.year, d.month) + d.day - 1 < DaysInYear(d.year)
  {
    DaysBeforeMonthStep(d.year, d.month);
  }

  /** The successor of a valid date is valid and one day later. */
  lemma NextDayNumber(d: Date)
    requires d.Valid()
    ensures NextDay(d).Valid()
    ensures DayNumber(NextDay(d)) == DayNumber(d) + 1
  {
    DaysBeforeMonthStep(d.year, d.month);
    if d.day == DaysInMonth(d.year, d.month) && d.month == 12 {
      DaysBeforeYearStep(d.year);
    }
  }

  /** The predecessor of a valid date is valid and one day earlier. */
  lemma PrevDayNumber(d: Date)
    requires d.Valid()
    ensures PrevDay(d).Valid()
    ensures DayNumber(PrevDay(d)) == DayNumber(d) - 1
  {
    if d.day == 1 && d.month > 1 {
      DaysBeforeMonthStep(d.year, d.month - 1);
    } else if d.day == 1 {
      DaysBeforeYearStep(d.year - 1);
      DaysBeforeMonthStep(d.year - 1, 12);
    }
  }

  /** Chronological order is exactly the order of day numbers. */
  lemma BeforeIffDayNumberLess(a: Date, b: Date)
    requires a.Valid() && b.Valid()
    ensures Before(a, b) <==> DayNumber(a) < DayNumber(b)
  {
    if Before(a, b) {
      BeforeImpliesLess(a, b);
    } else if a == b {
    } else {
      assert Before(b, a);
      BeforeImpliesLess(b, a);
    }
  }

  lemma BeforeImpliesLess(a: Date, b: Date)
    requires a.Valid() && b.Valid() && Before(a, b)
    ensures DayNumber(a) < DayNumber(b)
  {
    if a.year < b.year {
      DayOfYearBound(a);
      DaysBeforeYearStep(a.year);
      DaysBeforeYearMonotone(a.year + 1, b.year);
    } else if a.month < b.month {
      DaysBeforeMonthStep(a.year, a.month);
    }
  }

  /** Distinct valid dates have distinct day numbers. */
  lemma DayNumberInjective(a: Date, b: Date)
    requires a.Valid() && b.Valid()
    requires DayNumber(a) == DayNumber(b)
    ensures a == b
  {
    BeforeIffDayNumberLess(a, b);
    BeforeIffDayNumberLess(b, a);
  }

  /** Adding n days adds n to the day number. */
  lemma {:induction false} AddDaysNumber(d: Date, n: int)
    requires d.Valid()
    ensures DayNumber(AddDays(d, n)) == DayNumber(d) + n
    decreases if n < 0 then -n else n
  {
    if n > 0 {
      NextDayNumber(d);
      AddDaysNumber(NextDay(d), n - 1);
    } else if n < 0 {
      PrevDayNumber(d);
      AddDaysNumber(PrevDay(d), n + 1);
    }
  }

  /** Moving a days and then b days is moving a + b days; in particular moving
      forward n days and back n days returns to the start. */
  lemma AddDaysCompose(d: Date, a: int, b: int)
    requires d.Valid()
    ensures AddDays(AddDays(d, a), b) == AddDays(d, a + b)
  {
    AddDaysNumber(d, a);
    AddDaysNumber(AddDays(d, a), b);
    AddDaysNumber(d, a + b);
    DayNumberInjective(AddDays(AddDays(d, a), b), AddDays(d, a + b));
  }

  /** Adding n days advances the weekday by n, modulo 7. */
  lemma AddDaysWeekday(d: Date, n: int)
    requires d.Valid()
    ensures DayOfWeek(AddDays(d, n)) == (DayOfWeek(d) + n) % 7
  {
    AddDaysNumber(d, n);
    ModSevenShift(DayNumber(d) + 1, n);
  }

  lemma NextDayIsAddOne(d: Date)
    requires d.Valid()
    ensures AddDays(d, 1) == NextDay(d)
  {
    NextDayNumber(d);
    AddDaysNumber(d, 1);
    DayNumberInjective(AddDays(d, 1), NextDay(d));
  }

  /** Within a month, counting from its first day walks the day-of-month. */
  lemma {:induction false} AddDaysWithinMonth(y: int, m: int, k: int)
    requires 1 <= m <= 12 && 0 <= k < DaysInMonth(y, m)
    ensures AddDays(Date(y, m, 1), k) == Date(y, m, 1 + k)
  {
    var first := Date(y, m, 1);
    var target := Date(y, m, 1 + k);
    AddDaysNumber(first, k);
    DayNumberInjective(AddDays(first, k), target);
  }

  /** The year JavaScript's `new Date(year, monthIndex, day)` actually
      uses: a year from 0 to 99 is read as 1900 + year. */
  function CtorYear(y: int): (r: int)
    ensures 0 <= y <= 99 ==> r == 1900 + y
    ensures !(0 <= y <= 99) ==> r == y
  {
    if 0 <= y <= 99 then 1900 + y else y
  }

  /** `new Date(y, m - 1, d)` on the date part: the year goes through
      CtorYear, and a day outside the month rolls over into the neighbouring
      months, so the result is day d counted from the 1st of that month. */
  function DateCtor(y: int, m: int, d: int): (r: Date)
    requires 1 <= m <= 12
    ensures r.Valid()
    ensures DayNumber(r) == DayNumber(Date(CtorYear(y), m, 1)) + d - 1
    ensures 1 <= d <= DaysInMonth(CtorYear(y), m) ==> r == Date(CtorYear(y), m, d)
  {
    var first := Date(CtorYear(y), m, 1);
    AddDaysNumber(first, d - 1);
    if 1 <= d <= DaysInMonth(CtorYear(y), m) then
      AddDaysWithinMonth(CtorYear(y), m, d - 1);
      AddDays(first, d - 1)
    else AddDays(first, d - 1)
  }

  /** Consistency with the real calendar: 1 January 2024 was a Monday and
      29 February 2000 existed while 29 February 1900 did not. */
  lemma CalendarAnchors()
    ensures DayOfWeek(Date(2024, 1, 1)) == 1
    ensures Date(2000, 2, 29).Valid() && !Date(1900, 2, 29).Valid()
    ensures DayOfWeek(Date(1970, 1, 1)) == 4
  {
  }

  /** Moving forward n months and back n months is the identity when no
      clamping happens (the day exists in every month). */
  lemma AddMonthsRoundTrip(d: Date, n: int)
    requires d.Valid() && d.day <= 28
    ensures AddMonths(AddMonths(d, n), -n) == d
  {
    var r := AddMonths(d, n);
    var back := AddMonths(r, -n);
    assert MonthIndex(back) == MonthIndex(d);
    assert back.year == d.year && back.month == d.month;
  }

  /** Month arithmetic is not invertible in general: 31 January plus one month
      is clamped to 29 February 2024, and going back lands on 29 January. */
  lemma AddMonthsClampsAtMonthEnd()
    ensures AddMonths(Date(2024, 1, 31), 1) == Date(2024, 2, 29)
    ensures AddMonths(AddMonths(Date(2024, 1, 31), 1), -1) == Date(2024, 1, 29)
  {
    assert MonthIndex(Date(2024, 1, 31)) == 24288;
    assert 24289 / 12 == 2024 && 24289 % 12 == 1;
    assert 24288 / 12 == 2024 && 24288 % 12 == 0;
  }

  // ---------------------------------------------------------------------------
  // Times of day, month ordering and the displayed year
  // ---------------------------------------------------------------------------

  /** Minutes since 0001-01-01 00:00, the timestamp JavaScript compares when
      `<` is applied to two Date values (at the minute resolution of the
      form inputs). */
  function MinuteStamp(t: DateTime): int
    requires t.date.Valid()
  {
    DayNumber(t.date) * 1440 + t.hour * 60 + t.minute
  }

  /** Strict calendar order on date-times: by date, then hour, then minute. */
  predicate TimeBefore(a: DateTime, b: DateTime) {
    Before(a.date, b.date)
    || (a.date == b.date && (a.hour < b.hour || (a.hour == b.hour && a.minute < b.minute)))
  }

  /** Comparing timestamps is comparing date, hour and minute in turn. */
  lemma TimeBeforeIffEarlierStamp(a: DateTime, b: DateTime)
    requires a.Valid() && b.Valid()
    ensures TimeBefore(a, b) <==> MinuteStamp(a) < MinuteStamp(b)
  {
    var da, db := DayNumber(a.date), DayNumber(b.date);
    var ra, rb := a.hour * 60 + a.minute, b.hour * 60 + b.minute;
    assert 0 <= ra < 1440 && 0 <= rb < 1440;
    BeforeIffDayNumberLess(a.date, b.date);
    BeforeIffDayNumberLess(b.date, a.date);
    if da < db {
      assert da * 1440 + 1440 <= db * 1440;
    } else if db < da {
      assert db * 1440 + 1440 <= da * 1440;
    } else {
      DayNumberInjective(a.date, b.date);
    }
  }

  /** A smaller month index means an earlier date. */
  lemma MonthIndexBefore(a: Date, b: Date)
    requires a.Valid() && b.Valid()
    requires MonthIndex(a) < MonthIndex(b)
    ensures Before(a, b)
  {
  }

  /** The year number date-fns prints for the `yyyy` token: the year of the
      era, so year 0 (1 BC) prints as 1 and year -1 as 2. */
  function EraYear(y: int): (e: nat)
    ensures e >= 1
    ensures y >= 1 ==> e == y
  {
    if y >= 1 then y else 1 - y
  }
}
