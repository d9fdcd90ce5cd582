/**
 * The proleptic Gregorian calendar of ECMAScript dates (section 21.4.1 of
 * ECMA-262), with local time taken to be UTC. A date is kept as its
 * calendar fields; its time value (milliseconds since 1970-01-01) is
 * computed from them.
 */
module Calendar {
  import opened Text
  import opened Wrappers

  const MsPerDay: int := 86400000
  /** The largest magnitude of a time value (section 21.4.1.31 of ECMA-262, TimeClip). */
  const MaxTime: int := 8640000000000000

  predicate IsLeap(y: int)
  {
    y % 4 == 0 && (y % 100 != 0 || y % 400 == 0)
  }

  function DaysInYear(y: int): int
  {
    if IsLeap(y) then 366 else 365
  }

  /** Days in month `m` (0 = January) of year `y`. */
  function DaysInMonth(y: int, m: int): (n: int)
    requires 0 <= m < 12
    ensures 28 <= n <= 31
    ensures m == 1 ==> (n == 29 <==> IsLeap(y))
  {
    if m == 1 then (if IsLeap(y) then 29 else 28)
    else if m == 3 || m == 5 || m == 8 || m == 10 then 30
    else 31
  }

  /** Days in the months of year `y` before month `m`. */
  function DaysBeforeMonth(y: int, m: int): int
    requires 0 <= m <= 12
  {
    (if m == 0 then 0 else if m == 1 then 31 else if m == 2 then 59 else if m == 3 then 90
     else if m == 4 then 120 else if m == 5 then 151 else if m == 6 then 181 else if m == 7 then 212
     else if m == 8 then 243 else if m == 9 then 273 else if m == 10 then 304 else if m == 11 then 334 else 365)
    + (if m >= 2 && IsLeap(y) then 1 else 0)
  }

  lemma DaysBeforeMonthNext(y: int, m: int)
    requires 0 <= m < 12
    ensures DaysBeforeMonth(y, m + 1) == DaysBeforeMonth(y, m) + DaysInMonth(y, m)
  {
  }

  lemma DaysBeforeMonthLimit(y: int)
    ensures DaysBeforeMonth(y, 12) == DaysInYear(y)
  {
  }

  lemma {:induction false} DaysBeforeMonthGrows(y: int, m: int, m': int)
    requires 0 <= m < m' <= 12
    ensures DaysBeforeMonth(y, m) + DaysInMonth(y, m) <= DaysBeforeMonth(y, m')
    decreases m' - m
  {
    DaysBeforeMonthNext(y, m);
    if m' > m + 1 {
      DaysBeforeMonthGrows(y, m + 1, m');
    }
  }

  /** Day number of January 1 of year `y` (section 21.4.1.3 of ECMA-262, DayFromYear). */
  function DayFromYear(y: int): int
    decreases if y < 1970 then 1970 - y else y - 1970
  {
    if y == 1970 then 0
    else if y > 1970 then DayFromYear(y - 1) + DaysInYear(y - 1)
    else DayFromYear(y + 1) - DaysInYear(y)
  }

  lemma DayFromYearNext(y: int)
    ensures DayFromYear(y + 1) == DayFromYear(y) + DaysInYear(y)
  {
  }

  /** The closed form of section 21.4.1.3 of ECMA-262: 365 days a year plus the leap days since 1970. */
  function DayFromYearClosed(y: int): int
  {
    365 * (y - 1970) + (y - 1969) / 4 - (y - 1901) / 100 + (y - 1601) / 400
  }

  /** The day numbers of the years follow the closed form of section 21.4.1.3 of ECMA-262. */
  lemma {:induction false} DayFromYearFormula(y: int)
    ensures DayFromYear(y) == DayFromYearClosed(y)
    decreases if y < 1970 then 1970 - y else y - 1970
  {
    if y > 1970 {
      DayFromYearFormula(y - 1);
      ClosedNext(y - 1);
    } else if y < 1970 {
      DayFromYearFormula(y + 1);
      ClosedNext(y);
    }
  }

  lemma ClosedNext(y: int)
    ensures DayFromYearClosed(y + 1) == DayFromYearClosed(y) + DaysInYear(y)
  {
    LeapTerm4(y);
    LeapTerm100(y);
    LeapTerm400(y);
    LeapCount(y);
  }

  /** A multiple of 400 is a multiple of 4 and of 100. */
  lemma QuadCentury(y: int)
    requires y % 400 == 0
    ensures y % 4 == 0 && y % 100 == 0
  {
    var q := y / 400;
    assert y == 4 * (100 * q);
    assert y == 100 * (4 * q);
  }

  /** A year has 365 days, one more every fourth year, one fewer every hundredth and one more every four hundredth. */
  lemma LeapCount(y: int)
    ensures DaysInYear(y) == 365 + (if y % 4 == 0 then 1 else 0) - (if y % 100 == 0 then 1 else 0) + (if y % 400 == 0 then 1 else 0)
  {
    var a, b, c := y % 4 == 0, y % 100 == 0, y % 400 == 0;
    if c {
      QuadCentury(y);
      assert a && b && IsLeap(y);
    } else if b {
      Century(y);
      assert a && !IsLeap(y);
    } else if a {
      assert IsLeap(y);
    } else {
      assert !IsLeap(y);
    }
  }

  /** A multiple of 100 is a multiple of 4. */
  lemma Century(y: int)
    requires y % 100 == 0
    ensures y % 4 == 0
  {
    var q := y / 100;
    assert y == 4 * (25 * q);
  }

  lemma LeapTerm4(y: int)
    ensures (y - 1968) / 4 - (y - 1969) / 4 == (if y % 4 == 0 then 1 else 0)
  {
  }

  lemma LeapTerm100(y: int)
    ensures (y - 1900) / 100 - (y - 1901) / 100 == (if y % 100 == 0 then 1 else 0)
  {
  }

  lemma LeapTerm400(y: int)
    ensures (y - 1600) / 400 - (y - 1601) / 400 == (if y % 400 == 0 then 1 else 0)
  {
  }

  /**
   * Day number (days since 1970-01-01) of day `d` of month `m` of year `y`,
   * for any `d`: day 0 is the last day of the previous month.
   */
  function DayNumber(y: int, m: int, d: int): int
    requires 0 <= m < 12
  {
    DayFromYear(y) + DaysBeforeMonth(y, m) + d - 1
  }

  datatype CalendarDay = CalendarDay(year: int, month: int, day: int)
  {
    predicate Valid()
    {
      0 <= month < 12 && 1 <= day <= DaysInMonth(year, month)
    }
  }

  /**
   * The calendar day with day number `DayNumber(y, m, d)`: a day before the
   * first or after the last of the month rolls into the neighbouring months.
   */
  function Roll(y: int, m: int, d: int): (r: CalendarDay)
    requires 0 <= m < 12
    ensures r.Valid()
    ensures DayNumber(r.year, r.month, r.day) == DayNumber(y, m, d)
    decreases if d < 1 then 1 - d else 0, d
  {
    if d < 1 then
      var py := if m == 0 then y - 1 else y;
      var pm := if m == 0 then 11 else m - 1;
      PreviousMonth(y, m, d);
      Roll(py, pm, d + DaysInMonth(py, pm))
    else if d > DaysInMonth(y, m) then
      var ny := if m == 11 then y + 1 else y;
      var nm := if m == 11 then 0 else m + 1;
      NextMonth(y, m, d);
      Roll(ny, nm, d - DaysInMonth(y, m))
    else
      CalendarDay(y, m, d)
  }

  lemma PreviousMonth(y: int, m: int, d: int)
    requires 0 <= m < 12
    ensures var py := if m == 0 then y - 1 else y;
      var pm := if m == 0 then 11 else m - 1;
      DayNumber(py, pm, d + DaysInMonth(py, pm)) == DayNumber(y, m, d)
  {
    if m == 0 {
      DayFromYearNext(y - 1);
      DaysBeforeMonthNext(y - 1, 11);
      DaysBeforeMonthLimit(y - 1);
    } else {
      DaysBeforeMonthNext(y, m - 1);
    }
  }

  lemma NextMonth(y: int, m: int, d: int)
    requires 0 <= m < 12
    ensures var ny := if m == 11 then y + 1 else y;
      var nm := if m == 11 then 0 else m + 1;
      DayNumber(ny, nm, d - DaysInMonth(y, m)) == DayNumber(y, m, d)
  {
    DaysBeforeMonthNext(y, m);
    if m == 11 {
      DayFromYearNext(y);
      DaysBeforeMonthLimit(y);
    }
  }

  /** On a valid day, the day number orders days as the calendar does. */
  lemma DayNumberOrder(a: CalendarDay, b: CalendarDay)
    requires a.Valid() && b.Valid()
    ensures DayNumber(a.year, a.month, a.day) < DayNumber(b.year, b.month, b.day)
      <==> (a.year < b.year || (a.year == b.year && (a.month < b.month || (a.month == b.month && a.day < b.day))))
  {
    if a.year < b.year {
      YearsApart(a, b);
    } else if b.year < a.year {
      YearsApart(b, a);
    } else if a.month < b.month {
      DaysBeforeMonthGrows(a.year, a.month, b.month);
    } else if b.month < a.month {
      DaysBeforeMonthGrows(a.year, b.month, a.month);
    }
  }

  lemma YearsApart(a: CalendarDay, b: CalendarDay)
    requires a.Valid() && b.Valid() && a.year < b.year
    ensures DayNumber(a.year, a.month, a.day) < DayNumber(b.year, b.month, b.day)
  {
    DayFromYearMonotone(a.year + 1, b.year);
    DayFromYearNext(a.year);
    DaysBeforeMonthLimit(a.year);
    if a.month < 11 {
      DaysBeforeMonthGrows(a.year, a.month, 12);
    }
  }

  lemma {:induction false} DayFromYearMonotone(y: int, y': int)
    requires y <= y'
    ensures DayFromYear(y) <= DayFromYear(y')
    decreases y' - y
  {
    if y < y' {
      DayFromYearMonotone(y, y' - 1);
      DayFromYearNext(y' - 1);
    }
  }

  lemma DayNumberInjective(a: CalendarDay, b: CalendarDay)
    requires a.Valid() && b.Valid()
    requires DayNumber(a.year, a.month, a.day) == DayNumber(b.year, b.month, b.day)
    ensures a == b
  {
    DayNumberOrder(a, b);
    DayNumberOrder(b, a);
  }

  /** A date and time of day, in calendar fields. */
  datatype DateTime = DateTime(year: int, month: int, day: int, hours: int, minutes: int, seconds: int, millis: int)
  {
    predicate Valid()
    {
      CalendarDay(year, month, day).Valid()
      && 0 <= hours < 24 && 0 <= minutes < 60 && 0 <= seconds < 60 && 0 <= millis < 1000
    }
  }

  type Instant = t: DateTime | t.Valid() witness DateTime(1970, 0, 1, 0, 0, 0, 0)

  /** What a `Date` object holds: a time, or the time value `NaN` ("Invalid Date"). */
  datatype Moment = Invalid | At(t: Instant)

  function TimeOfDay(t: Instant): (ms: int)
    ensures 0 <= ms < MsPerDay
  {
    t.hours * 3600000 + t.minutes * 60000 + t.seconds * 1000 + t.millis
  }

  function DayOf(t: Instant): int
  {
    DayNumber(t.year, t.month, t.day)
  }

  /** `getTime()`: milliseconds since 1970-01-01T00:00:00Z. */
  function TimeValue(t: Instant): int
  {
    DayOf(t) * MsPerDay + TimeOfDay(t)
  }

  /** Time values order instants as the calendar does, and identify them. */
  lemma TimeValueOrder(a: Instant, b: Instant)
    ensures DayOf(a) < DayOf(b) ==> TimeValue(a) < TimeValue(b)
    ensures TimeValue(a) == TimeValue(b) ==> a == b
  {
    if TimeValue(a) == TimeValue(b) {
      assert DayOf(a) == DayOf(b) by {
        if DayOf(a) < DayOf(b) {
        } else if DayOf(b) < DayOf(a) {
        }
      }
      DayNumberInjective(CalendarDay(a.year, a.month, a.day), CalendarDay(b.year, b.month, b.day));
    }
  }

  /** `getDay()`: 0 for Sunday; 1970-01-01 was a Thursday. */
  function Weekday(t: Instant): (w: int)
    ensures 0 <= w < 7
  {
    (DayOf(t) + 4) % 7
  }

  /** TimeClip: a time value beyond 8.64e15 ms either way is an invalid date. */
  function Clip(t: Instant): (m: Moment)
    ensures m.At? <==> -MaxTime <= TimeValue(t) <= MaxTime
    ensures m.At? ==> m.t == t
  {
    if -MaxTime <= TimeValue(t) <= MaxTime then At(t) else Invalid
  }

  /** The instant of time value `ms`, as `new Date(ms)` builds it. */
  function FromTimeValue(ms: int): (m: Moment)
    ensures m.At? <==> -MaxTime <= ms <= MaxTime
    ensures m.At? ==> TimeValue(m.t) == ms
  {
    var days := ms / MsPerDay;
    var tod := ms % MsPerDay;
    var d := Roll(1970, 0, days + 1);
    var t: Instant := DateTime(d.year, d.month, d.day, tod / 3600000, (tod / 60000) % 60, (tod / 1000) % 60, tod % 1000);
    assert DayFromYear(1970) == 0;
    TimeOfDaySplit(tod);
    Clip(t)
  }

  /** Hours, minutes, seconds and milliseconds of a time of day add back up to it. */
  lemma TimeOfDaySplit(tod: int)
    requires 0 <= tod < MsPerDay
    ensures (tod / 3600000) * 3600000 + ((tod / 60000) % 60) * 60000 + ((tod / 1000) % 60) * 1000 + tod % 1000 == tod
  {
    var h, m, s := tod / 3600000, tod / 60000, tod / 1000;
    MinutesToHours(tod);
    SecondsToMinutes(tod);
    assert m / 60 == h && s / 60 == m;
    assert m % 60 == m - 60 * h;
    assert s % 60 == s - 60 * m;
    assert tod % 1000 == tod - 1000 * s;
  }

  /** Minutes counted in hours: dividing by 60000 and then by 60 is dividing by 3600000. */
  lemma MinutesToHours(x: int)
    requires x >= 0
    ensures (x / 60000) / 60 == x / 3600000
  {
    var q, r := x / 3600000, x % 3600000;
    DivModUnique(x, 60000, 60 * q + r / 60000, r % 60000);
    DivModUnique(x / 60000, 60, q, r / 60000);
  }

  /** Seconds counted in minutes: dividing by 1000 and then by 60 is dividing by 60000. */
  lemma SecondsToMinutes(x: int)
    requires x >= 0
    ensures (x / 1000) / 60 == x / 60000
  {
    var q, r := x / 60000, x % 60000;
    DivModUnique(x, 1000, 60 * q + r / 1000, r % 1000);
    DivModUnique(x / 1000, 60, q, r / 1000);
  }

  /** Multiplying by a non-negative number keeps the order. */
  lemma MulMono(a: int, b: int, n: int)
    requires a <= b && n >= 0
    ensures a * n <= b * n
  {
    var d := b - a;
    assert b * n == a * n + d * n;
  }

  /** `x / n` and `x % n` are the `q` and `r` of any division `x == q * n + r` with `0 <= r < n`. */
  lemma DivModUnique(x: int, n: int, q: int, r: int)
    requires n > 0 && 0 <= r < n && x == q * n + r
    ensures x / n == q && x % n == r
  {
    var q', r' := x / n, x % n;
    assert x == q' * n + r';
    if q' > q {
      MulMono(q + 1, q', n);
      assert false;
    } else if q' < q {
      MulMono(q' + 1, q, n);
      assert false;
    }
  }

  /** `setDate(d)`: day `d` of the same month, rolled into the neighbouring months. */
  function WithDate(m: Moment, d: int): (r: Moment)
    ensures r.At? ==> (m.At? && DayOf(r.t) == DayOf(m.t) + d - m.t.day && TimeOfDay(r.t) == TimeOfDay(m.t))
    ensures m.At? && r.Invalid? ==> !(-MaxTime <= (DayOf(m.t) + d - m.t.day) * MsPerDay + TimeOfDay(m.t) <= MaxTime)
  {
    match m
    case Invalid => Invalid
    case At(t) =>
      var c := Roll(t.year, t.month, d);
      Clip(t.(year := c.year, month := c.month, day := c.day))
  }

  /**
   * `setMonth(mo)`: month `mo` counted from January of the same year (so 12
   * is January of the next year), keeping the day of the month and
   * rolling it over when that month is shorter (MakeDay, section 21.4.1.28 of ECMA-262).
   */
  function WithMonth(m: Moment, mo: int): (r: Moment)
    ensures r.At? ==>
      (m.At? && TimeOfDay(r.t) == TimeOfDay(m.t) && DayOf(r.t) == DayNumber(m.t.year + mo / 12, mo % 12, m.t.day))
    ensures m.At? && r.Invalid? ==> !(-MaxTime <= DayNumber(m.t.year + mo / 12, mo % 12, m.t.day) * MsPerDay + TimeOfDay(m.t) <= MaxTime)
  {
    match m
    case Invalid => Invalid
    case At(t) =>
      var c := Roll(t.year + mo / 12, mo % 12, t.day);
      Clip(t.(year := c.year, month := c.month, day := c.day))
  }

  /** A JavaScript `Date`: a mutable cell holding a moment. */
  class DateObject {
    var moment: Moment

    /** `new Date(other)` for a date, or `new Date(ms)`. */
    constructor (m: Moment)
      ensures moment == m
    {
      moment := m;
    }

    method SetDate(d: int)
      modifies this
      ensures moment == WithDate(old(moment), d)
    {
      moment := WithDate(moment, d);
    }

    method SetMonth(mo: int)
      modifies this
      ensures moment == WithMonth(old(moment), mo)
    {
      moment := WithMonth(moment, mo);
    }
  }

  // -----------------------------------------------------------------------
  // Text forms of a date

  const WeekdayNames: seq<string> := ["Sun", "Mon", "Tue", "Wed", "Thu", "Fri", "Sat"]
  const MonthNames: seq<string> := ["Jan", "Feb", "Mar", "Apr", "May", "Jun", "Jul", "Aug", "Sep", "Oct", "Nov", "Dec"]

  function Pad(n: nat, width: nat): string
  {
    PadZeros(NatToString(n), width)
  }

  function Abs(n: int): nat
  {
    if n < 0 then -n else n
  }

  /**
   * `String(date)`: "Mon Jan 01 2024 00:00:00 GMT+0000 (Coordinated Universal
   * Time)", or "Invalid Date" (section 21.4.4.41 of ECMA-262, with V8's zone name).
   */
  function DateToString(m: Moment): string
  {
    match m
    case Invalid => "Invalid Date"
    case At(t) =>
      WeekdayNames[Weekday(t)] + " " + MonthNames[t.month] + " " + Pad(t.day, 2) + " "
      + (if t.year < 0 then "-" else "") + Pad(Abs(t.year), 4) + " "
      + Pad(t.hours, 2) + ":" + Pad(t.minutes, 2) + ":" + Pad(t.seconds, 2)
      + " GMT+0000 (Coordinated Universal Time)"
  }

  /** `toISOString()` of a valid date: "2024-01-01T00:00:00.000Z" (section 21.4.4.36 of ECMA-262). */
  function IsoString(t: Instant): string
  {
    (if 0 <= t.year <= 9999 then Pad(t.year, 4)
     else (if t.year < 0 then "-" else "+") + Pad(Abs(t.year), 6))
    + "-" + Pad(t.month + 1, 2) + "-" + Pad(t.day, 2)
    + "T" + Pad(t.hours, 2) + ":" + Pad(t.minutes, 2) + ":" + Pad(t.seconds, 2)
    + "." + Pad(t.millis, 3) + "Z"
  }
}
