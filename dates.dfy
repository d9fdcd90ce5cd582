/**
 * The date helpers of `src/date/index.js`: the leap-year test, 12-hour and
 * AM/PM formatting, token formatting, date differences and the month/year
 * cursor walk, day shifting, year ranges and the seven-day listing.
 *
 * Local time is taken to be UTC. Parsing a string into a date (`new
 * Date(s)`) and the current time ("now") are parameters.
 */
module Dates {
  import opened Text
  import opened Wrappers
  import opened Values
  import opened Calendar

  // -----------------------------------------------------------------------
  // isLeapYear

  /** `isLeapYear(year)`: false unless `year` is an integer from 1 on, then the Gregorian rule. */
  predicate IsLeapYear(year: Value)
  {
    year.Num? && year.n >= 1 && ((year.n % 4 == 0 && year.n % 100 != 0) || year.n % 400 == 0)
  }

  /** From year 1 on, `isLeapYear` is exactly the years whose February has 29 days. */
  lemma LeapYearsHaveFebruary29(year: Value)
    ensures IsLeapYear(year) <==> year.Num? && year.n >= 1 && DaysInMonth(year.n, 1) == 29
  {
  }

  /** Non-numbers, years before 1 and `NaN` are never leap years. */
  lemma LeapYearGuard(year: Value)
    requires !year.Num? || year.n < 1
    ensures !IsLeapYear(year)
  {
  }

  // -----------------------------------------------------------------------
  // format12Hour and formatAMPM

  /** JavaScript's `h % 24` on integers: the remainder takes the sign of `h`. */
  function Rem24(h: int): (r: int)
    ensures -24 < r < 24
    ensures 0 <= h ==> r == h % 24
    ensures h < 0 ==> (r == 0 || r + 24 == h % 24) && (r == 0 <==> h % 24 == 0)
  {
    if h >= 0 then h % 24 else 0 - ((0 - h) % 24)
  }

  /** The hour of a 12-hour clock for an integer hour, after folding it into 0..23. */
  function TwelveHour(hours: int): string
  {
    var r := Rem24(hours);
    var h: nat := if r < 0 then 24 - (0 - r) else r;
    var adjusted: nat := if h >= 12 then h - 12 else h;
    if adjusted == 0 then "12" else PadStart2(adjusted)
  }

  /** The clock reading of an hour: 12 for 0 and 12, otherwise the hour modulo 12. */
  function ClockHour(hours: int): (c: nat)
    ensures 1 <= c <= 12
  {
    if hours % 12 == 0 then 12 else hours % 12
  }

  /** The folded hour `format12Hour` works on is the hour modulo 24. */
  lemma FoldedHour(hours: int)
    ensures (if Rem24(hours) < 0 then 24 - (0 - Rem24(hours)) else Rem24(hours)) == hours % 24
    ensures hours % 24 % 12 == hours % 12
  {
    var q, r := hours / 24, hours % 24;
    var n := r % 12;
    assert r == 12 * (r / 12) + n;
    assert hours == 12 * (2 * q + r / 12) + n;
    DivModUnique(hours, 12, 2 * q + r / 12, n);
  }

  /** Every integer hour gives two digits, "01" to "12", reading its clock hour. */
  lemma TwelveHourReading(hours: int)
    ensures var s := TwelveHour(hours);
      |s| == 2 && AllDigits(s) && DigitsValue(s) == ClockHour(hours)
  {
    TwelveHourClosed(hours);
    if hours % 12 != 0 {
      PadStart2Reading(hours % 12);
    } else {
      assert DigitsValue("12") == DigitsValue("1") * 10 + 2;
    }
  }

  /** A number below 100 padded to two characters reads back as itself. */
  lemma PadStart2Reading(n: nat)
    requires n < 100
    ensures |PadStart2(n)| == 2 && AllDigits(PadStart2(n)) && DigitsValue(PadStart2(n)) == n
  {
    var s := NatToString(n);
    NatToStringRoundTrip(n);
    if |s| < 2 {
      DigitsValueLeadingZero(s);
    }
  }

  lemma DigitsValueLeadingZero(s: string)
    requires |s| == 1 && IsDigit(s[0])
    ensures DigitsValue("0" + s) == DigitsValue(s)
  {
    assert ("0" + s)[..1] == "0";
    assert s[..0] == [];
  }

  /** `format12Hour(hours)`: numbers only; `NaN` and every other value throw. */
  function Format12Hour(hours: Value): (r: Result<string>)
    ensures r.Err? <==> !hours.Num?
    ensures r.Err? ==> r == Err(Error("args must be a number or string number"))
  {
    if !hours.Num? then Err(Error("args must be a number or string number"))
    else Ok(TwelveHour(hours.n))
  }

  /** `format12Hour`'s folding and adjusting, in closed form: "12" on the hour of noon and midnight, else the hour modulo 12. */
  lemma TwelveHourClosed(hours: int)
    ensures TwelveHour(hours) == if hours % 12 == 0 then "12" else PadStart2(hours % 12)
  {
    FoldedHour(hours);
    var h := hours % 24;
    assert (if h >= 12 then h - 12 else h) == hours % 12 by {
      DivModUnique(h, 12, if h >= 12 then 1 else 0, if h >= 12 then h - 12 else h);
    }
  }

  /** `formatAMPM(date)`: "PM" from noon on; an invalid date's `NaN` hour reads as "AM". */
  function FormatAMPM(m: Moment): (r: string)
    ensures r == "PM" || r == "AM"
  {
    if m.At? && m.t.hours >= 12 then "PM" else "AM"
  }

  /** "PM" exactly when the 12-hour clock has gone past noon on a valid date. */
  lemma MeridiemMatchesHour(t: Instant)
    ensures FormatAMPM(At(t)) == "PM" <==> 12 <= t.hours
    ensures FormatAMPM(At(t)) == "AM" <==> t.hours < 12
  {
  }

  // -----------------------------------------------------------------------
  // formatDate

  /** The alternatives of the pattern `/YYYY|MM|DD|HH|mm|ss|hh|a/g`, in order. */
  datatype Token = Year | Month | Day | Hour | Minute | Second | Hour12 | Meridiem
  {
    /** The text the alternative matches. */
    function Text(): (s: string)
      ensures 1 <= |s| <= 4
    {
      match this
      case Year => "YYYY"
      case Month => "MM"
      case Day => "DD"
      case Hour => "HH"
      case Minute => "mm"
      case Second => "ss"
      case Hour12 => "hh"
      case Meridiem => "a"
    }
  }

  /** A character that occurs in some alternative of the pattern. */
  predicate IsTokenChar(c: char)
  {
    c == 'Y' || c == 'M' || c == 'D' || c == 'H' || c == 'm' || c == 's' || c == 'h' || c == 'a'
  }

  /** `s` begins with two copies of `c`. */
  predicate Twice(s: string, c: char)
  {
    |s| >= 2 && s[0] == c && s[1] == c
  }

  /** The alternative the pattern matches at the front of `s`: the first one, in order, that `s` begins with. */
  function MatchAt(s: string): (r: Option<Token>)
    ensures r.Some? ==> StartsWith(s, r.value.Text())
    ensures r.None? ==> forall tok: Token :: !StartsWith(s, tok.Text())
  {
    if |s| >= 4 && s[0] == 'Y' && s[1] == 'Y' && s[2] == 'Y' && s[3] == 'Y' then Some(Year)
    else if Twice(s, 'M') then Some(Month)
    else if Twice(s, 'D') then Some(Day)
    else if Twice(s, 'H') then Some(Hour)
    else if Twice(s, 'm') then Some(Minute)
    else if Twice(s, 's') then Some(Second)
    else if Twice(s, 'h') then Some(Hour12)
    else if |s| >= 1 && s[0] == 'a' then Some(Meridiem)
    else None
  }

  /** What the replacement table gives for a matched alternative at instant `t`. */
  function TokenText(tok: Token, t: Instant): string
  {
    match tok
    case Year => IntToString(t.year)
    case Month => PadStart2(t.month + 1)
    case Day => PadStart2(t.day)
    case Hour => PadStart2(t.hours)
    case Minute => PadStart2(t.minutes)
    case Second => PadStart2(t.seconds)
    case Hour12 => TwelveHour(t.hours)
    case Meridiem => FormatAMPM(At(t))
  }

  /** `format.replace(pattern, ...)`: a left-to-right scan that replaces each match and copies the rest. */
  function Expand(format: string, t: Instant): string
    decreases |format|
  {
    if format == [] then []
    else
      match MatchAt(format)
      case Some(tok) => TokenText(tok, t) + Expand(format[|tok.Text()|..], t)
      case None => [format[0]] + Expand(format[1..], t)
  }

  /** Every token but the year gives exactly two digits. */
  lemma TwoDigitTokens(t: Instant, tok: Token)
    requires tok != Year && tok != Meridiem
    ensures |TokenText(tok, t)| == 2 && AllDigits(TokenText(tok, t))
  {
    TwelveHourReading(t.hours);
  }

  /** A format without any character of the pattern comes back unchanged. */
  lemma {:induction false} ExpandPlain(format: string, t: Instant)
    requires forall i :: 0 <= i < |format| ==> !IsTokenChar(format[i])
    ensures Expand(format, t) == format
    decreases |format|
  {
    if format != [] {
      assert !IsTokenChar(format[0]);
      assert MatchAt(format).None?;
      ExpandPlain(format[1..], t);
    }
  }

  /** A match cannot reach past a character that no alternative contains. */
  lemma MatchAtExtend(a: string, b: string)
    requires a != [] && !IsTokenChar(a[|a| - 1])
    ensures MatchAt(a + b) == MatchAt(a)
  {
    var s := a + b;
    assert forall i :: 0 <= i < |a| ==> s[i] == a[i];
  }

  /**
   * Text that ends in a character outside the pattern is expanded on its
   * own: separators split a format into independently expanded pieces.
   */
  lemma {:induction false} ExpandSplit(a: string, b: string, t: Instant)
    requires a != [] && !IsTokenChar(a[|a| - 1])
    ensures Expand(a + b, t) == Expand(a, t) + Expand(b, t)
    decreases |a|
  {
    MatchAtExtend(a, b);
    var n := if MatchAt(a).Some? then |MatchAt(a).value.Text()| else 1;
    var rest := a[n..];
    assert (a + b)[n..] == rest + b;
    if rest != [] {
      assert rest[|rest| - 1] == a[|a| - 1];
      ExpandSplit(rest, b, t);
    } else {
      assert rest + b == b;
    }
  }

  /** `yyyy` and `dd` are in the replacement table, but the pattern never matches them. */
  lemma LowerCaseTokensUnmatched(t: Instant)
    ensures Expand("yyyy", t) == "yyyy"
    ensures Expand("dd", t) == "dd"
  {
    ExpandPlain("yyyy", t);
    ExpandPlain("dd", t);
  }

  /** The default format "YYYY-MM-DD": the year, then the month and day in two digits each. */
  lemma DefaultFormat(t: Instant)
    ensures Expand("YYYY-MM-DD", t) == IntToString(t.year) + ("-" + (PadStart2(t.month + 1) + ("-" + PadStart2(t.day))))
  {
    YearPart(t);
    DashMonthDay(t);
    MonthDayPart(t);
  }

  /** "YYYY-MM-DD" begins with the year. */
  lemma YearPart(t: Instant)
    ensures Expand("YYYY-MM-DD", t) == IntToString(t.year) + Expand("-MM-DD", t)
  {
    var s := "YYYY-MM-DD";
    assert s[0] == 'Y' && s[1] == 'Y' && s[2] == 'Y' && s[3] == 'Y';
    assert Year.Text() + "-MM-DD" == s;
    LeadingToken(Year, "-MM-DD", t);
  }

  /** "-MM-DD" begins with a '-'. */
  lemma DashMonthDay(t: Instant)
    ensures Expand("-MM-DD", t) == "-" + Expand("MM-DD", t)
  {
    assert "-" + "MM-DD" == "-MM-DD";
    DashPart("MM-DD", t);
  }

  /** A '-' at the front is copied. */
  lemma DashPart(rest: string, t: Instant)
    ensures Expand("-" + rest, t) == "-" + Expand(rest, t)
  {
    LeadingPlain('-', rest, t);
  }

  /** "MM-DD": the month and the day in two digits each. */
  lemma MonthDayPart(t: Instant)
    ensures Expand("MM-DD", t) == PadStart2(t.month + 1) + ("-" + PadStart2(t.day))
  {
    MonthPart(t);
    DayPart(t);
  }

  /** "MM-DD" begins with the month and a '-'. */
  lemma MonthPart(t: Instant)
    ensures Expand("MM-DD", t) == PadStart2(t.month + 1) + ("-" + Expand("DD", t))
  {
    assert Month.Text() + "-DD" == "MM-DD";
    LeadingToken(Month, "-DD", t);
    assert "-" + "DD" == "-DD";
    DashPart("DD", t);
  }

  /** "DD": the day in two digits. */
  lemma DayPart(t: Instant)
    ensures Expand("DD", t) == PadStart2(t.day)
  {
    assert Day.Text() + [] == "DD";
    LeadingToken(Day, [], t);
  }

  /** A matched alternative at the front is replaced, and the scan goes on after it. */
  lemma LeadingToken(tok: Token, rest: string, t: Instant)
    requires MatchAt(tok.Text() + rest) == Some(tok)
    ensures Expand(tok.Text() + rest, t) == TokenText(tok, t) + Expand(rest, t)
  {
    assert (tok.Text() + rest)[|tok.Text()|..] == rest;
  }

  /** A character outside the pattern at the front is copied. */
  lemma LeadingPlain(c: char, rest: string, t: Instant)
    requires !IsTokenChar(c)
    ensures Expand([c] + rest, t) == [c] + Expand(rest, t)
  {
    assert MatchAt([c] + rest).None?;
    assert ([c] + rest)[1..] == rest;
  }

  const InvalidDateMessage := "Invalid date provided. Falling back to current date and time."

  /** The format `formatDate` and `getToday` take when none is given. */
  const DefaultFormatText := "YYYY-MM-DD"

  /** The `date` argument after its default: `undefined` is a new `Date` at the clock's instant `now`. */
  function DateArgument(date: Value, now: Instant): (d: Value)
    ensures !date.Undefined? ==> d == date
    ensures date.Undefined? ==> d.DateVal? && d.moment == At(now)
  {
    if date.Undefined? then DateVal(0, At(now)) else date
  }

  /** The `format` argument after its default "YYYY-MM-DD". */
  function FormatArgument(format: Value): (f: Value)
    ensures !format.Undefined? ==> f == format
    ensures format.Undefined? ==> f == Str(DefaultFormatText)
  {
    if format.Undefined? then Str(DefaultFormatText) else format
  }

  /** `date instanceof Date` and a time value that is not `NaN`. */
  predicate ValidDate(date: Value)
  {
    date.DateVal? && date.moment.At?
  }

  /**
   * `formatDate(date, format)`: a missing date is the current time and a
   * missing format "YYYY-MM-DD"; anything but a valid `Date` throws, and a
   * format that is not a string has no `replace`.
   */
  function FormatDate(date: Value, format: Value, now: Instant): (r: Result<string>)
    ensures r == Err(Error(InvalidDateMessage)) <==> !ValidDate(DateArgument(date, now))
    ensures r == Err(TypeError) <==> ValidDate(DateArgument(date, now)) && !FormatArgument(format).Str?
    ensures r.Ok? ==> r.value == Expand(FormatArgument(format).s, DateArgument(date, now).moment.t)
  {
    var d := DateArgument(date, now);
    var f := FormatArgument(format);
    if !d.DateVal? || d.moment.Invalid? then Err(Error(InvalidDateMessage))
    else if !f.Str? then Err(TypeError)
    else Ok(Expand(f.s, d.moment.t))
  }

  /** `formatDate()` with no arguments is today's year, month and day, and never throws. */
  lemma FormatDateNoArguments(now: Instant)
    ensures FormatDate(Undefined, Undefined, now) == Ok(IntToString(now.year) + ("-" + (PadStart2(now.month + 1) + ("-" + PadStart2(now.day)))))
  {
    DefaultFormat(now);
  }

  /** The clock is read only when the date is missing. */
  lemma FormatDateGivenDate(date: Value, format: Value, now1: Instant, now2: Instant)
    requires !date.Undefined?
    ensures FormatDate(date, format, now1) == FormatDate(date, format, now2)
  {
  }

  // -----------------------------------------------------------------------
  // getToday

  /** `getToday(format)`: `formatDate` of a new `Date` at the clock's instant `now`, which is always valid. */
  function GetToday(now: Instant, format: Value, id: nat): (r: Result<string>)
    ensures r.Err? <==> !FormatArgument(format).Str?
    ensures r == FormatDate(Undefined, format, now)
  {
    var today := DateVal(id, At(now));
    FormatDate(today, format, now)
  }

  /** With the default format, "YYYY-MM-DD", today is the year, month and day of `now`. */
  lemma GetTodayDefault(now: Instant, id: nat)
    ensures GetToday(now, Undefined, id) == Ok(IntToString(now.year) + ("-" + (PadStart2(now.month + 1) + ("-" + PadStart2(now.day)))))
  {
    DefaultFormat(now);
  }

  // -----------------------------------------------------------------------
  // calculateMonthsYearsDifference

  /** `a <= b` on dates: both time values are numbers and `a`'s is not larger. */
  predicate NotAfter(a: Moment, b: Moment)
  {
    a.At? && b.At? && TimeValue(a.t) <= TimeValue(b.t)
  }

  /** `a > b` on dates. */
  predicate After(a: Moment, b: Moment)
  {
    a.At? && b.At? && TimeValue(a.t) > TimeValue(b.t)
  }

  /** `getMonth()`; an invalid date's `NaN` month is passed on as any number, since `setMonth` keeps such a date invalid. */
  function MonthOf(m: Moment): int
  {
    if m.At? then m.t.month else 0
  }

  /** The cursor after one pass of the loop body, and whether that pass counted a year. */
  datatype Pass = Pass(cursor: Moment, newYear: bool)

  /**
   * The date moves of one pass: Feb 29 of a leap year back to Feb 28, one
   * month on (a year is counted on landing in January), and a cursor off
   * the first of the month snapped back to the last day of the month before.
   */
  function Step(c: Moment, leap: int -> bool): Pass
  {
    MoveOn(if c.At? && c.t.month == 1 && leap(c.t.year) && c.t.day == 29 then WithDate(c, 28) else c)
  }

  /** The rest of a pass, once February 29 has been dealt with: one month on, then the snap back. */
  function MoveOn(c1: Moment): Pass
  {
    var c2 := WithMonth(c1, MonthOf(c1) + 1);
    var c3 := if c2.At? && c2.t.day == 1 then c2 else WithDate(c2, 0);
    Pass(c3, c2.At? && c2.t.month == 0)
  }

  /** The state of the loop: the cursor `tempDate` and the two counters. */
  datatype Walk = Walk(cursor: Moment, months: int, years: int)

  /** One pass of the loop body, for a pass given as a function of the cursor. */
  function Advance(w: Walk, next: Moment -> Pass): Walk
  {
    var p := next(w.cursor);
    Walk(p.cursor, w.months + 1, if p.newYear then w.years + 1 else w.years)
  }

  /** The loop condition `tempDate <= endDate`, as a function of the cursor. */
  function Until(end: Moment): Moment -> bool
  {
    c => NotAfter(c, end)
  }

  /**
   * The loop run from `w` for at most `fuel` passes while `go` holds of the
   * cursor; `None` when it is still running after them.
   */
  function Run(w: Walk, go: Moment -> bool, next: Moment -> Pass, fuel: nat): Option<Walk>
    decreases fuel
  {
    if !go(w.cursor) then Some(w)
    else if fuel == 0 then None
    else Run(Advance(w, next), go, next, fuel - 1)
  }

  /** `next` is the pass `Step` with the leap-year test `leap`. */
  ghost predicate StepsBy(next: Moment -> Pass, leap: int -> bool)
  {
    forall c {:trigger Step(c, leap)} :: next(c) == Step(c, leap)
  }

  /** The pass of this file's loop, as a function value. */
  function Passes(leap: int -> bool): Moment -> Pass
  {
    c => Step(c, leap)
  }

  /** One pass of the loop while the cursor is not after the end. */
  lemma RunStep(w: Walk, w': Walk, go: Moment -> bool, next: Moment -> Pass, fuel: nat)
    requires go(w.cursor) && fuel > 0
    requires w' == Walk(next(w.cursor).cursor, w.months + 1, if next(w.cursor).newYear then w.years + 1 else w.years)
    ensures Run(w, go, next, fuel) == Run(w', go, next, fuel - 1)
  {
  }

  /** The loop stops once the cursor is after the end, or either date is invalid. */
  lemma RunDone(w: Walk, go: Moment -> bool, next: Moment -> Pass, fuel: nat)
    requires !go(w.cursor)
    ensures Run(w, go, next, fuel) == Some(w)
  {
  }

  datatype Span = Span(months: int, years: int)

  /** After the loop: an overshoot month off, and a year off too when the cursor's year is not the end's. */
  function Settle(w: Walk, end: Moment): Span
  {
    if After(w.cursor, end) then
      Span(w.months - 1, if w.cursor.t.year != end.t.year then w.years - 1 else w.years)
    else Span(w.months, w.years)
  }

  /** What `calculateMonthsYearsDifference(start, end)` returns when its loop ends within `fuel` passes. */
  function MonthsYears(start: Moment, end: Moment, next: Moment -> Pass, fuel: nat): Option<Span>
  {
    var r := Run(Walk(start, 0, 0), Until(end), next, fuel);
    if r.Some? then Some(Settle(r.value, end)) else None
  }

  /** The leap-year test the loop of this file uses. */
  predicate Leap(year: int)
  {
    IsLeapYear(Num(year))
  }

  /**
   * `calculateMonthsYearsDifference(startDate, endDate)`: the cursor walk on
   * a copy of the start date. As the loop need not end, a run of more than
   * `fuel` passes returns `None`.
   */
  method CalculateMonthsYearsDifference(start: Moment, end: Moment, leap: int -> bool, ghost next: Moment -> Pass, fuel: nat) returns (r: Option<Span>)
    requires StepsBy(next, leap)
    ensures r == MonthsYears(start, end, next, fuel)
  {
    var tempDate := new DateObject(start);
    var w := CountMonths(tempDate, end, leap, next, fuel);
    if w.None? {
      return None;
    }
    var months, years := w.value.months, w.value.years;
    if After(tempDate.moment, end) {
      months := months - 1;
      if tempDate.moment.t.year != end.t.year {
        years := years - 1;
      }
    }
    return Some(Span(months, years));
  }

  /**
   * The loop of `calculateMonthsYearsDifference`, moving `tempDate` a month
   * per pass; `next` is that pass as a function value.
   */
  method CountMonths(tempDate: DateObject, end: Moment, leap: int -> bool, ghost next: Moment -> Pass, fuel: nat) returns (r: Option<Walk>)
    requires StepsBy(next, leap)
    modifies tempDate
    ensures r == Run(Walk(old(tempDate.moment), 0, 0), Until(end), next, fuel)
    ensures r.Some? ==> r.value.cursor == tempDate.moment
  {
    var months := 0;
    var years := 0;
    ghost var w := Walk(tempDate.moment, 0, 0);
    ghost var target := Run(w, Until(end), next, fuel);
    var left := fuel;
    while NotAfter(tempDate.moment, end)
      invariant w == Walk(tempDate.moment, months, years)
      invariant Run(w, Until(end), next, left) == target
      decreases left
    {
      if left == 0 {
        return None;
      }
      var newYear := StepCursor(tempDate, leap, next);
      if newYear {
        years := years + 1;
      }
      months := months + 1;
      ghost var w' := Walk(tempDate.moment, months, years);
      RunStep(w, w', Until(end), next, left);
      w := w';
      left := left - 1;
    }
    RunDone(w, Until(end), next, left);
    return Some(Walk(tempDate.moment, months, years));
  }

  /** The date moves of one pass of the loop, on the cursor object. */
  method StepCursor(tempDate: DateObject, leap: int -> bool, ghost next: Moment -> Pass) returns (newYear: bool)
    requires StepsBy(next, leap)
    modifies tempDate
    ensures Pass(tempDate.moment, newYear) == next(old(tempDate.moment))
  {
    ghost var start := tempDate.moment;
    if tempDate.moment.At? && tempDate.moment.t.month == 1 && leap(tempDate.moment.t.year) && tempDate.moment.t.day == 29 {
      tempDate.SetDate(28);
    }
    tempDate.SetMonth(MonthOf(tempDate.moment) + 1);
    newYear := tempDate.moment.At? && tempDate.moment.t.month == 0;
    if !(tempDate.moment.At? && tempDate.moment.t.day == 1) {
      tempDate.SetDate(0);
    }
    assert Pass(tempDate.moment, newYear) == Step(start, leap);
  }
}
