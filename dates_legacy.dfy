/**
 * The older date helpers of `src/date.js`: the same token formatting,
 * difference and month walk as `src/date/index.js`, with an unguarded
 * leap-year test, a 12-hour formatter that does not fold its hour, a
 * `formatDate` that returns `undefined` instead of throwing, and a
 * `parseDate` that hands any value to `new Date`.
 */
module DatesLegacy {
  import opened Text
  import opened Wrappers
  import opened Values
  import opened Calendar
  import opened Dates
  import opened DateDifference
  import opened DateRanges

  // -----------------------------------------------------------------------
  // isLeapYear

  /** `isLeapYear(year)`: the Gregorian rule on the year read as a number, with no guard on the input. */
  predicate LegacyIsLeapYear(year: Value)
  {
    var n := ToNumber(year);
    n.Num? && ((n.n % 4 == 0 && n.n % 100 != 0) || n.n % 400 == 0)
  }

  /** On integers the older test is the calendar's own leap-year rule, for every year. */
  lemma LegacyLeapIsCalendarLeap(y: int)
    ensures LegacyIsLeapYear(Num(y)) <==> IsLeap(y)
    ensures LegacyIsLeapYear(Num(y)) <==> DaysInMonth(y, 1) == 29
  {
    assert ToNumber(Num(y)) == Num(y);
    if y % 400 == 0 {
      QuadCentury(y);
    }
  }

  /** From year 1 on the older and the newer test agree. */
  lemma LegacyLeapAgrees(year: Value)
    requires year.Num? && year.n >= 1
    ensures LegacyIsLeapYear(year) == IsLeapYear(year)
  {
  }

  /** Without the guard, year 0, year -400 and `null` (read as 0) count as leap years; `undefined` does not. */
  lemma LegacyLeapUnguarded()
    ensures LegacyIsLeapYear(Num(0)) && !IsLeapYear(Num(0))
    ensures LegacyIsLeapYear(Num(-400)) && !IsLeapYear(Num(-400))
    ensures LegacyIsLeapYear(Null) && !IsLeapYear(Null)
    ensures !LegacyIsLeapYear(Undefined)
  {
  }

  /** The leap-year test of this file's month walk, on the year of a date. */
  predicate LegacyLeap(year: int)
  {
    LegacyIsLeapYear(Num(year))
  }

  // -----------------------------------------------------------------------
  // format12Hour

  /**
   * `format12Hour(hours)` on an integer hour: 12 is taken off from noon on
   * and nothing else is folded; a negative hour already has two characters
   * with its minus sign, so padding leaves it as it is.
   */
  function LegacyTwelveHour(hours: int): (r: string)
    ensures |r| >= 2
  {
    var adjusted := if hours >= 12 then hours - 12 else hours;
    if adjusted == 0 then "12"
    else if adjusted < 0 then IntToString(adjusted)
    else PadStart2(adjusted)
  }

  /** On the hours of a day the older formatter gives what the newer one does: "12" at noon and midnight, else the hour modulo 12. */
  lemma LegacyTwelveHourOnClock(hours: int)
    requires 0 <= hours < 24
    ensures LegacyTwelveHour(hours) == TwelveHour(hours)
    ensures LegacyTwelveHour(hours) == if hours % 12 == 0 then "12" else PadStart2(hours % 12)
  {
    TwelveHourClosed(hours);
    DivModUnique(hours, 12, if hours >= 12 then 1 else 0, if hours >= 12 then hours - 12 else hours);
  }

  /** From 24 on the older formatter is not clamped: it prints the digits of `hours - 12`. */
  lemma LegacyTwelveHourUnclamped(hours: int)
    requires hours >= 24
    ensures AllDigits(LegacyTwelveHour(hours)) && DigitsValue(LegacyTwelveHour(hours)) == hours - 12
  {
    NatToStringRoundTrip(hours - 12);
  }

  /** The text of a format token with the older 12-hour formatter. */
  function LegacyTokenText(tok: Token, t: Instant): string
  {
    if tok == Hour12 then LegacyTwelveHour(t.hours) else TokenText(tok, t)
  }

  /** Since a date's hour lies in 0..23, the older token table writes what the newer one does. */
  lemma LegacyTokenTextSame(tok: Token, t: Instant)
    ensures LegacyTokenText(tok, t) == TokenText(tok, t)
  {
    if tok == Hour12 {
      LegacyTwelveHourOnClock(t.hours);
    }
  }

  // -----------------------------------------------------------------------
  // formatDate

  /**
   * `formatDate(date, format)`: the same defaults as the newer file; then
   * `undefined` (after a warning) for anything but a valid `Date`, a
   * TypeError for a format that is not a string, and otherwise the same
   * scan as the newer file; the token texts agree by `LegacyTokenTextSame`.
   */
  function LegacyFormatDate(date: Value, format: Value, now: Instant): (r: Result<Value>)
    ensures r == Ok(Undefined) <==> !ValidDate(DateArgument(date, now))
    ensures r.Err? <==> ValidDate(DateArgument(date, now)) && !FormatArgument(format).Str?
    ensures r.Ok? && r.value.Str? ==> r.value.s == Expand(FormatArgument(format).s, DateArgument(date, now).moment.t)
    ensures r.Ok? ==> r.value.Str? || r.value.Undefined?
    ensures FormatDate(date, format, now).Err? && FormatDate(date, format, now).failure.Error? ==> r == Ok(Undefined)
    ensures FormatDate(date, format, now).Ok? ==> r == Ok(Str(FormatDate(date, format, now).value))
  {
    var d := DateArgument(date, now);
    var f := FormatArgument(format);
    if !d.DateVal? || d.moment.Invalid? then Ok(Undefined)
    else if !f.Str? then Err(TypeError)
    else Ok(Str(Expand(f.s, d.moment.t)))
  }

  // -----------------------------------------------------------------------
  // parseDate

  /** `parseDate(value)`: whatever `new Date(value)` builds, unless its time value is `NaN`. */
  function LegacyParseDate(v: Value, parse: string -> Moment): (r: Result<Moment>)
    ensures r.Ok? <==> NewDate(v, parse).At?
    ensures r.Ok? ==> r.value == NewDate(v, parse)
    ensures r.Err? ==> r.failure == Error(BadFormatMessage)
  {
    var date := NewDate(v, parse);
    if date.Invalid? then Err(Error(BadFormatMessage)) else Ok(date)
  }

  /** On strings the older `parseDate` is the newer one. */
  lemma LegacyParseDateOnStrings(s: string, parse: string -> Moment)
    ensures LegacyParseDate(Str(s), parse) == ParseDate(Str(s), parse)
  {
  }

  /** A time value in range is accepted by the older `parseDate`, where the newer one refuses a non-string. */
  lemma LegacyParseDateNumbers(n: int, parse: string -> Moment)
    requires -MaxTime <= n <= MaxTime
    ensures LegacyParseDate(Num(n), parse).Ok? && TimeValue(LegacyParseDate(Num(n), parse).value.t) == n
    ensures ParseDate(Num(n), parse) == Err(Error(NotStringMessage))
  {
  }

  // -----------------------------------------------------------------------
  // calculateDateDifference and calculateMonthsYearsDifference

  /** A date argument of the older file: a `Date` as it is, anything else through its `parseDate`. */
  function LegacyDateArg(v: Value, parse: string -> Moment): Result<Moment>
  {
    if v.DateVal? then Ok(v.moment) else LegacyParseDate(v, parse)
  }

  /** `calculateDateDifference(options)` of the older file, as a value. */
  function LegacyDateDifference(options: Value, parse: string -> Moment, next: Moment -> Pass, fuel: nat): (r: Option<Result<Value>>)
    ensures r == Some(Err(Error(MissingDatesMessage))) <==>
      !Truthy(options) || !Truthy(Get(options, "startDate")) || !Truthy(Get(options, "endDate"))
    ensures r.Some? && r.value.Ok? ==>
      LegacyDateArg(Get(options, "startDate"), parse).Ok? && LegacyDateArg(Get(options, "endDate"), parse).Ok? && Get(options, "unit").Str?
  {
    assert BadFormatMessage[0] != MissingDatesMessage[0];
    DifferenceOf(options, LegacyDateArg(Get(options, "startDate"), parse), LegacyDateArg(Get(options, "endDate"), parse), next, fuel)
  }

  /** With dates given as strings or `Date` objects, the older and the newer `calculateDateDifference` agree. */
  lemma LegacyDateDifferenceAgrees(options: Value, parse: string -> Moment, next: Moment -> Pass, fuel: nat)
    requires Get(options, "startDate").Str? || Get(options, "startDate").DateVal?
    requires Get(options, "endDate").Str? || Get(options, "endDate").DateVal?
    ensures LegacyDateDifference(options, parse, next, fuel) == DateDifference.DateDifference(options, parse, next, fuel)
  {
    LegacyDateArgAgrees(Get(options, "startDate"), parse);
    LegacyDateArgAgrees(Get(options, "endDate"), parse);
  }

  /** A string or a `Date` is read the same way by both files. */
  lemma LegacyDateArgAgrees(v: Value, parse: string -> Moment)
    requires v.Str? || v.DateVal?
    ensures LegacyDateArg(v, parse) == DateArg(v, parse)
  {
    if v.Str? {
      LegacyParseDateOnStrings(v.s, parse);
    }
  }

  /** `calculateDateDifference(options)` of the older file: the same switch, with this file's leap-year test in the walk. */
  method LegacyCalculateDateDifference(options: Value, parse: string -> Moment, ghost next: Moment -> Pass, fuel: nat) returns (r: Option<Result<Value>>)
    requires StepsBy(next, LegacyLeap)
    ensures r == LegacyDateDifference(options, parse, next, fuel)
  {
    if !Truthy(options) || !Truthy(Get(options, "startDate")) || !Truthy(Get(options, "endDate")) {
      return Some(Err(Error(MissingDatesMessage)));
    }
    var start := LegacyDateArg(Get(options, "startDate"), parse);
    if start.Err? {
      return Some(Err(start.failure));
    }
    var end := LegacyDateArg(Get(options, "endDate"), parse);
    if end.Err? {
      return Some(Err(end.failure));
    }
    r := DifferenceBetween(start.value, end.value, Get(options, "unit"), LegacyLeap, next, fuel);
  }

  /** `calculateMonthsYearsDifference(startDate, endDate)` of the older file: the same cursor walk, with the unguarded leap-year test. */
  method LegacyCalculateMonthsYearsDifference(start: Moment, end: Moment, ghost next: Moment -> Pass, fuel: nat) returns (r: Option<Span>)
    requires StepsBy(next, LegacyLeap)
    ensures r == MonthsYears(start, end, next, fuel)
  {
    r := CalculateMonthsYearsDifference(start, end, LegacyLeap, next, fuel);
  }

  /**
   * One pass of the older walk is one pass of the newer walk, except from
   * February 29 of a year before 1, which only the older test moves back
   * to the 28th.
   */
  lemma LegacyStepAgrees(c: Moment)
    requires !(c.At? && c.t.month == 1 && c.t.day == 29 && c.t.year < 1)
    ensures Step(c, LegacyLeap) == Step(c, Leap)
  {
    if c.At? && c.t.month == 1 && c.t.day == 29 {
      assert DaysInMonth(c.t.year, 1) == 29;
      LegacyLeapIsCalendarLeap(c.t.year);
    }
    StepByGuard(c, LegacyLeap, Leap);
  }

  /** Two leap-year tests that agree on whether to move the cursor back give the same pass. */
  lemma StepByGuard(c: Moment, leap1: int -> bool, leap2: int -> bool)
    requires SnapsLeapDay(c, leap1) == SnapsLeapDay(c, leap2)
    ensures Step(c, leap1) == Step(c, leap2)
  {
  }

  /** Whether the first move of a pass, February 29 back to the 28th, applies under the test `leap`. */
  predicate SnapsLeapDay(c: Moment, leap: int -> bool)
  {
    c.At? && c.t.month == 1 && leap(c.t.year) && c.t.day == 29
  }

  /** From February 29, the older walk always moves back to the 28th first. */
  lemma LegacyStepFromLeapDay(c: Moment)
    requires c.At? && c.t.month == 1 && c.t.day == 29
    ensures Step(c, LegacyLeap) == Step(WithDate(c, 28), Leap)
  {
    assert DaysInMonth(c.t.year, 1) == 29;
    LegacyLeapIsCalendarLeap(c.t.year);
    assert WithDate(c, 28).At? ==> WithDate(c, 28).t.day == 28;
  }
}
