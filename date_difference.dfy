/**
 * `calculateDateDifference` and `parseDate` of `src/date/index.js`: the
 * difference between two dates in a fixed-size unit (by floor division of
 * the millisecond difference) or in calendar months or years (by the
 * cursor walk of `calculateMonthsYearsDifference`).
 *
 * `new Date(s)` on a string is the parameter `parse`. The month walk is
 * run with `fuel` passes at most, so a difference in months or years is
 * `None` when the walk has not ended by then.
 */
module DateDifference {
  import opened Text
  import opened Wrappers
  import opened Values
  import opened Calendar
  import opened Dates
  import opened MonthWalk

  const MissingDatesMessage := "Both startDate and endDate must be provided."
  const NotStringMessage := "Invalid date input. Date must be a string."
  const BadFormatMessage := "Invalid date format provided."

  /** The message for a unit that is none of the seven, quoting the unit as given. */
  function InvalidUnitMessage(unit: string): string
  {
    "Invalid unit: " + unit + ". Valid units are 'days', 'hours', 'minutes', 'seconds', 'milliseconds', 'months', 'years'."
  }

  // -----------------------------------------------------------------------
  // parseDate

  /** `parseDate(v)`: only a string is parsed, and only a string the parser reads as a valid date is accepted. */
  function ParseDate(v: Value, parse: string -> Moment): (r: Result<Moment>)
    ensures r.Ok? <==> v.Str? && parse(v.s).At?
    ensures r.Ok? ==> r.value == parse(v.s) && r.value.At?
    ensures r.Err? ==> r.failure == Error(if v.Str? then BadFormatMessage else NotStringMessage)
  {
    if !v.Str? then Err(Error(NotStringMessage))
    else if parse(v.s).Invalid? then Err(Error(BadFormatMessage))
    else Ok(parse(v.s))
  }

  /** A date argument: a `Date` is taken as it is (even an invalid one), anything else goes through `parseDate`. */
  function DateArg(v: Value, parse: string -> Moment): Result<Moment>
  {
    if v.DateVal? then Ok(v.moment) else ParseDate(v, parse)
  }

  // -----------------------------------------------------------------------
  // Units

  /** The milliseconds in one of the fixed-size units, by lower-cased name. */
  function UnitSize(unit: string): Option<nat>
  {
    if unit == "days" then Some(MsPerDay)
    else if unit == "hours" then Some(3600000)
    else if unit == "minutes" then Some(60000)
    else if unit == "seconds" then Some(1000)
    else if unit == "milliseconds" then Some(1)
    else None
  }

  predicate IsCalendarUnit(unit: string)
  {
    unit == "months" || unit == "years"
  }

  /** `endDate - startDate`: `NaN` unless both are valid dates. */
  function Minus(end: Moment, start: Moment): Value
  {
    if end.At? && start.At? then Num(TimeValue(end.t) - TimeValue(start.t)) else NaN
  }

  /** `Math.floor(diff / size)`; on integers and a positive divisor this is Euclidean division. */
  function FloorDiv(diff: Value, size: nat): Value
    requires size > 0
  {
    if diff.Num? then Num(diff.n / size) else NaN
  }

  /**
   * The difference once both dates are read: the later one is made the
   * end, then the unit, lower-cased, picks the result. A unit that is not
   * a string has no `toLowerCase`, so reading it raises a TypeError.
   */
  function Difference(start: Moment, end: Moment, unit: Value, next: Moment -> Pass, fuel: nat): Option<Result<Value>>
  {
    var s := if After(start, end) then end else start;
    var e := if After(start, end) then start else end;
    if !unit.Str? then Some(Err(TypeError))
    else
      var u := Lower(unit.s);
      if UnitSize(u).Some? then Some(Ok(FloorDiv(Minus(e, s), UnitSize(u).value)))
      else if IsCalendarUnit(u) then
        var span := MonthsYears(s, e, next, fuel);
        if span.None? then None
        else Some(Ok(Num(if u == "months" then span.value.months else span.value.years)))
      else Some(Err(Error(InvalidUnitMessage(unit.s))))
  }

  /**
   * `calculateDateDifference(options)` with the two dates already read:
   * the presence check comes first, then the start date's error, then the
   * end date's.
   */
  function DifferenceOf(options: Value, start: Result<Moment>, end: Result<Moment>, next: Moment -> Pass, fuel: nat): (r: Option<Result<Value>>)
    ensures r == Some(Err(Error(MissingDatesMessage))) <==>
      !Truthy(options) || !Truthy(Get(options, "startDate")) || !Truthy(Get(options, "endDate"))
        || (start.Err? && start.failure == Error(MissingDatesMessage))
        || (start.Ok? && end.Err? && end.failure == Error(MissingDatesMessage))
  {
    if !Truthy(options) || !Truthy(Get(options, "startDate")) || !Truthy(Get(options, "endDate")) then
      Some(Err(Error(MissingDatesMessage)))
    else if start.Err? then Some(Err(start.failure))
    else if end.Err? then Some(Err(end.failure))
    else
      UnitMessagesDiffer(Get(options, "unit"));
      Difference(start.value, end.value, Get(options, "unit"), next, fuel)
  }

  /** No unit leads `Difference` to the message for missing dates. */
  lemma UnitMessagesDiffer(unit: Value)
    ensures unit.Str? ==> InvalidUnitMessage(unit.s) != MissingDatesMessage
    ensures forall start, end, next, fuel :: Difference(start, end, unit, next, fuel) != Some(Err(Error(MissingDatesMessage)))
  {
    if unit.Str? {
      assert InvalidUnitMessage(unit.s)[0] == 'I' != MissingDatesMessage[0];
    }
  }

  /** `calculateDateDifference(options)` as a value: the dates are read with `parseDate`. */
  function DateDifference(options: Value, parse: string -> Moment, next: Moment -> Pass, fuel: nat): (r: Option<Result<Value>>)
    ensures r == Some(Err(Error(MissingDatesMessage))) <==>
      !Truthy(options) || !Truthy(Get(options, "startDate")) || !Truthy(Get(options, "endDate"))
    ensures r.Some? && r.value.Ok? ==>
      DateArg(Get(options, "startDate"), parse).Ok? && DateArg(Get(options, "endDate"), parse).Ok? && Get(options, "unit").Str?
  {
    DifferenceOf(options, DateArg(Get(options, "startDate"), parse), DateArg(Get(options, "endDate"), parse), next, fuel)
  }

  /**
   * `calculateDateDifference(options)`: the switch of the source, with the
   * month walk run as the method that models its loop.
   */
  method CalculateDateDifference(options: Value, parse: string -> Moment, ghost next: Moment -> Pass, fuel: nat) returns (r: Option<Result<Value>>)
    requires StepsBy(next, Leap)
    ensures r == DateDifference(options, parse, next, fuel)
  {
    if !Truthy(options) || !Truthy(Get(options, "startDate")) || !Truthy(Get(options, "endDate")) {
      return Some(Err(Error(MissingDatesMessage)));
    }
    var start := DateArg(Get(options, "startDate"), parse);
    if start.Err? {
      return Some(Err(start.failure));
    }
    var end := DateArg(Get(options, "endDate"), parse);
    if end.Err? {
      return Some(Err(end.failure));
    }
    r := DifferenceBetween(start.value, end.value, Get(options, "unit"), Leap, next, fuel);
  }

  /** The part of `calculateDateDifference` after the dates are read, for a leap-year test `leap`. */
  method DifferenceBetween(startDate: Moment, endDate: Moment, unit: Value, leap: int -> bool, ghost next: Moment -> Pass, fuel: nat) returns (r: Option<Result<Value>>)
    requires StepsBy(next, leap)
    ensures r == Difference(startDate, endDate, unit, next, fuel)
  {
    var s, e := startDate, endDate;
    if After(s, e) {
      s, e := e, s;
    }
    var diff := Minus(e, s);
    if !unit.Str? {
      return Some(Err(TypeError));
    }
    var u := Lower(unit.s);
    if UnitSize(u).Some? {
      return Some(Ok(FloorDiv(diff, UnitSize(u).value)));
    }
    if !IsCalendarUnit(u) {
      return Some(Err(Error(InvalidUnitMessage(unit.s))));
    }
    var span := CalculateMonthsYearsDifference(s, e, leap, next, fuel);
    if span.None? {
      return None;
    }
    r := Some(Ok(Num(if u == "months" then span.value.months else span.value.years)));
  }

  // -----------------------------------------------------------------------
  // Properties

  /** Which date is given first makes no difference, in every unit and for invalid dates too. */
  lemma DifferenceSymmetric(a: Moment, b: Moment, unit: Value, next: Moment -> Pass, fuel: nat)
    ensures Difference(a, b, unit, next, fuel) == Difference(b, a, unit, next, fuel)
  {
    if a.At? && b.At? && !After(a, b) && !After(b, a) {
      TimeValueOrder(a.t, b.t);
    }
    if a.Invalid? || b.Invalid? {
      InvalidDates(a, b, next, fuel);
      InvalidDates(b, a, next, fuel);
    }
  }

  /** A fixed-size unit, in any letter case, gives the floor of the absolute millisecond difference over the unit's size. */
  lemma FixedUnit(a: Instant, b: Instant, unit: string, next: Moment -> Pass, fuel: nat)
    requires UnitSize(Lower(unit)).Some?
    ensures var n := Abs(TimeValue(a) - TimeValue(b)) / UnitSize(Lower(unit)).value;
      Difference(At(a), At(b), Str(unit), next, fuel) == Some(Ok(Num(n))) && n >= 0
  {
    var size := UnitSize(Lower(unit)).value;
    var s := if After(At(a), At(b)) then At(b) else At(a);
    var e := if After(At(a), At(b)) then At(a) else At(b);
    assert Difference(At(a), At(b), Str(unit), next, fuel) == Some(Ok(FloorDiv(Minus(e, s), size)));
    MinusOrdered(a, b);
    WholeUnits(Abs(TimeValue(a) - TimeValue(b)), size);
  }

  /** The later date minus the earlier is the absolute difference of the time values. */
  lemma MinusOrdered(a: Instant, b: Instant)
    ensures var s := if After(At(a), At(b)) then At(b) else At(a);
      var e := if After(At(a), At(b)) then At(a) else At(b);
      Minus(e, s) == Num(Abs(TimeValue(a) - TimeValue(b)))
  {
  }

  lemma WholeUnits(d: int, size: nat)
    requires d >= 0 && size > 0
    ensures FloorDiv(Num(d), size) == Num(d / size) && d / size >= 0
  {
  }

  /** In a fixed-size unit an invalid date gives `NaN`. */
  lemma FixedUnitInvalid(a: Moment, b: Moment, unit: string, next: Moment -> Pass, fuel: nat)
    requires a.Invalid? || b.Invalid?
    requires UnitSize(Lower(unit)).Some?
    ensures Difference(a, b, Str(unit), next, fuel) == Some(Ok(NaN))
  {
  }

  /** Every unit whose lower-cased form is not one of the seven throws, naming the unit as given. */
  lemma UnknownUnit(a: Moment, b: Moment, unit: string, next: Moment -> Pass, fuel: nat)
    requires UnitSize(Lower(unit)).None? && !IsCalendarUnit(Lower(unit))
    ensures Difference(a, b, Str(unit), next, fuel) == Some(Err(Error(InvalidUnitMessage(unit))))
  {
  }

  /** As written, an omitted unit makes `options.unit.toLowerCase()` throw a TypeError, whatever the dates. */
  lemma OmittedUnitThrows(a: Moment, b: Moment, next: Moment -> Pass, fuel: nat)
    ensures Difference(a, b, Undefined, next, fuel) == Some(Err(TypeError))
  {
  }

  /** So `calculateDateDifference` with two readable dates and no unit throws a TypeError. */
  lemma OmittedUnitThrowsOnOptions(options: Value, parse: string -> Moment, next: Moment -> Pass, fuel: nat)
    requires Truthy(options) && Truthy(Get(options, "startDate")) && Truthy(Get(options, "endDate"))
    requires DateArg(Get(options, "startDate"), parse).Ok? && DateArg(Get(options, "endDate"), parse).Ok?
    requires Get(options, "unit").Undefined?
    ensures DateDifference(options, parse, next, fuel) == Some(Err(TypeError))
  {
    OmittedUnitThrows(DateArg(Get(options, "startDate"), parse).value, DateArg(Get(options, "endDate"), parse).value, next, fuel);
  }

  /** The documented default of `options.unit`: a missing unit reads as "days". */
  function UnitOrDays(unit: Value): Value
  {
    if unit.Undefined? then Str("days") else unit
  }

  /** The difference with the documented default unit. */
  function DefaultedDifference(start: Moment, end: Moment, unit: Value, next: Moment -> Pass, fuel: nat): Option<Result<Value>>
  {
    Difference(start, end, UnitOrDays(unit), next, fuel)
  }

  /** With the default, an omitted unit counts whole days between two valid dates, as "days" does. */
  lemma DefaultUnitIsDays(a: Instant, b: Instant, next: Moment -> Pass, fuel: nat)
    ensures DefaultedDifference(At(a), At(b), Undefined, next, fuel) == Difference(At(a), At(b), Str("days"), next, fuel)
    ensures DefaultedDifference(At(a), At(b), Undefined, next, fuel) == Some(Ok(Num(Abs(TimeValue(a) - TimeValue(b)) / MsPerDay)))
  {
    assert Lower("days") == "days";
    FixedUnit(a, b, "days", next, fuel);
  }

  /** The calendar units read the month walk from the earlier date to the later. */
  lemma CalendarUnit(a: Instant, b: Instant, unit: string, next: Moment -> Pass, fuel: nat)
    requires IsCalendarUnit(Lower(unit))
    requires TimeValue(a) <= TimeValue(b)
    ensures var span := MonthsYears(At(a), At(b), next, fuel);
      Difference(At(a), At(b), Str(unit), next, fuel)
        == if span.None? then None else Some(Ok(Num(if Lower(unit) == "months" then span.value.months else span.value.years)))
  {
  }

  /**
   * From the first of a month, months and years come out as whole
   * calendar months (one fewer when the end is itself a first of the
   * month but earlier in the day) and the difference of the years.
   */
  lemma CalendarUnitFromFirst(a: Instant, b: Instant, unit: string, next: Moment -> Pass, fuel: nat)
    requires StepsBy(next, Leap)
    requires IsCalendarUnit(Lower(unit))
    requires a.day == 1
    requires -MaxTime <= TimeValue(a) <= TimeValue(b) && TimeValue(b) + 31 * MsPerDay <= MaxTime
    requires fuel > MonthIndex(b) - MonthIndex(a)
    ensures Lower(unit) == "months" ==>
      Difference(At(a), At(b), Str(unit), next, fuel)
        == Some(Ok(Num(MonthIndex(b) - MonthIndex(a) - (if b.day == 1 && TimeOfDay(b) < TimeOfDay(a) then 1 else 0))))
    ensures Lower(unit) == "years" ==> Difference(At(a), At(b), Str(unit), next, fuel) == Some(Ok(Num(b.year - a.year)))
  {
    CalendarUnit(a, b, unit, next, fuel);
    MonthsFromFirst(a, b, next, Leap, fuel);
  }

  /** The options with `startDate` and `endDate` set to `s` and `e`. */
  function WithDates(options: Value, s: Value, e: Value): (r: Value)
    requires options.Obj?
    ensures Get(r, "startDate") == s && Get(r, "endDate") == e
    ensures forall k :: k != "startDate" && k != "endDate" ==> Get(r, k) == Get(options, k)
  {
    Obj(options.id, SetField(SetField(options.fields, "startDate", s), "endDate", e))
  }

  /** Swapping two dates that are both accepted leaves `calculateDateDifference` unchanged. */
  lemma SwappedDates(options: Value, s: Value, e: Value, parse: string -> Moment, next: Moment -> Pass, fuel: nat)
    requires options.Obj?
    requires DateArg(s, parse).Ok? && DateArg(e, parse).Ok?
    ensures DateDifference(WithDates(options, s, e), parse, next, fuel) == DateDifference(WithDates(options, e, s), parse, next, fuel)
  {
    DifferenceSymmetric(DateArg(s, parse).value, DateArg(e, parse).value, Get(options, "unit"), next, fuel);
  }
}
