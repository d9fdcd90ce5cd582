/**
 * The date listings of `src/date/index.js`: `getBeforeOrAfterDate` (a day
 * shift on a copied date), `getYearRange` (a run of consecutive years) and
 * `getSevenDaysInfo` (seven consecutive days with their weekday names).
 *
 * The current time is the parameter `now`, the current year `currentYear`
 * and `new Date(s)` on a string the parameter `parse`. New objects are
 * numbered from `base`.
 */
module DateRanges {
  import opened Text
  import opened Wrappers
  import opened Values
  import opened Calendar
  import opened Dates

  /** `getDate()` of a date; `NaN` for an invalid one, which stays invalid whatever day is then set. */
  function DateOf(m: Moment): int
  {
    if m.At? then m.t.day else 0
  }

  /** `new Date(v)`: a date is copied, a string parsed, a number taken as a time value. */
  function NewDate(v: Value, parse: string -> Moment): Moment
  {
    match v
    case DateVal(_, m) => m
    case Str(s) => parse(s)
    case Num(n) => FromTimeValue(n)
    case Bool(b) => FromTimeValue(if b then 1 else 0)
    case Null => FromTimeValue(0)
    case Undefined => Invalid
    case NaN => Invalid
    case _ => parse(ToString(v))
  }

  // -----------------------------------------------------------------------
  // getBeforeOrAfterDate

  const InvalidDateStringMessage := "Invalid date string"
  const InvalidInputMessage := "Invalid date input. Must be a string or a Date object"
  const InvalidTypeMessage := "Invalid date type. Must be 'before' or 'after'"

  /** The date to shift: a string must parse, a `Date` is copied, an absent date is now. */
  function InputDate(dateInput: Value, parse: string -> Moment, now: Moment): Result<Moment>
  {
    if dateInput.Undefined? then Ok(now)
    else if dateInput.Str? then
      if parse(dateInput.s).Invalid? then Err(Error(InvalidDateStringMessage)) else Ok(parse(dateInput.s))
    else if dateInput.DateVal? then Ok(dateInput.moment)
    else Err(Error(InvalidInputMessage))
  }

  /** The signed shift in days: `-n` before, `n` after; `None` for any other type. */
  function ShiftOf(n: int, kind: Value): Option<int>
  {
    var k := if kind.Undefined? then Str("before") else kind;
    if k == Str("before") then Some(-n)
    else if k == Str("after") then Some(n)
    else None
  }

  /**
   * The shifted date: the input's day of the month moved by the shift and
   * rolled over month and year ends, at the same time of day.
   */
  function Shifted(dateInput: Value, n: int, kind: Value, parse: string -> Moment, now: Moment): (r: Result<Moment>)
    ensures r.Ok? <==> InputDate(dateInput, parse, now).Ok? && ShiftOf(n, kind).Some?
    ensures r.Ok? && r.value.At? ==>
      var m := InputDate(dateInput, parse, now).value;
      m.At? && DayOf(r.value.t) == DayOf(m.t) + ShiftOf(n, kind).value && TimeOfDay(r.value.t) == TimeOfDay(m.t)
  {
    var d := InputDate(dateInput, parse, now);
    if d.Err? then Err(d.failure)
    else if ShiftOf(n, kind).None? then Err(Error(InvalidTypeMessage))
    else Ok(WithDate(d.value, DateOf(d.value) + ShiftOf(n, kind).value))
  }

  lemma ShiftedBy(dateInput: Value, n: int, kind: Value, parse: string -> Moment, now: Moment, m: Moment)
    requires InputDate(dateInput, parse, now) == Ok(m) && ShiftOf(n, kind).Some?
    ensures Shifted(dateInput, n, kind, parse, now) == Ok(WithDate(m, DateOf(m) + ShiftOf(n, kind).value))
  {
  }

  /**
   * `formatDate(date)` with its default format "YYYY-MM-DD": the year, the
   * two-digit month and the two-digit day, or the invalid-date error.
   */
  function DefaultDateText(m: Moment): Result<string>
  {
    if m.Invalid? then Err(Error(InvalidDateMessage))
    else Ok(IntToString(m.t.year) + ("-" + (PadStart2(m.t.month + 1) + ("-" + PadStart2(m.t.day)))))
  }

  /** `DefaultDateText` is `formatDate` with the format "YYYY-MM-DD". */
  lemma DefaultDateTextIsFormatDate(m: Moment)
    ensures forall now: Instant :: DefaultDateText(m) == FormatDate(DateVal(0, m), Undefined, now)
  {
    if m.At? {
      DefaultFormat(m.t);
    }
  }

  /**
   * `getBeforeOrAfterDate(dateInput, n, type)`: the shifted date as
   * "YYYY-MM-DD"; a shift out of the range of dates makes `formatDate` throw.
   */
  function BeforeOrAfter(dateInput: Value, n: int, kind: Value, parse: string -> Moment, now: Moment): (r: Result<string>)
    ensures var m := Shifted(dateInput, n, kind, parse, now);
      (r.Ok? <==> m.Ok? && m.value.At?)
      && (m.Err? ==> r == Err(m.failure))
      && (m.Ok? && m.value.Invalid? ==> r == Err(Error(InvalidDateMessage)))
  {
    var m := Shifted(dateInput, n, kind, parse, now);
    if m.Err? then Err(m.failure) else DefaultDateText(m.value)
  }

  /** `getBeforeOrAfterDate`, shifting a fresh copy of the input date in place. */
  method GetBeforeOrAfterDate(dateInput: Value, n: int, kind: Value, parse: string -> Moment, now: Moment) returns (r: Result<string>)
    ensures r == BeforeOrAfter(dateInput, n, kind, parse, now)
  {
    var inputDate: DateObject;
    if dateInput.Undefined? {
      inputDate := new DateObject(now);
    } else if dateInput.Str? {
      inputDate := new DateObject(parse(dateInput.s));
      if inputDate.moment.Invalid? {
        return Err(Error(InvalidDateStringMessage));
      }
    } else if dateInput.DateVal? {
      inputDate := new DateObject(dateInput.moment);
    } else {
      return Err(Error(InvalidInputMessage));
    }
    ghost var m := inputDate.moment;
    assert InputDate(dateInput, parse, now) == Ok(m);
    var k := if kind.Undefined? then Str("before") else kind;
    if k == Str("before") {
      inputDate.SetDate(DateOf(inputDate.moment) - n);
    } else if k == Str("after") {
      inputDate.SetDate(DateOf(inputDate.moment) + n);
    } else {
      return Err(Error(InvalidTypeMessage));
    }
    assert inputDate.moment == WithDate(m, DateOf(m) + ShiftOf(n, kind).value);
    ShiftedBy(dateInput, n, kind, parse, now, m);
    r := DefaultDateText(inputDate.moment);
  }

  /** Going `n` days before is going `-n` days after. */
  lemma BeforeIsAfterNegated(dateInput: Value, n: int, parse: string -> Moment, now: Moment)
    ensures BeforeOrAfter(dateInput, n, Str("before"), parse, now) == BeforeOrAfter(dateInput, -n, Str("after"), parse, now)
  {
    assert ShiftOf(n, Str("before")) == ShiftOf(-n, Str("after"));
  }

  /** A shift of zero days gives the input date itself. */
  lemma ZeroShift(t: Instant, kind: Value, parse: string -> Moment, now: Moment)
    requires ShiftOf(0, kind).Some?
    requires -MaxTime <= TimeValue(t) <= MaxTime
    ensures Shifted(DateVal(0, At(t)), 0, kind, parse, now) == Ok(At(t))
  {
    var c := Roll(t.year, t.month, t.day);
    DayNumberInjective(c, CalendarDay(t.year, t.month, t.day));
    assert t.(year := c.year, month := c.month, day := c.day) == t;
    ShiftedBy(DateVal(0, At(t)), 0, kind, parse, now, At(t));
  }

  // -----------------------------------------------------------------------
  // getYearRange

  const YearsNotIntegersMessage := "Year values must be integers."
  const InvalidOrderMessage := "Invalid order parameter. Must be 'asc' or 'desc'"

  /** `parseInt(s)`: leading white space, an optional sign, then the decimal digits in front; `NaN` without digits. */
  function ParseInt(s: string): (r: Value)
    ensures r.Num? || r.NaN?
  {
    ParseSigned(TrimStart(s))
  }

  /** The sign and the digits after the leading white space. */
  function ParseSigned(t: string): (r: Value)
    ensures r.Num? || r.NaN?
  {
    if t != [] && t[0] == '-' then
      var v := ParseDigits(t[1..]);
      if v.Num? then Num(-v.n) else NaN
    else if t != [] && t[0] == '+' then ParseDigits(t[1..])
    else ParseDigits(t)
  }

  /** The decimal digits at the front of `u`, or `NaN` when there are none. */
  function ParseDigits(u: string): (r: Value)
    ensures r.Num? || r.NaN?
  {
    var n := DigitPrefix(u);
    if n == 0 then NaN else Num(DigitsValue(u[..n]))
  }

  /** A string of digits is read to its end. */
  lemma {:induction false} DigitPrefixAll(s: string)
    requires AllDigits(s)
    ensures DigitPrefix(s) == |s|
  {
    if s != [] {
      DigitPrefixAll(s[1..]);
    }
  }

  /** A non-empty run of digits is read as its value. */
  lemma ParseIntDigits(d: string)
    requires d != [] && AllDigits(d)
    ensures ParseInt(d) == Num(DigitsValue(d))
  {
    assert !IsSpace(d[0]) && d[0] != '-' && d[0] != '+';
    assert TrimStart(d) == d;
    DigitPrefixAll(d);
    assert d[..|d|] == d;
  }

  /** A minus sign and a non-empty run of digits are read as the negated value. */
  lemma ParseIntNegated(d: string)
    requires d != [] && AllDigits(d)
    ensures ParseInt("-" + d) == Num(-(DigitsValue(d) as int))
  {
    var s := "-" + d;
    assert s[0] == '-' && !IsSpace(s[0]);
    assert TrimStart(s) == s;
    assert s[1..] == d;
    DigitPrefixAll(d);
    assert d[..|d|] == d;
  }

  /** `parseInt(String(n)) === n` for every integer `n`. */
  lemma ParseIntRoundTrip(n: int)
    ensures ParseInt(IntToString(n)) == Num(n)
  {
    var k: nat := if n < 0 then -n else n;
    NatToStringRoundTrip(k);
    if n < 0 {
      ParseIntNegated(NatToString(k));
    } else {
      ParseIntDigits(NatToString(k));
    }
  }

  /** `year1..year2` counting up. */
  function Ascending(lo: int, hi: int): (r: seq<int>)
    ensures |r| == if lo <= hi then hi - lo + 1 else 0
    ensures forall k :: 0 <= k < |r| ==> r[k] == lo + k
    decreases hi - lo
  {
    if lo > hi then [] else [lo] + Ascending(lo + 1, hi)
  }

  /** `year2..year1` counting down. */
  function Descending(lo: int, hi: int): (r: seq<int>)
    ensures |r| == if lo <= hi then hi - lo + 1 else 0
    ensures forall k :: 0 <= k < |r| ==> r[k] == hi - k
    decreases hi - lo
  {
    if lo > hi then [] else [hi] + Descending(lo, hi - 1)
  }

  /** The descending range is the ascending one read backwards. */
  lemma DescendingReversed(lo: int, hi: int)
    ensures |Descending(lo, hi)| == |Ascending(lo, hi)|
    ensures forall k :: 0 <= k < |Ascending(lo, hi)| ==> Descending(lo, hi)[k] == Ascending(lo, hi)[|Ascending(lo, hi)| - 1 - k]
  {
  }

  /** A year argument: a string through `parseInt`, anything else as it is. */
  function YearArg(v: Value): Value
  {
    if v.Str? then ParseInt(v.s) else v
  }

  /** The two years after defaulting and parsing, if both are integers. */
  function YearBounds(year1: Value, year2: Value, currentYear: int): Option<(int, int)>
  {
    var y1 := if Truthy(year1) then year1 else Num(currentYear);
    var y2 := if Truthy(year2) then year2 else y1;
    var a, b := YearArg(y1), YearArg(y2);
    if a.Num? && b.Num? then Some((a.n, b.n)) else None
  }

  /** The years from the smaller bound to the larger, in the requested order. */
  function OrderedYears(y1: int, y2: int, order: Value): (r: Result<seq<int>>)
    ensures r.Ok? <==> order.Undefined? || order == Str("asc") || order == Str("desc")
    ensures r.Ok? ==>
      var lo, hi := if y1 <= y2 then y1 else y2, if y1 <= y2 then y2 else y1;
      |r.value| == hi - lo + 1
      && (order == Str("desc") ==> forall k :: 0 <= k < |r.value| ==> r.value[k] == hi - k)
      && (order != Str("desc") ==> forall k :: 0 <= k < |r.value| ==> r.value[k] == lo + k)
  {
    var lo, hi := if y1 <= y2 then y1 else y2, if y1 <= y2 then y2 else y1;
    var o := if order.Undefined? then Str("asc") else order;
    if o != Str("asc") && o != Str("desc") then Err(Error(InvalidOrderMessage))
    else if o == Str("asc") then Ok(Ascending(lo, hi))
    else Ok(Descending(lo, hi))
  }

  /**
   * `getYearRange(year1, year2, order)`: falsy years default to the current
   * year and to `year1`, both must then be integers, they are put in order,
   * and the order must be "asc" or "desc".
   */
  function YearRange(year1: Value, year2: Value, order: Value, currentYear: int): Result<seq<int>>
  {
    var bounds := YearBounds(year1, year2, currentYear);
    if bounds.None? then Err(Error(YearsNotIntegersMessage))
    else OrderedYears(bounds.value.0, bounds.value.1, order)
  }

  lemma AscendingSnoc(lo: int, hi: int)
    requires lo <= hi + 1
    ensures Ascending(lo, hi) + [hi + 1] == Ascending(lo, hi + 1)
  {
  }

  lemma DescendingSnoc(lo: int, hi: int)
    requires lo <= hi + 1
    ensures Descending(lo, hi) + [lo - 1] == Descending(lo - 1, hi)
  {
  }

  /** The `for` loop counting up from `lo` to `hi`. */
  method YearsUp(lo: int, hi: int) returns (years: seq<int>)
    ensures years == Ascending(lo, hi)
  {
    years := [];
    if lo > hi {
      return;
    }
    var i := lo;
    while i <= hi
      invariant lo <= i <= hi + 1
      invariant years == Ascending(lo, i - 1)
      decreases hi - i
    {
      AscendingSnoc(lo, i - 1);
      years := years + [i];
      i := i + 1;
    }
  }

  /** The `for` loop counting down from `hi` to `lo`. */
  method YearsDown(lo: int, hi: int) returns (years: seq<int>)
    ensures years == Descending(lo, hi)
  {
    years := [];
    if lo > hi {
      return;
    }
    var i := hi;
    while i >= lo
      invariant lo - 1 <= i <= hi
      invariant years == Descending(i + 1, hi)
      decreases i - lo
    {
      DescendingSnoc(i + 1, hi);
      years := years + [i];
      i := i - 1;
    }
  }

  /** `getYearRange`, pushing the years one by one. */
  method GetYearRange(year1: Value, year2: Value, order: Value, currentYear: int) returns (r: Result<seq<int>>)
    ensures r == YearRange(year1, year2, order, currentYear)
  {
    var bounds := YearBounds(year1, year2, currentYear);
    if bounds.None? {
      return Err(Error(YearsNotIntegersMessage));
    }
    r := OrderYears(bounds.value.0, bounds.value.1, order);
  }

  /** The swap of the bounds, the order check and the loop of `getYearRange`. */
  method OrderYears(y1: int, y2: int, order: Value) returns (r: Result<seq<int>>)
    ensures r == OrderedYears(y1, y2, order)
  {
    var lo, hi := y1, y2;
    if lo > hi {
      lo, hi := hi, lo;
    }
    var o := if order.Undefined? then Str("asc") else order;
    if o != Str("asc") && o != Str("desc") {
      return Err(Error(InvalidOrderMessage));
    }
    var years;
    if o == Str("asc") {
      years := YearsUp(lo, hi);
    } else {
      years := YearsDown(lo, hi);
    }
    return Ok(years);
  }

  /** With both years given, their order does not matter. */
  lemma YearRangeSymmetric(year1: Value, year2: Value, order: Value, currentYear: int)
    requires Truthy(year1) && Truthy(year2)
    ensures YearRange(year1, year2, order, currentYear) == YearRange(year2, year1, order, currentYear)
  {
    var b1, b2 := YearBounds(year1, year2, currentYear), YearBounds(year2, year1, currentYear);
    assert b1.Some? <==> b2.Some?;
    if b1.Some? {
      assert b2.value == (b1.value.1, b1.value.0);
      OrderedYearsSymmetric(b1.value.0, b1.value.1, order);
    }
  }

  /** The bounds are taken as smaller and larger, whichever comes first. */
  lemma OrderedYearsSymmetric(y1: int, y2: int, order: Value)
    ensures OrderedYears(y1, y2, order) == OrderedYears(y2, y1, order)
  {
    if y1 < y2 {
      assert (if y2 <= y1 then y2 else y1) == y1;
    } else if y2 < y1 {
      assert (if y1 <= y2 then y1 else y2) == y2;
    }
  }

  // -----------------------------------------------------------------------
  // getSevenDaysInfo

  const TodayLabel := "今天"
  const DefaultWeekdays: seq<Value> := [Str("周日"), Str("周一"), Str("周二"), Str("周三"), Str("周四"), Str("周五"), Str("周六")]

  /**
   * `{...defaults, ...options}[key]`: an own field of `options` wins, even
   * one holding `undefined`.
   */
  function Merged(options: Value, key: string, default: Value): Value
  {
    if options.Obj? && Lookup(options.fields, key).Some? then Lookup(options.fields, key).value else default
  }

  /**
   * What the listing loop reads from the merged options. The default format
   * is kept as `undefined`, which `formatDate` reads as its own default,
   * the same "YYYY-MM-DD".
   */
  datatype Listing = Listing(weekdays: Value, changeFirst: bool, format: Value, base: nat)

  /** The date `i` days on: `setDate(getDate() + 1)` done `i` times. */
  function DayAfter(m: Moment, i: nat): Moment
  {
    if i == 0 then m else var p := DayAfter(m, i - 1); WithDate(p, DateOf(p) + 1)
  }

  /** The property `weekdays[getDay()]` reads; an invalid date's `NaN` reads key "NaN". */
  function WeekdayKey(m: Moment): string
  {
    if m.At? then NatToString(Weekday(m.t)) else "NaN"
  }

  /** `formatDate(date, format)`: an `undefined` format takes the default, a non-string one has no `replace`. */
  function FormatWith(m: Moment, format: Value): (r: Result<string>)
    ensures forall now: Instant :: r == FormatDate(DateVal(0, m), format, now)
    ensures format.Undefined? ==> r == DefaultDateText(m)
    ensures r.Ok? ==> m.At?
  {
    DefaultDateTextIsFormatDate(m);
    if m.Invalid? then Err(Error(InvalidDateMessage))
    else if format.Undefined? then DefaultDateText(m)
    else if format.Str? then Ok(Expand(format.s, m.t))
    else Err(TypeError)
  }

  /** The record of pass `i` for the date `m`. */
  function Entry(l: Listing, i: nat, m: Moment): Result<Value>
  {
    if l.weekdays.Undefined? || l.weekdays.Null? then Err(TypeError)
    else
      var weekday := if i == 0 && l.changeFirst then Str(TodayLabel) else Get(l.weekdays, WeekdayKey(m));
      var text := FormatWith(m, l.format);
      if text.Err? then Err(text.failure)
      else Ok(Obj(l.base + i, [Field("weekday", weekday), Field("date", Str(text.value))]))
  }

  /** The record of each pass, by pass number. */
  function EntryAt(l: Listing, start: Moment): nat -> Result<Value>
  {
    (i: nat) => Entry(l, i, DayAfter(start, i))
  }

  /** The records of the first `n` passes of a loop, or the failure of the first pass that throws. */
  function Collect(entry: nat -> Result<Value>, n: nat): (r: Result<seq<Value>>)
    ensures r.Ok? ==> |r.value| == n && forall k :: 0 <= k < n ==> entry(k) == Ok(r.value[k])
  {
    if n == 0 then Ok([])
    else
      var prev := Collect(entry, n - 1);
      if prev.Err? then prev
      else if entry(n - 1).Err? then Err(entry(n - 1).failure)
      else Ok(prev.value + [entry(n - 1).value])
  }

  /** Once a pass has thrown, later passes change nothing. */
  lemma {:induction false} CollectStaysFailed(entry: nat -> Result<Value>, n: nat, m: nat)
    requires Collect(entry, n).Err? && n <= m
    ensures Collect(entry, m) == Collect(entry, n)
    decreases m - n
  {
    if n < m {
      CollectStaysFailed(entry, n, m - 1);
    }
  }

  /** A pass that does not throw adds its record to the listing so far. */
  lemma CollectAppend(entry: nat -> Result<Value>, n: nat, v: Value)
    requires Collect(entry, n).Ok? && entry(n) == Ok(v)
    ensures Collect(entry, n + 1) == Ok(Collect(entry, n).value + [v])
  {
  }

  /** The first pass that throws decides the listing of any longer loop. */
  lemma CollectFails(entry: nat -> Result<Value>, n: nat, m: nat)
    requires Collect(entry, n).Ok? && entry(n).Err? && n < m
    ensures Collect(entry, m) == Err(entry(n).failure)
  {
    CollectStaysFailed(entry, n + 1, m);
  }

  /** The options merged with the defaults. */
  function ListingOf(options: Value, base: nat): Listing
  {
    Listing(Merged(options, "weekdays", Arr(base + 7, DefaultWeekdays)),
            Truthy(Merged(options, "changeFirst", Bool(false))),
            Merged(options, "format", Undefined),
            base)
  }

  /** `new Date(date)` for a truthy date option, otherwise now. */
  function StartOf(options: Value, parse: string -> Moment, now: Moment): Moment
  {
    var date := Merged(options, "date", Null);
    if Truthy(date) then NewDate(date, parse) else now
  }

  /** `getSevenDaysInfo(options)`: the records of the seven passes. */
  function SevenDays(options: Value, parse: string -> Moment, now: Moment, base: nat): Result<seq<Value>>
  {
    Collect(EntryAt(ListingOf(options, base), StartOf(options, parse, now)), 7)
  }

  /** One pass of the loop: a record from `l`, or the failure of `weekdays[…]` or `formatDate`. */
  method DayRecord(l: Listing, i: nat, currentDate: DateObject) returns (r: Result<Value>)
    ensures r == Entry(l, i, currentDate.moment)
  {
    if l.weekdays.Undefined? || l.weekdays.Null? {
      return Err(TypeError);
    }
    var weekday := Get(l.weekdays, WeekdayKey(currentDate.moment));
    if i == 0 && l.changeFirst {
      weekday := Str(TodayLabel);
    }
    var dateStr := FormatWith(currentDate.moment, l.format);
    if dateStr.Err? {
      return Err(dateStr.failure);
    }
    return Ok(Obj(l.base + i, [Field("weekday", weekday), Field("date", Str(dateStr.value))]));
  }

  /** `getSevenDaysInfo`: the listing, the start date, then the loop. */
  method GetSevenDaysInfo(options: Value, parse: string -> Moment, now: Moment, base: nat) returns (r: Result<seq<Value>>)
    ensures r == SevenDays(options, parse, now, base)
  {
    var l := ListingOf(options, base);
    var date := Merged(options, "date", Null);
    var currentDate := new DateObject(if Truthy(date) then NewDate(date, parse) else now);
    r := ListWeek(l, currentDate);
  }

  /** The loop of `getSevenDaysInfo`, moving `currentDate` a day per pass. */
  method ListWeek(l: Listing, currentDate: DateObject) returns (r: Result<seq<Value>>)
    modifies currentDate
    ensures r == Collect(EntryAt(l, old(currentDate.moment)), 7)
  {
    ghost var start := currentDate.moment;
    var daysInfo: seq<Value> := [];
    for i := 0 to 7
      invariant currentDate.moment == DayAfter(start, i)
      invariant Collect(EntryAt(l, start), i) == Ok(daysInfo)
    {
      var record := DayRecord(l, i, currentDate);
      RecordCollected(l, start, i, currentDate.moment, daysInfo, record);
      if record.Err? {
        return Err(record.failure);
      }
      daysInfo := daysInfo + [record.value];
      NextDay(currentDate, start, i);
    }
    return Ok(daysInfo);
  }

  /** `currentDate.setDate(currentDate.getDate() + 1)`: pass `i + 1` starts a day later. */
  method NextDay(currentDate: DateObject, ghost start: Moment, ghost i: nat)
    requires currentDate.moment == DayAfter(start, i)
    modifies currentDate
    ensures currentDate.moment == DayAfter(start, i + 1)
  {
    currentDate.SetDate(DateOf(currentDate.moment) + 1);
  }

  /** The record of pass `i` either ends the week with its failure or joins the records so far. */
  lemma RecordCollected(l: Listing, start: Moment, i: nat, m: Moment, daysInfo: seq<Value>, record: Result<Value>)
    requires i < 7 && m == DayAfter(start, i) && record == Entry(l, i, m)
    requires Collect(EntryAt(l, start), i) == Ok(daysInfo)
    ensures record.Err? ==> Collect(EntryAt(l, start), 7) == Err(record.failure)
    ensures record.Ok? ==> Collect(EntryAt(l, start), i + 1) == Ok(daysInfo + [record.value])
  {
    var entry := EntryAt(l, start);
    assert record == entry(i);
    if record.Err? {
      CollectFails(entry, i, 7);
    } else {
      CollectAppend(entry, i, record.value);
    }
  }

  /** `i` passes move a valid date `i` days on, at the same time of day. */
  lemma {:induction false} DayAfterDays(m: Moment, i: nat)
    ensures DayAfter(m, i).At? ==>
      m.At? && DayOf(DayAfter(m, i).t) == DayOf(m.t) + i && TimeOfDay(DayAfter(m, i).t) == TimeOfDay(m.t)
  {
    if i > 0 {
      DayAfterDays(m, i - 1);
    }
  }

  /** Record `k` of a listing of `n` passes is the entry of pass `k`. */
  lemma ListedEntry(l: Listing, start: Moment, n: nat, k: nat)
    requires Collect(EntryAt(l, start), n).Ok? && k < n
    ensures Entry(l, k, DayAfter(start, k)) == Ok(Collect(EntryAt(l, start), n).value[k])
  {
    assert EntryAt(l, start)(k) == Entry(l, k, DayAfter(start, k));
  }

  /** A pass that does not throw lists a valid date, which is `k` days and weekdays on from the start. */
  lemma ListedDate(l: Listing, start: Moment, k: nat)
    requires Entry(l, k, DayAfter(start, k)).Ok?
    ensures start.At? && DayAfter(start, k).At?
    ensures DayOf(DayAfter(start, k).t) == DayOf(start.t) + k
    ensures Weekday(DayAfter(start, k).t) == (Weekday(start.t) + k) % 7
  {
    DayAfterDays(start, k);
    WeekdayOn(start.t, DayAfter(start, k).t, k);
  }

  /**
   * A pass that does not throw records its pass number, the weekday name
   * of its date (or "今天" first, on request) and the date formatted with
   * the format option.
   */
  lemma EntryRecord(l: Listing, k: nat, m: Moment)
    requires Entry(l, k, m).Ok?
    ensures m.At? && FormatWith(m, l.format).Ok?
    ensures Entry(l, k, m).value == Obj(l.base + k, [
      Field("weekday", if k == 0 && l.changeFirst then Str(TodayLabel) else Get(l.weekdays, NatToString(Weekday(m.t)))),
      Field("date", Str(FormatWith(m, l.format).value))])
  {
  }

  /** The weekday `k` days on is `k` weekdays on, modulo the week. */
  lemma WeekdayOn(a: Instant, b: Instant, k: nat)
    requires DayOf(b) == DayOf(a) + k
    ensures Weekday(b) == (Weekday(a) + k) % 7
  {
    WeekShift(DayOf(a), DayOf(b), k);
  }

  /** Counting `k` days on moves the day of the week `k` places round. */
  lemma WeekShift(x: int, y: int, k: nat)
    requires y == x + k
    ensures (y + 4) % 7 == ((x + 4) % 7 + k) % 7
  {
    var z := x + 4;
    assert z == 7 * (z / 7) + z % 7;
    assert y + 4 == 7 * (z / 7) + (z % 7 + k);
  }
}
