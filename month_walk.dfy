/**
 * What the month/year walk of `calculateMonthsYearsDifference` computes.
 * From the first of a month the cursor visits the first of every later
 * month, so the walk counts whole months and calendar years; from other
 * days the cursor can stop moving and the walk never ends.
 */
module MonthWalk {
  import opened Wrappers
  import opened Calendar
  import opened Dates

  /** Months since January of year 0. */
  function MonthIndex(t: Instant): int
  {
    t.year * 12 + t.month
  }

  /** The first of the month with index `mi`, at the time of day of `t`. */
  function FirstOf(mi: int, t: Instant): (f: Instant)
    ensures MonthIndex(f) == mi && f.day == 1 && TimeOfDay(f) == TimeOfDay(t)
  {
    t.(year := mi / 12, month := mi % 12, day := 1)
  }

  /**
   * The month index of the first first-of-month, at the time of day of `t`,
   * that lies after `end`: the month after `end`'s, or `end`'s own month
   * when `end` is on its first day but earlier in the day than `t`.
   */
  function LastIndex(t: Instant, end: Instant): int
  {
    if end.day == 1 && TimeOfDay(end) < TimeOfDay(t) then MonthIndex(end) else MonthIndex(end) + 1
  }

  lemma FirstOfSelf(t: Instant)
    requires t.day == 1
    ensures FirstOf(MonthIndex(t), t) == t
  {
    assert (t.year * 12 + t.month) / 12 == t.year;
    assert (t.year * 12 + t.month) % 12 == t.month;
  }

  /** The first of the next month is as many days on as this month has. */
  lemma NextFirstDay(t: Instant)
    ensures DayOf(FirstOf(MonthIndex(t) + 1, t)) == DayNumber(t.year, t.month, 1) + DaysInMonth(t.year, t.month)
  {
    var f := FirstOf(MonthIndex(t) + 1, t);
    if t.month == 11 {
      assert f.year == t.year + 1 && f.month == 0 by {
        assert MonthIndex(t) + 1 == (t.year + 1) * 12;
      }
    } else {
      assert f.year == t.year && f.month == t.month + 1 by {
        assert MonthIndex(t) + 1 == t.year * 12 + (t.month + 1);
      }
    }
    NextMonth(t.year, t.month, 1 + DaysInMonth(t.year, t.month));
  }

  /** A first-of-month is not after `end` exactly when its index is below `LastIndex`. */
  lemma FirstNotAfter(mi: int, t: Instant, end: Instant)
    ensures TimeValue(FirstOf(mi, t)) <= TimeValue(end) <==> mi < LastIndex(t, end)
  {
    var f := FirstOf(mi, t);
    var a := CalendarDay(f.year, f.month, f.day);
    var b := CalendarDay(end.year, end.month, end.day);
    DayNumberOrder(a, b);
    DayNumberOrder(b, a);
    if DayOf(f) == DayOf(end) {
      DayNumberInjective(a, b);
    }
  }

  /** Later time values never have an earlier month index. */
  lemma MonthIndexOrder(a: Instant, b: Instant)
    requires TimeValue(a) <= TimeValue(b)
    ensures MonthIndex(a) <= MonthIndex(b)
  {
    var x := CalendarDay(a.year, a.month, a.day);
    var y := CalendarDay(b.year, b.month, b.day);
    DayNumberOrder(y, x);
  }

  /** `setMonth(getMonth() + 1)` on the first of a month gives the first of the next month. */
  lemma MonthOnFromFirst(t: Instant)
    requires t.day == 1
    requires -MaxTime <= TimeValue(t) && TimeValue(t) + 31 * MsPerDay <= MaxTime
    ensures WithMonth(At(t), t.month + 1) == At(FirstOf(MonthIndex(t) + 1, t))
  {
    var f := FirstOf(MonthIndex(t) + 1, t);
    NextFirstDay(t);
    assert TimeValue(f) == TimeValue(t) + DaysInMonth(t.year, t.month) * MsPerDay;
    assert Clip(f) == At(f);
    var mo := t.month + 1;
    assert t.year + mo / 12 == f.year && mo % 12 == f.month by {
      if t.month == 11 {
        assert MonthIndex(t) + 1 == (t.year + 1) * 12;
      } else {
        assert MonthIndex(t) + 1 == t.year * 12 + mo;
      }
    }
    assert Roll(f.year, f.month, 1) == CalendarDay(f.year, f.month, 1);
    assert t.(year := f.year, month := f.month, day := 1) == f;
  }

  /** From the first of a month, one pass lands on the first of the next month and counts a year on entering January. */
  lemma StepFirst(t: Instant, leap: int -> bool)
    requires t.day == 1
    requires -MaxTime <= TimeValue(t) && TimeValue(t) + 31 * MsPerDay <= MaxTime
    ensures Step(At(t), leap) == Pass(At(FirstOf(MonthIndex(t) + 1, t)), t.month == 11)
  {
    var f := FirstOf(MonthIndex(t) + 1, t);
    MonthOnFromFirst(t);
    assert MonthOf(At(t)) + 1 == t.month + 1;
    assert WithMonth(At(t), MonthOf(At(t)) + 1) == At(f);
    assert f.month == 0 <==> t.month == 11;
  }

  /** The same, for a pass given as a function value. */
  lemma NextFromFirst(t: Instant, next: Moment -> Pass, leap: int -> bool)
    requires StepsBy(next, leap)
    requires t.day == 1
    requires -MaxTime <= TimeValue(t) && TimeValue(t) + 31 * MsPerDay <= MaxTime
    ensures next(At(t)) == Pass(At(FirstOf(MonthIndex(t) + 1, t)), t.month == 11)
  {
    StepFirst(t, leap);
  }

  /** How many `i` with `a <= i < b` satisfy `p`. */
  function Count(p: int -> bool, a: int, b: int): nat
    decreases b - a
  {
    if b <= a then 0 else (if p(a) then 1 else 0) + Count(p, a + 1, b)
  }

  /**
   * The walk along cursors `cursor(k)`, ..., `cursor(stop)` that each pass
   * moves one on: it ends at `cursor(stop)`, the first after `end`, having
   * counted one month per pass and one year per pass that `newYear` marks.
   */
  lemma {:induction false} RunAlong(cursor: int -> Moment, newYear: int -> bool, w: Walk, k: int, stop: int, go: Moment -> bool, next: Moment -> Pass, fuel: nat)
    requires k <= stop && w.cursor == cursor(k)
    requires forall i :: k <= i < stop ==> go(cursor(i)) && next(cursor(i)) == Pass(cursor(i + 1), newYear(i))
    requires !go(cursor(stop))
    requires fuel >= stop - k
    ensures Run(w, go, next, fuel) == Some(Walk(cursor(stop), w.months + (stop - k), w.years + Count(newYear, k, stop)))
    decreases stop - k
  {
    if k == stop {
      RunDone(w, go, next, fuel);
    } else {
      assert go(cursor(k)) && next(cursor(k)) == Pass(cursor(k + 1), newYear(k));
      var w' := Walk(cursor(k + 1), w.months + 1, if newYear(k) then w.years + 1 else w.years);
      RunStep(w, w', go, next, fuel);
      RunAlong(cursor, newYear, w', k + 1, stop, go, next, fuel - 1);
      assert Count(newYear, k, stop) == (if newYear(k) then 1 else 0) + Count(newYear, k + 1, stop);
    }
  }

  /** Whether month index `i` is a December. */
  predicate IsDecember(i: int)
  {
    i % 12 == 11
  }

  /** Between month indices `a` and `b`, the Decembers counted are the years crossed. */
  lemma {:induction false} Decembers(a: int, b: int)
    requires a <= b
    ensures Count(IsDecember, a, b) == b / 12 - a / 12
    decreases b - a
  {
    if a < b {
      Decembers(a + 1, b);
      assert (a + 1) / 12 - a / 12 == (if a % 12 == 11 then 1 else 0);
    }
  }

  /**
   * Every first-of-month from the start up to `end` is not after `end`, and
   * one pass moves it to the next first-of-month, counting a year from December.
   */
  lemma AlongFirsts(i: int, start: Instant, end: Instant, next: Moment -> Pass, leap: int -> bool)
    requires StepsBy(next, leap)
    requires start.day == 1
    requires -MaxTime <= TimeValue(start) && TimeValue(end) + 31 * MsPerDay <= MaxTime
    requires MonthIndex(start) <= i < LastIndex(start, end)
    ensures NotAfter(At(FirstOf(i, start)), At(end))
    ensures next(At(FirstOf(i, start))) == Pass(At(FirstOf(i + 1, start)), IsDecember(i))
  {
    var g := FirstOf(i, start);
    FirstNotAfter(i, start, end);
    if i == MonthIndex(start) {
      FirstOfSelf(start);
    } else {
      FirstNotAfter(i, start, start);
    }
    NextFromFirst(g, next, leap);
    assert FirstOf(i + 1, g) == FirstOf(i + 1, start);
  }

  /** The firsts of the months, by month index, at the time of day of `start`. */
  function Firsts(start: Instant): int -> Moment
  {
    i => At(FirstOf(i, start))
  }

  /**
   * The firsts of the months from the start's up to `LastIndex` are a walk
   * that starts at `start` and stops at `LastIndex`.
   */
  lemma AllAlongFirsts(start: Instant, end: Instant, next: Moment -> Pass, leap: int -> bool)
    requires StepsBy(next, leap)
    requires start.day == 1
    requires -MaxTime <= TimeValue(start) <= TimeValue(end) && TimeValue(end) + 31 * MsPerDay <= MaxTime
    ensures MonthIndex(start) < LastIndex(start, end)
    ensures Firsts(start)(MonthIndex(start)) == At(start)
    ensures !Until(At(end))(Firsts(start)(LastIndex(start, end)))
    ensures var cursor, go := Firsts(start), Until(At(end));
      forall i :: MonthIndex(start) <= i < LastIndex(start, end) ==>
        go(cursor(i)) && next(cursor(i)) == Pass(cursor(i + 1), IsDecember(i))
  {
    var cursor, go := Firsts(start), Until(At(end));
    FirstOfSelf(start);
    FirstNotAfter(MonthIndex(start), start, end);
    FirstNotAfter(LastIndex(start, end), start, end);
    forall i | MonthIndex(start) <= i < LastIndex(start, end)
      ensures go(cursor(i)) && next(cursor(i)) == Pass(cursor(i + 1), IsDecember(i))
    {
      AlongFirsts(i, start, end, next, leap);
    }
  }

  /**
   * From the first of a month, the walk ends on the first first-of-month
   * after `end`, having counted every month and every December passed.
   */
  lemma WalkFromFirst(start: Instant, end: Instant, next: Moment -> Pass, leap: int -> bool, fuel: nat)
    requires StepsBy(next, leap)
    requires start.day == 1
    requires -MaxTime <= TimeValue(start) <= TimeValue(end) && TimeValue(end) + 31 * MsPerDay <= MaxTime
    requires fuel > MonthIndex(end) - MonthIndex(start)
    ensures var a, l := MonthIndex(start), LastIndex(start, end);
      Run(Walk(At(start), 0, 0), Until(At(end)), next, fuel)
      == Some(Walk(Firsts(start)(l), l - a, Count(IsDecember, a, l)))
  {
    var a, l := MonthIndex(start), LastIndex(start, end);
    AllAlongFirsts(start, end, next, leap);
    RunAlong(Firsts(start), IsDecember, Walk(At(start), 0, 0), a, l, Until(At(end)), next, fuel);
  }

  /** Settling a walk stopped on the first after `end`: one month off, and the year back to `end`'s. */
  lemma SettleOnFirst(start: Instant, end: Instant)
    requires start.day == 1
    ensures var a, l := MonthIndex(start), LastIndex(start, end);
      Settle(Walk(At(FirstOf(l, start)), l - a, l / 12 - a / 12), At(end))
      == Span(MonthIndex(end) - a - (if end.day == 1 && TimeOfDay(end) < TimeOfDay(start) then 1 else 0), end.year - start.year)
  {
    var l := LastIndex(start, end);
    var f := FirstOf(l, start);
    FirstOfSelf(start);
    FirstNotAfter(l, start, end);
    if l == MonthIndex(end) {
      assert f.year == end.year;
    } else {
      assert f.year == (if end.month == 11 then end.year + 1 else end.year) by {
        if end.month == 11 {
          assert l == (end.year + 1) * 12;
        } else {
          assert l == end.year * 12 + (end.month + 1);
        }
      }
    }
    assert l / 12 == f.year;
  }

  /**
   * From the first of a month up to a later `end`, the months are the
   * first-of-months passed after the start (whole months, counting a first
   * earlier in the day than the start as not yet reached) and the years are
   * the difference of the calendar years.
   */
  lemma MonthsFromFirst(start: Instant, end: Instant, next: Moment -> Pass, leap: int -> bool, fuel: nat)
    requires StepsBy(next, leap)
    requires start.day == 1
    requires -MaxTime <= TimeValue(start) <= TimeValue(end) && TimeValue(end) + 31 * MsPerDay <= MaxTime
    requires fuel > MonthIndex(end) - MonthIndex(start)
    ensures MonthsYears(At(start), At(end), next, fuel)
      == Some(Span(MonthIndex(end) - MonthIndex(start) - (if end.day == 1 && TimeOfDay(end) < TimeOfDay(start) then 1 else 0), end.year - start.year))
  {
    var a, l := MonthIndex(start), LastIndex(start, end);
    WalkFromFirst(start, end, next, leap, fuel);
    assert Firsts(start)(l) == At(FirstOf(l, start));
    AllAlongFirsts(start, end, next, leap);
    Decembers(a, l);
    SettleOnFirst(start, end);
  }

  /** An end before the start: no pass, a month taken off, and a year too when the years differ. */
  lemma EndBeforeStart(start: Instant, end: Instant, next: Moment -> Pass, fuel: nat)
    requires TimeValue(end) < TimeValue(start)
    ensures MonthsYears(At(start), At(end), next, fuel) == Some(Span(-1, if start.year != end.year then -1 else 0))
  {
    RunDone(Walk(At(start), 0, 0), Until(At(end)), next, fuel);
  }

  /** An invalid date on either side: no pass and no correction. */
  lemma InvalidDates(start: Moment, end: Moment, next: Moment -> Pass, fuel: nat)
    requires start.Invalid? || end.Invalid?
    ensures MonthsYears(start, end, next, fuel) == Some(Span(0, 0))
  {
    RunDone(Walk(start, 0, 0), Until(end), next, fuel);
  }

  /** A cursor that a pass leaves in place, while the loop condition holds, keeps the loop running for ever. */
  lemma {:induction false} RunStalls(w: Walk, go: Moment -> bool, next: Moment -> Pass, fuel: nat)
    requires go(w.cursor) && next(w.cursor).cursor == w.cursor
    ensures Run(w, go, next, fuel) == None
    decreases fuel
  {
    if fuel > 0 {
      RunStalls(Advance(w, next), go, next, fuel - 1);
    }
  }

  /** The year of the month after `t`'s. */
  function FollowingYear(t: Instant): int
  {
    if t.month == 11 then t.year + 1 else t.year
  }

  /** The month after `t`'s. */
  function FollowingMonth(t: Instant): (m: int)
    ensures 0 <= m < 12
  {
    if t.month == 11 then 0 else t.month + 1
  }

  /** Whether the month after `t`'s has a day `t.day`. */
  predicate FitsNextMonth(t: Instant)
  {
    t.day <= DaysInMonth(FollowingYear(t), FollowingMonth(t))
  }

  /** The last day of `t`'s month, at `t`'s time of day. */
  function LastOf(t: Instant): (l: Instant)
    ensures l.year == t.year && l.month == t.month && TimeOfDay(l) == TimeOfDay(t)
  {
    t.(day := DaysInMonth(t.year, t.month))
  }

  /** `t` and the dates up to two months on all have time values. */
  predicate Roomy(t: Instant)
  {
    -MaxTime <= TimeValue(t) && TimeValue(t) + 62 * MsPerDay <= MaxTime
  }

  /** `setMonth(getMonth() + 1)` on a day that the next month has: the same day of the next month. */
  lemma SameDayNextMonth(t: Instant)
    requires FitsNextMonth(t) && Roomy(t)
    ensures WithMonth(At(t), t.month + 1) == At(t.(year := FollowingYear(t), month := FollowingMonth(t)))
  {
    var u := t.(year := FollowingYear(t), month := FollowingMonth(t));
    assert t.year + (t.month + 1) / 12 == u.year && (t.month + 1) % 12 == u.month;
    assert Roll(u.year, u.month, t.day) == CalendarDay(u.year, u.month, t.day);
    NextMonth(t.year, t.month, t.day + DaysInMonth(t.year, t.month));
    assert DayOf(u) == DayOf(t) + DaysInMonth(t.year, t.month);
    assert Clip(u) == At(u);
  }

  /** `setDate(0)` on a day `u` of the month after `t`'s: the last day of `t`'s month. */
  lemma BackToMonthEnd(t: Instant, u: Instant)
    requires u.year == FollowingYear(t) && u.month == FollowingMonth(t) && TimeOfDay(u) == TimeOfDay(t)
    requires -MaxTime <= TimeValue(t) && TimeValue(u) <= MaxTime
    ensures WithDate(At(u), 0) == At(LastOf(t))
  {
    var l := LastOf(t);
    DayZero(t, u.year, u.month);
    LastOfBetween(t, u);
    assert Clip(l) == At(l);
    assert u.(year := t.year, month := t.month, day := l.day) == l;
  }

  /** The last day of `t`'s month lies from `t` on and before any day of the next month. */
  lemma LastOfBetween(t: Instant, u: Instant)
    requires u.year == FollowingYear(t) && u.month == FollowingMonth(t) && TimeOfDay(u) == TimeOfDay(t)
    ensures TimeValue(t) <= TimeValue(LastOf(t)) < TimeValue(u)
  {
    PreviousMonth(u.year, u.month, 0);
    assert DayOf(LastOf(t)) == DayOf(u) - u.day;
    assert DayOf(t) <= DayOf(LastOf(t));
  }

  /** Day 0 of the month after `t`'s rolls back to the last day of `t`'s month. */
  lemma DayZero(t: Instant, y: int, m: int)
    requires y == FollowingYear(t) && m == FollowingMonth(t)
    ensures Roll(y, m, 0) == CalendarDay(t.year, t.month, DaysInMonth(t.year, t.month))
  {
    assert Roll(t.year, t.month, DaysInMonth(t.year, t.month)) == CalendarDay(t.year, t.month, DaysInMonth(t.year, t.month));
  }

  /** Past February 29, a pass from day 2 on of a month, when the next month has that day, lands on the month's last day. */
  lemma MoveOnToMonthEnd(t: Instant)
    requires 1 < t.day && FitsNextMonth(t) && Roomy(t)
    ensures MoveOn(At(t)).cursor == At(LastOf(t))
  {
    var u := t.(year := FollowingYear(t), month := FollowingMonth(t));
    SameDayNextMonth(t);
    assert MonthOf(At(t)) + 1 == t.month + 1;
    BackToMonthEnd(t, u);
  }

  /** `setDate(28)` on February 29 is the day before. */
  lemma LeapDayBack(t: Instant)
    requires t.month == 1 && t.day == 29 && -MaxTime + MsPerDay <= TimeValue(t) <= MaxTime
    ensures WithDate(At(t), 28) == At(t.(day := 28))
  {
    var e := t.(day := 28);
    assert Roll(t.year, 1, 28) == CalendarDay(t.year, 1, 28);
    assert DayOf(e) == DayOf(t) - 1;
    assert Clip(e) == At(e);
  }

  /**
   * One pass from day 2 on of a month, when the next month has that day,
   * lands on the last day of the month: `setMonth` keeps the day, and
   * since it is not the 1st, `setDate(0)` goes back to the month's end.
   */
  lemma StepToMonthEnd(t: Instant, leap: int -> bool)
    requires 1 < t.day && FitsNextMonth(t) && Roomy(t) && -MaxTime + MsPerDay <= TimeValue(t)
    ensures Step(At(t), leap).cursor == At(LastOf(t))
  {
    if t.month == 1 && leap(t.year) && t.day == 29 {
      var e := t.(day := 28);
      LeapDayBack(t);
      MoveOnToMonthEnd(e);
      assert LastOf(e) == LastOf(t);
    } else {
      MoveOnToMonthEnd(t);
    }
  }

  /** So a pass leaves the last day of a month in place when the next month is at least as long. */
  lemma MonthEndFixed(t: Instant, leap: int -> bool)
    requires t.day == DaysInMonth(t.year, t.month) && FitsNextMonth(t) && Roomy(t) && -MaxTime + MsPerDay <= TimeValue(t)
    ensures Step(At(t), leap).cursor == At(t)
  {
    StepToMonthEnd(t, leap);
    assert LastOf(t) == t;
  }

  /** A cursor whose next pass leaves the cursor in place, while the loop condition holds of both, keeps the loop running for ever. */
  lemma RunStallsNext(w: Walk, go: Moment -> bool, next: Moment -> Pass, fuel: nat)
    requires go(w.cursor) && go(next(w.cursor).cursor)
    requires next(next(w.cursor).cursor).cursor == next(w.cursor).cursor
    ensures Run(w, go, next, fuel) == None
  {
    if fuel > 0 {
      RunStalls(Advance(w, next), go, next, fuel - 1);
    }
  }

  /** A date is not after the last day of its month. */
  lemma LastOfNotBefore(t: Instant)
    ensures TimeValue(t) <= TimeValue(LastOf(t))
  {
    assert DayOf(t) <= DayOf(LastOf(t));
  }

  /** A walk from a last day of a month followed by one at least as long, to a date not before it, never ends. */
  lemma MonthEndStalls(t: Instant, end: Instant, next: Moment -> Pass, leap: int -> bool, fuel: nat)
    requires StepsBy(next, leap)
    requires t.day == DaysInMonth(t.year, t.month) && FitsNextMonth(t)
    requires -MaxTime + MsPerDay <= TimeValue(t) <= TimeValue(end) && TimeValue(end) + 62 * MsPerDay <= MaxTime
    ensures MonthsYears(At(t), At(end), next, fuel) == None
  {
    MonthEndFixed(t, leap);
    assert next(At(t)) == Step(At(t), leap);
    RunStalls(Walk(At(t), 0, 0), Until(At(end)), next, fuel);
  }

  /**
   * From day 2 to 28 of a month followed by one at least as long (February,
   * April, June, July, September, November, December), the first pass lands
   * on the month's last day and stays there, so with an end not before that
   * day the walk never ends.
   */
  lemma MidMonthStalls(t: Instant, end: Instant, next: Moment -> Pass, leap: int -> bool, fuel: nat)
    requires StepsBy(next, leap)
    requires 1 < t.day <= 28 && FitsNextMonth(LastOf(t))
    requires -MaxTime + MsPerDay <= TimeValue(t) && TimeValue(LastOf(t)) <= TimeValue(end) && TimeValue(end) + 62 * MsPerDay <= MaxTime
    ensures MonthsYears(At(t), At(end), next, fuel) == None
  {
    var l := LastOf(t);
    LastOfNotBefore(t);
    StepToMonthEnd(t, leap);
    MonthEndFixed(l, leap);
    assert next(At(t)) == Step(At(t), leap);
    assert next(At(l)) == Step(At(l), leap);
    RunStallsNext(Walk(At(t), 0, 0), Until(At(end)), next, fuel);
  }

  /** On January 31, `setMonth(1)` overflows February into March 2 or 3. */
  lemma JanuaryEndOverflows(t: Instant)
    requires t.month == 0 && t.day == 31 && Roomy(t)
    ensures var u := t.(month := 2, day := 31 - DaysInMonth(t.year, 1));
      WithMonth(At(t), 1) == At(u) && TimeValue(u) <= TimeValue(t) + 31 * MsPerDay
  {
    var f := DaysInMonth(t.year, 1);
    var u := t.(month := 2, day := 31 - f);
    NextMonth(t.year, 1, 31);
    assert Roll(t.year, 2, 31 - f) == CalendarDay(t.year, 2, 31 - f);
    assert Roll(t.year, 1, 31) == CalendarDay(t.year, 2, 31 - f);
    assert DayOf(u) <= DayOf(t) + 31;
    assert Clip(u) == At(u);
  }

  /** So a pass from January 31 lands on February's last day: `setDate(0)` goes back from March 2 or 3. */
  lemma JanuaryEndStep(t: Instant, leap: int -> bool)
    requires t.month == 0 && t.day == 31 && Roomy(t)
    ensures Step(At(t), leap).cursor == At(t.(month := 1, day := DaysInMonth(t.year, 1)))
  {
    var u := t.(month := 2, day := 31 - DaysInMonth(t.year, 1));
    JanuaryEndOverflows(t);
    assert MonthOf(At(t)) + 1 == 1;
    BackToMonthEnd(t.(month := 1, day := 1), u);
  }

  /** February's last day comes 28 or 29 days after January 31. */
  lemma FebruaryEndAfter(t: Instant)
    requires t.month == 0 && t.day == 31
    ensures TimeValue(t.(month := 1, day := DaysInMonth(t.year, 1))) == TimeValue(t) + DaysInMonth(t.year, 1) * MsPerDay
  {
    DaysBeforeMonthNext(t.year, 0);
  }

  /** The cursors of the first passes from January 2 to 28: January 31, then February's last day, which stays. */
  lemma JanuaryPasses(t: Instant, leap: int -> bool)
    requires t.month == 0 && 1 < t.day <= 28
    requires -MaxTime + MsPerDay <= TimeValue(t)
    requires TimeValue(t.(month := 1, day := DaysInMonth(t.year, 1))) + 62 * MsPerDay <= MaxTime
    ensures var j, f := LastOf(t), t.(month := 1, day := DaysInMonth(t.year, 1));
      && TimeValue(t) <= TimeValue(j) <= TimeValue(f)
      && Step(At(t), leap).cursor == At(j) && Step(At(j), leap).cursor == At(f) && Step(At(f), leap).cursor == At(f)
  {
    var j := LastOf(t);
    var f := t.(month := 1, day := DaysInMonth(t.year, 1));
    LastOfNotBefore(t);
    FebruaryEndAfter(j);
    assert j.(month := 1, day := DaysInMonth(t.year, 1)) == f;
    StepToMonthEnd(t, leap);
    JanuaryEndStep(j, leap);
    MonthEndFixed(f, leap);
  }

  /**
   * From January 2 to 28, a walk to an end not before February's last day
   * never ends: the first pass lands on January 31, the second on
   * February's last day, and there it stays.
   */
  lemma JanuaryStalls(t: Instant, end: Instant, next: Moment -> Pass, leap: int -> bool, fuel: nat)
    requires StepsBy(next, leap)
    requires t.month == 0 && 1 < t.day <= 28
    requires -MaxTime + MsPerDay <= TimeValue(t)
    requires TimeValue(t.(month := 1, day := DaysInMonth(t.year, 1))) <= TimeValue(end) && TimeValue(end) + 62 * MsPerDay <= MaxTime
    ensures MonthsYears(At(t), At(end), next, fuel) == None
  {
    var j := LastOf(t);
    var f := t.(month := 1, day := DaysInMonth(t.year, 1));
    JanuaryPasses(t, leap);
    assert next(At(t)) == Step(At(t), leap);
    assert next(At(j)) == Step(At(j), leap);
    assert next(At(f)) == Step(At(f), leap);
    var w := Walk(At(t), 0, 0);
    if fuel > 0 {
      RunStallsNext(Advance(w, next), Until(At(end)), next, fuel - 1);
    }
  }

  // -----------------------------------------------------------------------
  // The whole months the walk means to count

  /** `t` moved `k` months on, its day cut back to the length of the month reached. */
  function MonthsLater(t: Instant, k: int): (u: Instant)
    ensures MonthIndex(u) == MonthIndex(t) + k && TimeOfDay(u) == TimeOfDay(t)
    ensures u.day == if t.day <= DaysInMonth(u.year, u.month) then t.day else DaysInMonth(u.year, u.month)
  {
    var f := FirstOf(MonthIndex(t) + k, t);
    var n := DaysInMonth(f.year, f.month);
    f.(day := if t.day <= n then t.day else n)
  }

  /**
   * The whole months from `start` to `end`: `end`'s month index less the
   * start's, less one when the start moved into `end`'s month lies after `end`.
   */
  function WholeMonths(start: Instant, end: Instant): int
  {
    var d := MonthIndex(end) - MonthIndex(start);
    if TimeValue(MonthsLater(start, d)) <= TimeValue(end) then d else d - 1
  }

  /** A later month index means a later time value. */
  lemma LaterMonthLaterTime(a: Instant, b: Instant)
    requires MonthIndex(a) < MonthIndex(b)
    ensures TimeValue(a) < TimeValue(b)
  {
    if TimeValue(b) <= TimeValue(a) {
      MonthIndexOrder(b, a);
    }
  }

  /** Zero months on is the start itself. */
  lemma NoMonthsLater(t: Instant)
    ensures MonthsLater(t, 0) == t
  {
    FirstOfSelf(t.(day := 1));
  }

  /**
   * For every start, not only a first, up to a later `end`: `WholeMonths`
   * is the number of months the start can be moved on without passing
   * `end`; one more month passes it.
   */
  lemma WholeMonthsBracket(start: Instant, end: Instant)
    requires TimeValue(start) <= TimeValue(end)
    ensures var m := WholeMonths(start, end);
      0 <= m && TimeValue(MonthsLater(start, m)) <= TimeValue(end) < TimeValue(MonthsLater(start, m + 1))
  {
    var d := MonthIndex(end) - MonthIndex(start);
    MonthIndexOrder(start, end);
    if TimeValue(MonthsLater(start, d)) <= TimeValue(end) {
      LaterMonthLaterTime(end, MonthsLater(start, d + 1));
      assert WholeMonths(start, end) == d;
    } else {
      OvershootNotFirst(start, end, d);
      LaterMonthLaterTime(MonthsLater(start, d - 1), end);
      assert WholeMonths(start, end) == d - 1;
    }
  }

  /** When the start moved into `end`'s month passes `end`, that month is not the start's own. */
  lemma OvershootNotFirst(start: Instant, end: Instant, d: int)
    requires TimeValue(start) <= TimeValue(end) < TimeValue(MonthsLater(start, d))
    ensures d != 0
  {
    NoMonthsLater(start);
  }

  /** From a first, where the walk ends, it counts these whole months. */
  lemma WholeMonthsFromFirst(start: Instant, end: Instant)
    requires start.day == 1
    ensures WholeMonths(start, end) == MonthIndex(end) - MonthIndex(start) - (if end.day == 1 && TimeOfDay(end) < TimeOfDay(start) then 1 else 0)
  {
    var d := MonthIndex(end) - MonthIndex(start);
    assert MonthsLater(start, d) == FirstOf(MonthIndex(end), start);
    FirstNotAfter(MonthIndex(end), start, end);
  }

  /** The same-day case: from the first of a month to itself, no month and no year. */
  lemma SameFirst(start: Instant, next: Moment -> Pass, leap: int -> bool, fuel: nat)
    requires StepsBy(next, leap)
    requires start.day == 1 && -MaxTime <= TimeValue(start) && TimeValue(start) + 31 * MsPerDay <= MaxTime
    requires fuel > 0
    ensures MonthsYears(At(start), At(start), next, fuel) == Some(Span(0, 0))
  {
    MonthsFromFirst(start, start, next, leap, fuel);
  }
}
