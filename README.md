# vixtool utilities, modelled in Dafny

This project models the core of vixtool, a JavaScript library of small
utilities, and proves properties of the model. The core covers:

- the date helpers: token formatting, 12-hour and AM/PM text, date
  differences in fixed and calendar units, parsing, leap years, the
  month-by-month walk of `calculateMonthsYearsDifference`, dates n days
  before or after, year ranges and seven-day tables;
- the array helpers: sorting by a property, grouping and nesting,
  de-duplication and filtering;
- the number helpers: English words, Chinese upper-case numerals,
  thousands separators and Roman numerals both ways;
- the string case converters;
- the type helpers `deepCompare`, `isObject`, `isArray`, `isNaN` and `type`;
- `shallowClone` and `deepClone`;
- the random helpers.

The files `src/date.js` and `src/array.js` are older copies of the date
and array helpers. They are modelled on their own, in `DatesLegacy` and
`ArraysLegacy`, with lemmas that say where they agree with the newer
files and where they differ.

## How the model reads JavaScript

- **Values.** A JavaScript value is the datatype `Values.Value`:
  - `undefined`, `null`, booleans, integers, `NaN` and strings;
  - arrays, plain objects, dates, regular expressions and functions.
  `deepClone` works on a heap of objects (`Objects.Heap`), where `Set`s
  and `Map`s appear as well.
  Every object carries an identity, so `===` on objects compares
  references. Object fields are an ordered list of key/value pairs, kept
  in the order they were first added. ECMAScript lists integer-like keys
  first, in ascending order; the model does not (see "Left out").
- **Strings.** A string is a sequence of characters, one per code point,
  not of UTF-16 code units.
- **Numbers.** Numbers are unbounded integers plus `NaN`.
- **Dates.** A date is an instant in the proleptic Gregorian calendar, or
  the invalid date. Its time value is clipped to 8.64e15 ms either way,
  as `TimeClip` does. Local time is taken to be UTC.
- **Oracles.** Three things the code reads from the environment become
  parameters:
  - the string parser behind `new Date(string)` is a parameter `parse`;
  - the clock is a parameter `now`, or the current year `currentYear`;
  - `Math.random()` is a parameter `rand`, and the k-th draw scaled to
    n outcomes is `rand(k) % n`.
- **Loops that need not end.** A loop whose end the source does not
  guarantee takes a `fuel` bound and gives `None` when the fuel runs out.
  `calculateMonthsYearsDifference` is one of them. A pass moves the
  cursor one month on and then, unless it is on a 1st, back to the end
  of the previous month with `setDate(0)`. From a day after the 1st of a month whose last day the
  next month also has, that lands on the last day of the month, and from
  there every pass comes back to it. With an end date not before that
  day the walk never ends: `MonthWalk.MidMonthStalls`,
  `MonthWalk.MonthEndStalls` and `MonthWalk.JanuaryStalls` prove this.
  `MonthWalk.WholeMonthsBracket` states the count of whole months the
  loop evidently means (see "Findings").
- **State.** State that the code changes in place is modelled as classes:
  - the cursor date of the month walk (`Calendar.DateObject`);
  - the heap of objects that `deepClone` fills (`Objects.Heap`);
  - the arrays sorted in place (`Arrays.SortWith`).
  Each loop is a `method` proved against a function that specifies it.

## Model

A function that models a source function and only computes its value
carries no `ensures` of its own; the lemmas and methods about it carry
the contract. For example `Utils.DeepCompare` is described by
`Utils.DeepCompareStrict` and the `DeepCompare*` lemmas,
`Strings.HyphenatedToLowerCamelCase` by
`Strings.HyphenatedToLowerCamelCaseShape`, `Strings.HyphenatedToLowerCamelCasePieces` and
`Strings.CamelCaseRoundTrip`,
`Numbers.ChineseUpperCase` by `Numbers.ChineseZerosCleaned`,
`Dates.IsLeapYear` by `Dates.LeapYearsHaveFebruary29`,
`DateRanges.YearRange` by `DateRanges.GetYearRange`,
`Arrays.Unique` by `Arrays.UniqueIsFirsts` and `Random.GetRandomUuid` by
`Random.UuidLayout`.

| member | source | states |
|---|---|---|
| Text.Lower | src/string/index.js:69 | `toLowerCase()` keeps the length and lowers each character |
| Text.Upper | src/string/index.js:73 | `toUpperCase()` keeps the length and raises each character |
| Text.LowerAppend | src/string/index.js:58 | lowering distributes over concatenation |
| Text.UpperAppend | src/string/index.js:73 | raising distributes over concatenation |
| Text.TrimStart | src/string/index.js:70 | the leading trim keeps a suffix that does not start with white space and drops only white space |
| Text.TrimEnd | src/number.js:80 | the trailing trim keeps a prefix that does not end with white space and drops only white space |
| Text.NatToString | src/number.js:109 | `String(n)` of a non-negative integer is a non-empty run of digits with no leading zero |
| Text.NatToStringRoundTrip | src/number.js:109 | reading back the digits of `String(n)` gives `n` |
| Text.PadZeros | src/date/index.js:23 | `padStart(width, "0")` puts just enough zeros in front to reach the width |
| Text.PadStart2 | src/date/index.js:24 | `String(n).padStart(2, "0")` has at least two characters, exactly two below 100 |
| Values.Lookup | src/array/index.js:116 | `obj[key]` is found exactly when the object has a field named `key` |
| Values.SetField | src/object/index.js:59 | after `obj[key] = val` the key holds `val` and every other key is as it was |
| Values.SetFieldKeys | src/object/index.js:59 | assignment keeps the key order, and a new key goes last |
| Values.DeleteField | src/array/index.js:133 | after `delete obj[key]` the key is absent and every other key is as it was |
| Values.ToNumber | src/random/index.js:35-36 | `Number(v)` is an integer or `NaN` |
| Values.ToNumberIsNumeric | src/number.js:91 | every value `Number` reads as an integer passes the `isNaN(Number(num))` guard |
| Calendar.DaysInMonth | src/date/index.js:193-203 | every month has 28 to 31 days, and February has 29 exactly in a leap year |
| Calendar.Roll | src/date/index.js:271-273 | a day number outside the month rolls into a valid calendar day with the same day number |
| Calendar.DayNumberOrder | src/date/index.js:192 | on valid days, day numbers order days as the calendar does, in both directions |
| Calendar.DayNumberInjective | src/date/index.js:192 | two valid days with the same day number are the same day |
| Calendar.TimeValueOrder | src/date/index.js:192 | time values order instants by day, and equal time values are the same instant |
| Calendar.Weekday | src/date/index.js:371 | `getDay()` lies in 0..6 |
| Calendar.FromTimeValue | src/date/index.js:263 | `new Date(ms)` is a valid date exactly when `ms` is within 8.64e15 either way, and then has time value `ms` |
| Calendar.WithDate | src/date/index.js:271-273 | `setDate(d)` moves by `d` minus the current day, keeps the time of day, and is invalid only when the result leaves the time range |
| Calendar.WithMonth | src/date/index.js:203 | `setMonth(mo)` on a valid date lands on the day number of the same day of month `mo` counted from January of the year (rolled over when that month is shorter), keeping the time of day; it is invalid only when that time leaves the range of dates |
| Calendar.DateObject.SetDate | src/date/index.js:200 | the date object now holds `setDate`'s instant |
| Calendar.DateObject.SetMonth | src/date/index.js:203 | the date object now holds `setMonth`'s instant |
| Dates.LeapYearsHaveFebruary29 | src/date/index.js:173-178 | `isLeapYear` holds exactly for the integer years from 1 on whose February has 29 days |
| Dates.LeapYearGuard | src/date/index.js:174-176 | non-numbers, NaN and years before 1 are never leap years |
| Dates.Rem24 | src/date/index.js:74 | JavaScript's `hours % 24`: within -23..23, the mathematical remainder for non-negative hours, and for negative hours 0 or that remainder less 24 |
| Dates.ClockHour | src/date/index.js:84-86 | the clock reading of an hour lies in 1..12 |
| Dates.FoldedHour | src/date/index.js:74-80 | the folded hour is the hour modulo 24, and modulo 12 it is the hour modulo 12 |
| Dates.TwelveHourReading | src/date/index.js:69-87 | every integer hour gives two digits, "01" to "12", that read as its clock hour |
| Dates.DigitsValueLeadingZero | src/date/index.js:86 | a padding zero does not change the value of a digit |
| Dates.Format12Hour | src/date/index.js:69-72 | an error with "args must be a number or string number" exactly for a non-number or NaN |
| Dates.TwelveHourClosed | src/date/index.js:74-86 | "12" for the hours of noon and midnight, otherwise the hour modulo 12 in two digits |
| Dates.FormatAMPM | src/date/index.js:57-61 | "AM" or "PM" |
| Dates.MeridiemMatchesHour | src/date/index.js:60 | on a valid date, "PM" exactly from hour 12 on and "AM" before |
| Dates.Text | src/date/index.js:35 | each alternative of the token pattern (YYYY, MM, DD, HH, mm, ss, hh, a) is one to four characters |
| Dates.MatchAt | src/date/index.js:35 | the alternative matched at the front is one the text starts with, and when none is matched the text starts with none |
| Dates.TwoDigitTokens | src/date/index.js:23-29 | every token but the year and the meridiem gives two digits |
| Dates.ExpandPlain | src/date/index.js:35-37 | a format with no character of the pattern comes back unchanged |
| Dates.MatchAtExtend | src/date/index.js:35 | a match cannot reach past a character that no alternative contains |
| Dates.ExpandSplit | src/date/index.js:35-37 | text ending in a character outside the pattern is expanded on its own, so separators split a format into independently expanded pieces |
| Dates.LowerCaseTokensUnmatched | src/date/index.js:35 | `yyyy` and `dd` have entries in the table but are never matched, so they are kept as written |
| Dates.DefaultFormat | src/date/index.js:21-25 | "YYYY-MM-DD" gives the year, '-', the month from 1 in two digits, '-', the day in two digits |
| Dates.LeadingToken | src/date/index.js:35-37 | a matched alternative at the front is replaced by its text and the scan goes on after it |
| Dates.LeadingPlain | src/date/index.js:35-37 | a character outside the pattern at the front is copied |
| Dates.FormatDate | src/date/index.js:9-38 | a missing date is the clock's instant and a missing format "YYYY-MM-DD"; then an error with "Invalid date provided. Falling back to current date and time." exactly when the date is not a valid Date; a TypeError exactly when it is and the format is not a string; otherwise the expansion of the format on the date's fields |
| Dates.DateArgument | src/date/index.js:9 | `date = new Date()`: a given date is kept, a missing one is a Date at the clock's instant |
| Dates.FormatArgument | src/date/index.js:9 | `format = "YYYY-MM-DD"`: a given format is kept, a missing one is "YYYY-MM-DD" |
| Dates.FormatDateNoArguments | src/date/index.js:9-38 | `formatDate()` is today's year, two-digit month and two-digit day joined by '-' |
| Dates.FormatDateGivenDate | src/date/index.js:9 | with a date given, the clock has no effect |
| Dates.YearPart | src/date/index.js:21 | "YYYY-MM-DD" starts with the year, then the expansion of "-MM-DD" |
| Dates.MonthPart | src/date/index.js:23 | "MM-DD" is the month from 1 in two digits, '-', then the expansion of "DD" |
| Dates.DayPart | src/date/index.js:25 | "DD" is the day of the month in two digits |
| Dates.PadStart2Reading | src/date/index.js:23-25 | below 100, the two-digit padding is two digits that read as the number |
| Dates.RunStep | src/date/index.js:192-219 | while the cursor is not after the end, one pass moves the cursor, counts a month, and counts a year when it enters January |
| Dates.RunDone | src/date/index.js:192 | the loop stops once the cursor is after the end |
| Dates.CalculateMonthsYearsDifference | src/date/index.js:187-234 | the cursor walk and its final correction compute the month-and-year specification, or `None` when the walk takes more than the fuel |
| Dates.CountMonths | src/date/index.js:192-219 | the loop on the `tempDate` object computes the walk from its initial date, and leaves `tempDate` at the walk's cursor |
| Dates.StepCursor | src/date/index.js:193-218 | the date moves of one pass, on the cursor object, are the pass function |
| MonthWalk.FirstOf | src/date/index.js:203-217 | the first of a month at a month index keeps the time of day |
| MonthWalk.FirstOfSelf | src/date/index.js:214 | a date on the first is the first of its own month |
| MonthWalk.NextFirstDay | src/date/index.js:203 | the first of the next month is as many days on as the month has |
| MonthWalk.FirstNotAfter | src/date/index.js:192 | a first-of-month is not after the end exactly when its index is below the end's last index |
| MonthWalk.MonthIndexOrder | src/date/index.js:192 | a later time value never has an earlier month index |
| MonthWalk.MonthOnFromFirst | src/date/index.js:203 | `setMonth(getMonth() + 1)` on the first of a month is the first of the next month |
| MonthWalk.StepFirst | src/date/index.js:193-218 | from the first of a month, one pass lands on the first of the next and marks a new year on entering January |
| MonthWalk.NextFromFirst | src/date/index.js:193-218 | the same, for the pass given as a function value |
| MonthWalk.RunAlong | src/date/index.js:192-219 | along cursors that each pass moves one on, the loop ends at the first cursor after the end, having counted one month per pass and one year per marked pass |
| MonthWalk.Decembers | src/date/index.js:205-209 | the Decembers passed between two month indices are the years crossed |
| MonthWalk.AlongFirsts | src/date/index.js:192-219 | every first-of-month from the start up to the end is not after the end and is moved to the next first-of-month |
| MonthWalk.AllAlongFirsts | src/date/index.js:192-219 | the firsts of the months form a walk that starts at the start and stops at the last index |
| MonthWalk.WalkFromFirst | src/date/index.js:192-219 | from the first of a month, the walk ends on the first first-of-month after the end, having counted every month and every December passed |
| MonthWalk.SettleOnFirst | src/date/index.js:223-231 | the correction after such a walk takes one month off and brings the years back to the end's year |
| MonthWalk.MonthsFromFirst | src/date/index.js:187-234 | from the first of a month to a later end, the months are the whole months passed (a first earlier in the day than the start not yet reached) and the years the difference of the calendar years |
| MonthWalk.EndBeforeStart | src/date/index.js:223-231 | an end before the start gives -1 months, and -1 years when the years differ |
| MonthWalk.InvalidDates | src/date/index.js:192-223 | an invalid date on either side gives 0 months and 0 years |
| MonthWalk.RunStalls | src/date/index.js:192-219 | a pass that leaves the cursor in place while the loop condition holds makes the loop run for ever |
| MonthWalk.SameDayNextMonth | src/date/index.js:203 | `setMonth(getMonth() + 1)` on a day the next month also has keeps the day and the time of day |
| MonthWalk.BackToMonthEnd | src/date/index.js:217 | `setDate(0)` in the following month gives the last day of the month, at the same time of day |
| MonthWalk.MoveOnToMonthEnd | src/date/index.js:203-218 | from a day after the 1st that the next month also has, the month step and `setDate(0)` land on the last day of the month |
| MonthWalk.LeapDayBack | src/date/index.js:193-201 | `setDate(28)` on February 29 is February 28 of the same year |
| MonthWalk.StepToMonthEnd | src/date/index.js:193-218 | from such a day, one pass of the loop moves the cursor to the last day of its own month |
| MonthWalk.MonthEndFixed | src/date/index.js:193-218 | from the last day of a month that the next month also has (February, April, June, July, September, November, December), one pass leaves the cursor where it is |
| MonthWalk.RunStallsNext | src/date/index.js:192-219 | a loop whose second cursor is a fixed point, with the condition true on both, runs for ever |
| MonthWalk.LastOfNotBefore | src/date/index.js:217 | the last day of a month is not before any day of it |
| MonthWalk.MonthEndStalls | src/date/index.js:187-234 | a walk from such a month end to an end not before it never ends |
| MonthWalk.MidMonthStalls | src/date/index.js:187-234 | a walk from day 2 to 28 of such a month, to an end not before its last day, never ends: the cursor goes to the month end and stays |
| MonthWalk.JanuaryEndStep | src/date/index.js:203-218 | from January 31 one pass goes to the last day of February |
| MonthWalk.JanuaryPasses | src/date/index.js:193-218 | from January 2 to 28 the cursor moves to January 31, then to the last day of February, and then stays |
| MonthWalk.JanuaryStalls | src/date/index.js:187-234 | a walk from January 2 to 28 to an end not before the last day of February never ends |
| MonthWalk.MonthsLater | src/date/index.js:187-234 | reference definition: the date k calendar months on, at the same time of day, on the same day clamped to the length of the month |
| MonthWalk.LaterMonthLaterTime | src/date/index.js:192 | an instant in a later month has a larger time value |
| MonthWalk.WholeMonthsBracket | src/date/index.js:187-234 | for an end not before the start, the corrected month count m is the number of whole months: m months on is not after the end, and m + 1 months on is |
| MonthWalk.WholeMonthsFromFirst | src/date/index.js:187-234 | from the first of a month the count of whole months is the difference of the month indices, less one when the end is on a 1st at an earlier time of day |
| MonthWalk.SameFirst | src/date/index.js:187-234 | from the first of a month to itself: 0 months and 0 years |
| Dates.GetToday | src/date/index.js:46-49 | today's text is `formatDate()` with the given format, at the clock's instant; it fails exactly when the format is given and is not a string |
| Dates.GetTodayDefault | src/date/index.js:46 | with the default format, today is the year, a two-digit month and a two-digit day joined by '-' |
| DateDifference.ParseDate | src/date/index.js:156-165 | accepted exactly for a string the parser reads as a valid date, giving that date; a non-string fails with "Invalid date input. Date must be a string.", an unreadable string with "Invalid date format provided." |
| DateDifference.DifferenceOf | src/date/index.js:102-113 | the missing-dates error exactly when the options, `startDate` or `endDate` are falsy, or a date read fails with that message |
| DateDifference.UnitMessagesDiffer | src/date/index.js:127-146 | no unit leads the switch to the missing-dates message |
| DateDifference.DateDifference | src/date/index.js:99-147 | "Both startDate and endDate must be provided." exactly when the options, `startDate` or `endDate` are falsy; a result means both dates were read and the unit is a string |
| DateDifference.CalculateDateDifference | src/date/index.js:99-147 | the method, with the month walk's loop inside, computes the specification of `calculateDateDifference` |
| DateDifference.DifferenceBetween | src/date/index.js:117-146 | the swap, the subtraction and the switch on the lower-cased unit compute the specification |
| DateDifference.DifferenceSymmetric | src/date/index.js:117-119 | which date comes first makes no difference, in every unit and for invalid dates too |
| DateDifference.FixedUnit | src/date/index.js:123-137 | days, hours, minutes, seconds and milliseconds, in any letter case, give the floor of the absolute millisecond difference over the unit's size |
| DateDifference.FixedUnitInvalid | src/date/index.js:123-137 | an invalid date gives NaN in those units |
| DateDifference.UnknownUnit | src/date/index.js:142-145 | every other unit throws "Invalid unit: …", naming the unit as given |
| DateDifference.OmittedUnitThrows | src/date/index.js:126 | without a unit, `options.unit.toLowerCase()` throws a TypeError whatever the dates |
| DateDifference.OmittedUnitThrowsOnOptions | src/date/index.js:99-126 | options with two readable dates and no unit give a TypeError |
| DateDifference.DefaultUnitIsDays | src/date/index.js:94 | with the documented default, an omitted unit gives the same as "days": the floor of the absolute difference over a day's milliseconds |
| DateDifference.CalendarUnit | src/date/index.js:138-141 | months and years read the month walk from the earlier date to the later |
| DateDifference.CalendarUnitFromFirst | src/date/index.js:138-141 | from the first of a month, months are the whole calendar months passed (one fewer when the end is a first earlier in the day) and years the difference of the calendar years |
| DateDifference.WithDates | src/date/index.js:102 | options with `startDate` and `endDate` replaced and every other key kept |
| DateDifference.SwappedDates | src/date/index.js:106-119 | swapping two accepted dates leaves `calculateDateDifference` unchanged |
| DateRanges.Shifted | src/date/index.js:249-276 | a result exactly when the input is read and the type is "before" or "after"; a valid result is the input's day moved by the shift, rolling over month and year ends, at the same time of day |
| DateRanges.ShiftedBy | src/date/index.js:270-273 | the shift is `setDate(getDate() ± n)` on the copy of the input |
| DateRanges.DefaultDateTextIsFormatDate | src/date/index.js:278 | the text returned is `formatDate(date)`, with its default format "YYYY-MM-DD", whatever the clock says |
| DateRanges.BeforeOrAfter | src/date/index.js:244-279 | a text exactly when the shifted date exists and is valid; the input's and the type's errors pass through; a shift out of the range of dates makes `formatDate` throw |
| DateRanges.GetBeforeOrAfterDate | src/date/index.js:244-279 | the method shifting a fresh copy of the input in place computes the specification |
| DateRanges.BeforeIsAfterNegated | src/date/index.js:270-273 | n days "before" is -n days "after" |
| DateRanges.ZeroShift | src/date/index.js:263-273 | a shift of zero days gives the input date itself |
| DateRanges.ParseInt | src/date/index.js:301-302 | `parseInt` gives a number or NaN |
| DateRanges.DigitPrefixAll | src/date/index.js:301-302 | a string of digits is read to its end |
| DateRanges.ParseIntDigits | src/date/index.js:301-302 | a non-empty run of digits is read as its value |
| DateRanges.ParseIntNegated | src/date/index.js:301-302 | a minus sign and digits are read as the negated value |
| DateRanges.ParseIntRoundTrip | src/date/index.js:301-302 | `parseInt(String(n)) === n` for every integer |
| DateRanges.Ascending | src/date/index.js:326-328 | the years from lo to hi counting up: hi - lo + 1 of them, the k-th being lo + k |
| DateRanges.Descending | src/date/index.js:330-332 | the years from hi to lo counting down, the k-th being hi - k |
| DateRanges.DescendingReversed | src/date/index.js:325-333 | the descending range is the ascending one read backwards |
| DateRanges.OrderedYears | src/date/index.js:312-333 | an error exactly for an order other than "asc", "desc" or none; otherwise the years from the smaller bound to the larger, every one once, in the requested order |
| DateRanges.AscendingSnoc | src/date/index.js:326-328 | pushing the next year extends the ascending range |
| DateRanges.DescendingSnoc | src/date/index.js:330-332 | pushing the next lower year extends the descending range |
| DateRanges.YearsUp | src/date/index.js:326-328 | the counting-up loop builds the ascending range |
| DateRanges.YearsDown | src/date/index.js:330-332 | the counting-down loop builds the descending range |
| DateRanges.OrderYears | src/date/index.js:318-333 | the order check and the two loops compute the ordered range |
| DateRanges.GetYearRange | src/date/index.js:289-338 | the method computes the specification of `getYearRange` |
| DateRanges.YearRangeSymmetric | src/date/index.js:312-314 | with both years given, their order does not matter |
| DateRanges.OrderedYearsSymmetric | src/date/index.js:312-314 | the bounds are swapped into order, so their order does not matter |
| DateRanges.FormatWith | src/date/index.js:380 | `formatDate(currentDate, mergedOptions.format)`, whatever the clock says; an absent format takes the default; any result comes from a valid date |
| DateRanges.Collect | src/date/index.js:366-392 | when no pass throws, one record per pass, each the entry of its pass |
| DateRanges.CollectStaysFailed | src/date/index.js:368-392 | once a pass has thrown, later passes change nothing |
| DateRanges.DayRecord | src/date/index.js:371-387 | one pass of the loop computes the entry for its pass and date |
| DateRanges.GetSevenDaysInfo | src/date/index.js:350-395 | the method moving `currentDate` a day per pass computes the specification of `getSevenDaysInfo` |
| DateRanges.ListWeek | src/date/index.js:368-392 | the seven passes on the `currentDate` object compute the listing from its initial date |
| DateRanges.NextDay | src/date/index.js:391 | `setDate(getDate() + 1)` moves the cursor from the i-th day to the next |
| DateRanges.RecordCollected | src/date/index.js:380-387 | a pass that throws ends the listing with its error; otherwise its record is pushed |
| DateRanges.DayAfterDays | src/date/index.js:391 | i passes move a valid date i days on, at the same time of day |
| DateRanges.ListedEntry | src/date/index.js:368-392 | record k of the listing is the entry of pass k |
| DateRanges.ListedDate | src/date/index.js:368-392 | a pass that does not throw lists a valid date k days and k weekdays on from the start |
| DateRanges.EntryRecord | src/date/index.js:371-387 | a pass that does not throw records the weekday name of its date, or "今天" on the first pass when `changeFirst` is set, and the date formatted with the format option |
| DateRanges.WeekdayOn | src/date/index.js:371 | the weekday k days on is k weekdays on, modulo the week |
| DateRanges.WeekShift | src/date/index.js:371 | counting k days on moves the day of the week k places round |
| DatesLegacy.LegacyLeapIsCalendarLeap | src/date.js:148-150 | on every integer year the older `isLeapYear` is the Gregorian rule, i.e. February has 29 days |
| DatesLegacy.LegacyLeapAgrees | src/date.js:148-150 | from year 1 on the older and the newer `isLeapYear` agree |
| DatesLegacy.LegacyLeapUnguarded | src/date.js:148-150 | without the guard, 0, -400 and null are leap years for the older test and not for the newer one; undefined is not |
| DatesLegacy.LegacyTwelveHour | src/date.js:59-65 | at least two characters |
| DatesLegacy.LegacyTwelveHourOnClock | src/date.js:59-65 | on the hours 0..23, the older `format12Hour` writes what the newer one does: "12" at noon and midnight, else the hour modulo 12 in two digits |
| DatesLegacy.LegacyTwelveHourUnclamped | src/date.js:62-64 | from 24 on the hour is not folded: the digits of hours - 12 |
| DatesLegacy.LegacyTokenTextSame | src/date.js:21-32 | since a date's hour lies in 0..23, the older token table writes what the newer one does |
| DatesLegacy.LegacyFormatDate | src/date.js:9-39 | a missing date is the clock's instant and a missing format "YYYY-MM-DD"; undefined exactly when the date is not a valid Date, a TypeError when the format is not a string, otherwise the expanded format; undefined exactly where the newer `formatDate` throws its message, the same text where it succeeds |
| DatesLegacy.LegacyParseDate | src/date.js:134-140 | accepted exactly when `new Date(value)` is valid, giving that date; otherwise "Invalid date format provided." |
| DatesLegacy.LegacyParseDateOnStrings | src/date.js:134-140 | on strings the older `parseDate` is the newer one |
| DatesLegacy.LegacyParseDateNumbers | src/date.js:135 | a time value in range is accepted as that time by the older `parseDate`, while the newer one refuses a non-string |
| DatesLegacy.LegacyDateDifference | src/date.js:77-125 | the missing-dates error exactly when the options, `startDate` or `endDate` are falsy; a result means both dates were read and the unit is a string |
| DatesLegacy.LegacyDateDifferenceAgrees | src/date.js:77-125 | with dates given as strings or Date objects, the older and the newer `calculateDateDifference` agree |
| DatesLegacy.LegacyCalculateDateDifference | src/date.js:77-125 | the method, with this file's leap-year test in the walk, computes the specification |
| DatesLegacy.LegacyCalculateMonthsYearsDifference | src/date.js:159-206 | the cursor walk with the unguarded leap-year test computes the month-and-year specification |
| DatesLegacy.LegacyStepAgrees | src/date.js:164-191 | one pass of the older walk is one pass of the newer, except from February 29 of a year before 1 |
| DatesLegacy.StepByGuard | src/date.js:165-173 | two leap-year tests that agree on moving February 29 back give the same pass |
| DatesLegacy.LegacyStepFromLeapDay | src/date.js:165-173 | from February 29 the older walk always moves back to the 28th first |
| ArraysLegacy.GroupByAndNest | src/array.js:56-119 | a non-array is refused with the newer message; no grouping keys give the array back; a null or undefined item throws a TypeError; otherwise the groups in first-seen order, each with every item's rest, empty ones included, under `childrenKey` or "children" when that is omitted |
| ArraysLegacy.TotalFrom | src/array.js:113 | the children of the records from group p on are the children counted for those groups |
| ArraysLegacy.LegacyKeepsEveryItem | src/array.js:56-119 | every item lands in exactly one group's children, so the children number the items |
| ArraysLegacy.UniqueArray | src/array.js:129-163 | a non-array has no `filter` and throws a TypeError; an array gives a new array of the same filter as the newer file |
| Arrays.StrLessTotal | src/array/index.js:49-61 | two different strings are ordered by `<` one way or the other |
| Arrays.ToPrimitive | src/array/index.js:56-59 | what `<` and `>` compare is never an object: objects become their strings, a date its time value |
| Arrays.Compare | src/array/index.js:43-62 | the comparator returns -1, 0 or 1, and 0 exactly when the two keys are `===` |
| Arrays.SwapStep | src/array/index.js:43 | one swap of the insertion step keeps both sorted runs and the link between them |
| Arrays.SortWith | src/array/index.js:43 | the in-place sort leaves a permutation of the array; with a consistent comparator the array ends sorted; when every pair compares 0 the array is left as it was; items of any group of mutually tied items keep their relative order (the sort is stable) |
| Arrays.InsertLeft | src/array/index.js:43 | one insertion step keeps the multiset and the relative order of tied items, extends the sorted run by one item, and changes nothing when the item is already in place |
| Arrays.Picked | src/array/index.js:43 | the items of a sequence that belong to a group, in order, are a subsequence of it |
| Arrays.PickedAppend | src/array/index.js:43 | picking from a concatenation is picking from each part |
| Arrays.PickedSwap | src/array/index.js:43 | swapping two neighbours that are not both in a group keeps the group's items in order |
| Arrays.SwapKeepsTies | src/array/index.js:43 | swapping two neighbours in the wrong order keeps every tied group in its input order |
| Arrays.SwapLeft | src/array/index.js:43 | two neighbours trade places and nothing else changes |
| Arrays.ComparableConsistent | src/array/index.js:43-62 | with pairwise comparable keys the key comparator is consistent |
| Arrays.CompareFlip | src/array/index.js:49-61 | for comparable keys, swapping the two items flips the sign of the result |
| Arrays.TiedAllEqual | src/array/index.js:49-51 | keys that are all `===` make the comparator return 0 on every pair |
| Arrays.NumKeysComparable | src/array/index.js:55-61 | integer keys are always comparable |
| Arrays.StrKeysComparable | src/array/index.js:55-61 | string keys are always comparable |
| Arrays.SortedNumKeys | src/array/index.js:37-62 | sorted on integer keys, the keys ascend for "asc" and descend for "desc" between any two positions |
| Arrays.KeyNumbers | src/array/index.js:44-45 | the integer key of each item, in order |
| Arrays.NeighbourKeysOrdered | src/array/index.js:55-61 | sorted on integer keys, neighbouring keys follow the direction's order |
| Arrays.ChainOrdered | src/array/index.js:55-61 | neighbours in order put every pair in order |
| Arrays.NumCompareStep | src/array/index.js:55-61 | a comparator result of at most 0 orders two integer keys as the direction says |
| Arrays.KeyCheck | src/array/index.js:23-29 | the element check passes exactly when every item is a non-null object that owns the key |
| Arrays.SortArrayByProperty | src/array/index.js:11-67 | null options throw a TypeError; missing options mean key "name" and order "asc"; "The first argument must be an array." for a non-array; the element check's error; a TypeError when `order` is not a string; otherwise a new array that is a permutation of the input, sorted by the key in the direction `order.toLowerCase()` names when the keys are comparable, in the input's order when all keys are tied, and with the items of equal key in their input order |
| Arrays.SortedCopy | src/array/index.js:33-62 | the copy of the items, sorted in place with the key comparator: a permutation, sorted when the keys are comparable, unchanged when they are all tied, stable on each group of equal keys |
| Arrays.KeyGroupTied | src/array/index.js:49-51 | the items whose key is `===` to one value compare 0 with each other |
| Arrays.KeyNames | src/array/index.js:103 | an array of grouping keys gives one name per item; any other value gives one name |
| Arrays.KeyValues | src/array/index.js:116 | the item's value under each grouping key, in order |
| Arrays.HeadFields | src/array/index.js:124 | the head object holds exactly the grouping keys, each with the item's value |
| Arrays.DeleteAll | src/array/index.js:132-135 | after the deletes none of the keys is present and every other field is kept |
| Arrays.RestFields | src/array/index.js:131-135 | `rest` holds exactly the item's own fields that are not grouping keys |
| Arrays.Names | src/array/index.js:116 | one group name per item, in item order |
| Arrays.FirstSeen | src/array/index.js:107-127 | the distinct group names, each once, as a Map's insertion order keeps them |
| Arrays.FirstIndex | src/array/index.js:120 | a name's first position exists exactly when the name occurs, holds it, and no earlier position does |
| Arrays.FirstIndexUnique | src/array/index.js:120 | a position holding a name with no earlier one is its first position |
| Arrays.FirstIndexAppend | src/array/index.js:120-126 | appending a name keeps the first position of every name already there |
| Arrays.FirstIndexNew | src/array/index.js:120-126 | a new name sits at the end |
| Arrays.NamesStep | src/array/index.js:111-116 | each item adds its group name |
| Arrays.ChildrenUnseen | src/array/index.js:120-126 | a group not yet seen has no children |
| Arrays.GroupAfterStep | src/array/index.js:120-143 | a new name starts a group with the item's head and no children; the item's own group gains its `rest` when that is non-empty; every other group is unchanged |
| Arrays.GroupStep | src/array/index.js:111-144 | one turn of the `forEach` keeps the loop's state: the Map holds, in first-seen order, each group seen so far with the rests of its members |
| Arrays.GroupStepMap | src/array/index.js:120-143 | after one turn every entry of the Map is the group of a name seen so far, as it stands after that item |
| Arrays.GroupItems | src/array/index.js:107-148 | the grouping loop produces the records of the groups in first-seen order |
| Arrays.GroupedFromState | src/array/index.js:148 | `Array.from(grouped.values())` on the final Map gives those records |
| Arrays.FirstSeenOrder | src/array/index.js:120-126 | groups come out in the order their names first appear |
| Arrays.ChildrenAreRests | src/array/index.js:131-143 | every child of a group is the `rest` of one of that group's members |
| Arrays.ChildrenInOrder | src/array/index.js:142 | children keep the order of their items |
| Arrays.ChildOf | src/array/index.js:131-143 | the `rest` of an item is a child of a group exactly when that is the item's group and the `rest` is kept (non-empty, or always in the older file) |
| Arrays.ChildrenLackKeys | src/array/index.js:132-135 | no child holds a grouping key |
| Arrays.GroupedAt | src/array/index.js:148 | there is one record per group, and the p-th record is the record of the p-th name to appear |
| Arrays.GroupRecordShape | src/array/index.js:120-127 | the p-th record is a new object whose `childrenKey` holds a new array of the group's children, and whose grouping keys hold the values of the group's first member, whose group name it is |
| Arrays.MissingJoinsEmpty | src/array/index.js:116 | a missing value and "" give the same group name, because `join` writes `undefined` as "" |
| Arrays.ChildCountStep | src/array/index.js:113 | when every `rest` is pushed, an item adds one child to its own group and none to any other |
| Arrays.ChildCountAppend | src/array/index.js:139-143 | counting over one more group adds that group's children |
| Arrays.ChildCountAll | src/array/index.js:111-148 | when every `rest` is pushed, the children of all groups together number the items |
| Arrays.GroupByAndNest | src/array/index.js:76-149 | the non-array error; the non-object-element error; missing or empty keys return the input itself; otherwise a new array of one record per group in first-seen order, its children under `childrenKey`, "children" when that is omitted |
| Arrays.ChildrenKeyName | src/array/index.js:76 | an omitted `childrenKey` is "children"; a string one is used as it is |
| Arrays.Identities | src/array/index.js:166-196 | the identity of each item, in order: `item[keyForObjects]` for an object when a key is given, the JSON text for an array, the item itself otherwise |
| Arrays.UniqueItems | src/array/index.js:164-196 | the filter loop keeps exactly the items whose identity the Map does not have yet |
| Arrays.UniqueSubseq | src/array/index.js:166-196 | the kept items are a subsequence of the input |
| Arrays.UniqueDistinct | src/array/index.js:164-196 | no two kept items share an identity |
| Arrays.UniqueCovers | src/array/index.js:164-196 | every item's identity is the identity of some kept item |
| Arrays.ObjectsByReference | src/array/index.js:189-195 | without a key, two distinct objects with the same fields are both kept |
| Arrays.StringMeetsArray | src/array/index.js:179-195 | the three kinds of identity share one Map, so the string "[1]" and the array [1] collide |
| Arrays.UniqueArray | src/array/index.js:159-197 | a non-array is refused with "The \"arr\" parameter is required and must be an array."; otherwise a new array that keeps, in order, exactly the items no earlier item shares an identity with |
| Arrays.UniqueIsFirsts | src/array/index.js:164-196 | the filter keeps an item exactly when no earlier item has a SameValueZero-equal identity, and keeps the input order |
| Arrays.UniqueHasSame | src/array/index.js:179-195 | after the filter the Map has an identity exactly when some item of the input has it |
| Arrays.UniqueFrom | src/array/index.js:164-196 | every kept item is an item of the input |
| Arrays.FilterItems | src/array/index.js:215-230 | an error exactly when some item's test throws; otherwise a subsequence of the input holding exactly the items whose test is true |
| Arrays.FilterItemsCount | src/array/index.js:215-230 | the result has one item per position whose test is true, so with the subsequence clause it holds each passing item as often as the input does |
| Arrays.FilterItemsFirstError | src/array/index.js:215-230 | a thrown error is the one of the first item whose test throws; every earlier test returned normally |
| Arrays.FilterArray | src/array/index.js:206-236 | the non-array error, the two missing-key errors and the bad-query error; otherwise a new array of the kept items, or the error of the first item whose test throws |
| Numbers.HundredsTeen | src/number.js:49-65 | for 100..999 with a teen remainder, `convertHundreds` writes the hundreds word, " hundred", two spaces and the teen word |
| Numbers.Cap | src/number.js:71-78 | the bound `1000^(5 - c)`, below which a number has its chunks at scales c to 4, is at least 1 |
| Numbers.JoinSpaceAppend | src/number.js:73-74 | joining two lists of pieces with spaces is joining each and putting one space between them when both are non-empty |
| Numbers.PiecesOfThousands | src/number.js:71-78 | a zero lowest chunk adds no piece and moves every other chunk up one scale |
| Numbers.PiecesOfLowChunk | src/number.js:71-78 | a non-zero lowest chunk is spelled last, with the lowest scale word |
| Numbers.ConvertNumberToWords | src/number.js:6-81 | a negative number or one above 999999999999999 gives "Number out of range", 0 gives "zero", anything else the trimmed space-join of the pieces of its non-zero base-1000 chunks, highest first |
| Numbers.ChunkWords | src/number.js:69-78 | the `while` loop builds the space-join of the pieces of `num` |
| Numbers.PrependChunk | src/number.js:71-74 | a non-zero chunk's words and scale, and a space when there are words already, go in front |
| Numbers.PiecesStep | src/number.js:71-78 | one turn of the chunk loop keeps the join of the pieces still to come followed by the words built so far |
| Numbers.PiecesBound | src/number.js:76 | dropping a chunk leaves a number in range for the next scale |
| Numbers.PiecesJoin | src/number.js:73-74 | prepending a chunk's words, with a space when there are words already, is joining it in front of them |
| Numbers.NumberWordsExample | src/number.js:71-78 | 1015 has a chunk 1 at scale "thousand" and a chunk 15 at scale "" |
| Numbers.GroupsShape | src/number.js:113-116 | the four-digit groups concatenate back to the text; each has one to four characters; every group but the first has four |
| Numbers.SectionOfZeros | src/number.js:126-139 | a run of zeros writes nothing |
| Numbers.Without | src/number.js:154-156 | the text with a character removed contains no occurrence of it |
| Numbers.WithoutAppend | src/number.js:154-156 | removing a character distributes over concatenation |
| Numbers.SkipZeros | src/number.js:154 | skipping a leading run of 零 leaves a suffix that does not start with 零 and has the same text apart from 零 |
| Numbers.CollapseZeros | src/number.js:154 | `replace(/零+/g, "零")` keeps the first character, leaves no two 零 in a row, and keeps everything that is not 零 in order |
| Numbers.DropZeroBeforeMark | src/number.js:155 | dropping a 零 before 万, 亿 or 兆 starts with the mark when the text starts with 零 and a mark; on text with no doubled 零 it leaves no doubled 零 and no 零 before a mark |
| Numbers.DropFirstYiWan | src/number.js:156 | replacing the first 亿万 by 亿 keeps the first character and keeps both clean-up properties |
| Numbers.CleanZeros | src/number.js:154-156 | after the three clean-ups there is no doubled 零 and no 零 before 万, 亿 or 兆 |
| Numbers.ChineseZerosCleaned | src/number.js:88-164 | outside the invalid, zero and two-digit multiple-of-ten cases, the result has no doubled 零 and no 零 before a mark |
| Numbers.ChineseTens | src/number.js:160-162 | 10, 20, …, 90 become the digit's name followed by 拾 |
| Numbers.ConvertToChineseUpperCase | src/number.js:88-165 | the loops compute the Chinese numeral: "Invalid input" for null, undefined and NaN, 零 for the number 0, otherwise the special two-digit case or the cleaned concatenation of the groups |
| Numbers.ChineseOfText | src/number.js:109-164 | the group, section and clean-up loops on `String(num)` compute the conversion on the text |
| Numbers.AssembleStep | src/number.js:121-150 | one turn of the outer loop appends the text of one group and its section mark |
| Numbers.SectionWords | src/number.js:122-149 | one group's text is its digit scan with a final 零 dropped, followed by its section mark when it is non-empty |
| Numbers.SplitGroups | src/number.js:113-116 | the loop that cuts groups of four from the right and unshifts them yields the groups |
| Numbers.ScanZero | src/number.js:130-131 | a zero digit only raises the pending-zero flag |
| Numbers.ScanPending | src/number.js:133-137 | a non-zero digit with the flag raised writes 零, then its name and unit |
| Numbers.ScanPlain | src/number.js:137 | a non-zero digit with the flag down writes its name and unit |
| Numbers.ZeroStep | src/number.js:130-131 | a zero digit keeps the inner loop's state with the flag raised |
| Numbers.PendingStep | src/number.js:133-137 | a non-zero digit after zeros keeps the state with 零, its name and its unit written |
| Numbers.PlainStep | src/number.js:137 | a non-zero digit with the flag down keeps the state with its name and unit written |
| Numbers.ScanSection | src/number.js:123-139 | the inner loop over one group computes the digit scan from the first digit with the flag down |
| Numbers.DigitRunEnd | src/number.js:185 | the run of digits from a position ends within the text |
| Numbers.FirstDot | src/number.js:182 | the position of the first '.', or the length when there is none: no '.' before it and a '.' at it |
| Numbers.SeparatorsInDigits | src/number.js:185 | on a run of digits, `\B(?=(\d{3})+(?!\d))` matches exactly at the positions inside the run with a multiple of three digits to their right |
| Numbers.InsertThenRemove | src/number.js:185 | removing the one-character separator from the replacement gives the text back |
| Numbers.SubstituteLiteral | src/number.js:185 | a separator with no `$` in it is inserted as it is written |
| Numbers.SubstituteSingle | src/number.js:185 | a one-character separator, `$` included, is inserted as that character |
| Numbers.MatchTemplateInsertsNothing | src/number.js:185 | the separator "$&" stands for the empty match and inserts nothing |
| Numbers.EscapedDollar | src/number.js:185 | the separator "$$" inserts a single `$` |
| Numbers.WithoutAbsent | src/number.js:185 | removing a character that does not occur changes nothing |
| Numbers.ThousandsRoundTrip | src/number.js:173-189 | for an integer and a separator character that is not a digit, '-' or '.', removing the separators from the result gives `num.toString()` |
| Numbers.SeparateOnInteger | src/number.js:179-188 | on an integer, the text has no '.', so the result is the separators put into `num.toString()` |
| Numbers.SeparateOnIntegerWith | src/number.js:179-188 | for any string separator, the result on an integer is the separators put into `num.toString()` |
| Numbers.MatchTemplateKeepsInteger | src/number.js:173-189 | `separateNumberByThousands(n, "$&")` is `n.toString()` unchanged |
| Numbers.ConvertToRomanNumerals | src/number.js:196-227 | a non-number or a number outside 1..3999 is an error with the message "Input must be an integer between 1 and 3999"; NaN passes the comparisons and gives ""; otherwise the greedy walk over the table |
| Numbers.GreedyTake | src/number.js:220-223 | taking a table entry that fits appends its numeral and subtracts its value |
| Numbers.GreedySkip | src/number.js:219-220 | an entry larger than what is left is passed over |
| Numbers.RomanLoop | src/number.js:217-226 | the nested loops compute the greedy walk from the first entry |
| Numbers.ConvertRomanToInteger | src/number.js:234-262 | on a string of the seven letters, the right-to-left sum that subtracts a letter smaller than its right neighbour; any other character makes the result NaN |
| Numbers.DecodeAppend | src/number.js:248-259 | the right-to-left sum of a concatenation is the sum of the right part plus the sum of the left part with the right part's first letter as its neighbour |
| Numbers.DecodeFromBelow | src/number.js:252-256 | a right neighbour no larger than the last letter changes nothing |
| Numbers.TokenDecodes | src/number.js:201-215 | each numeral of the table reads back as its value |
| Numbers.TokenOrder | src/number.js:201-215 | no numeral at or after an entry starts with a letter larger than the letter that entry ends with |
| Numbers.GreedyStart | src/number.js:219-224 | the greedy output starts with the first letter of an entry at or after the current one |
| Numbers.GreedyIsRoman | src/number.js:219-224 | the greedy walk writes only the letters M, D, C, L, X, V and I |
| Numbers.GreedyDecodes | src/number.js:219-224 | the greedy walk's numeral reads back as the number |
| Numbers.RomanRoundTrip | src/number.js:196-262 | `convertRomanToInteger(convertToRomanNumerals(n)) == n` for every n in 1..3999, and the numeral has only table letters |
| Strings.HyphenRun | src/string/index.js:14-17 | the length of the longest prefix of hyphens |
| Strings.DigitRun | src/string/index.js:17 | the length of the longest prefix of decimal digits |
| Strings.StripLeadingHyphens | src/string/index.js:14 | `replace(/^-+/, "")` leaves a suffix that does not start with a hyphen, and only hyphens were removed |
| Strings.StripTrailingHyphens | src/string/index.js:20 | `replace(/-+$/, "")` leaves a prefix that does not end with a hyphen, and only hyphens were removed |
| Strings.KeyAppend | src/string/index.js:6-22 | the key of a name (its characters without hyphens, lower-cased) distributes over concatenation |
| Strings.KeyCons | src/string/index.js:6-22 | the key of a name starting with a character: nothing for a hyphen, else the lower-cased character, then the key of the rest |
| Strings.KeySkipHyphens | src/string/index.js:14 | dropping leading hyphens keeps the key |
| Strings.KeyOfHyphens | src/string/index.js:20 | a run of hyphens has the empty key |
| Strings.KeyOfLower | src/string/index.js:11 | lower-casing keeps the key |
| Strings.KeyOfStripLeading | src/string/index.js:14 | removing the leading hyphens keeps the key |
| Strings.KeyOfStripTrailing | src/string/index.js:20 | removing the trailing hyphens keeps the key |
| Strings.KeyUpperLetter | src/string/index.js:17 | upper-casing a lower-case letter keeps the key |
| Strings.KeyOfUpperAfterHyphenRuns | src/string/index.js:17 | `replace(/-+(\d*[a-z])/g, …)` keeps the key |
| Strings.KeyOfUpperPiece | src/string/index.js:17 | the replacement of one piece, from a hyphen run on, keeps the key of the text it consumed |
| Strings.KeyOfUpperRunMatch | src/string/index.js:17 | dropping the hyphens before a lower-case letter and upper-casing that letter keeps the key of the text |
| Strings.UpperAfterHyphenRunsHead | src/string/index.js:17 | the replacement keeps a first character that is not a hyphen |
| Strings.HyphenatedToLowerCamelCaseShape | src/string/index.js:6-22 | `hyphenatedToLowerCamelCase` neither starts nor ends with a hyphen and has the key of its input |
| Strings.FrontPieces | src/string/index.js:17 | a non-empty text is its leading hyphen run, then the word up to the next hyphen, then a rest that is empty or starts with a hyphen |
| Strings.PiecesOf | src/string/index.js:17 | that cut of `h + w + rest` gives back `h`, `w` and `rest` |
| Strings.LowerCamelPiecesCons | src/string/index.js:17 | the piece-by-piece definition writes the first hyphen run and word, then the rest |
| Strings.LowerCamelLaterWord | src/string/index.js:17 | after a hyphen run, the replacement either drops the run and upper-cases the letter after the word's leading digits, or, when no lower-case letter follows those digits, copies the run and the word |
| Strings.LowerCamelPiecesAgree | src/string/index.js:17 | `replace(/-+(\d*[a-z])/g, …)` on a name without leading hyphens equals the piece-by-piece definition, for every input |
| Strings.HyphenatedToLowerCamelCasePieces | src/string/index.js:6-22 | `hyphenatedToLowerCamelCase` is the lower-cased name, without its leading and trailing hyphens, written piece by piece, so every character is lower-case except the letter each match upper-cases |
| Strings.CleanLowerOrDigitCons | src/string/index.js:37 | a character that is not a hyphen in front of text with no hyphen before a lower-case letter or digit keeps that property |
| Strings.CleanLowerOrDigitRun | src/string/index.js:37 | a hyphen run before a character that is neither a hyphen, a lower-case letter nor a digit keeps that property |
| Strings.CleanLowerOrDigitSuffix | src/string/index.js:37 | a suffix keeps that property |
| Strings.CleanAlnumCons | src/string/index.js:40 | a character that is not a hyphen in front of text with no hyphen before a letter or digit keeps that property |
| Strings.CleanAlnumRun | src/string/index.js:40 | a hyphen run before a character that is neither a hyphen, a letter nor a digit keeps that property |
| Strings.CapitalizeAfterHyphenRunsHead | src/string/index.js:37 | the replacement that upper-cases a letter or digit at the start or after hyphens keeps a first character that is not a hyphen and not matched |
| Strings.DropHyphensBeforeUpperHead | src/string/index.js:40 | the replacement that drops hyphens before a capital keeps a first character that is not a hyphen |
| Strings.CapitalizeAfterHyphenRunsClean | src/string/index.js:34-37 | on text that does not end with a hyphen, the second step leaves no hyphen before a lower-case letter or digit |
| Strings.DropHyphensBeforeUpperClean | src/string/index.js:40 | the third step then leaves no hyphen before any letter or digit |
| Strings.KeyOfCapitalizeAfterHyphenRuns | src/string/index.js:37 | the second step keeps the key |
| Strings.KeyOfDropHyphensBeforeUpper | src/string/index.js:40 | the third step keeps the key |
| Strings.HyphenatedToUpperCamelCaseShape | src/string/index.js:29-42 | `hyphenatedToUpperCamelCase` leaves no hyphen before a letter or digit and has the key of its input |
| Strings.HyphenatedToUpperCamelCaseCapitalises | src/string/index.js:37 | a name starting with a lower-case letter or digit comes out with that character upper-cased first |
| Strings.UpperCamelPiecesCons | src/string/index.js:37-40 | the piece-by-piece definition writes the first hyphen run and word, then the rest |
| Strings.CapitalisedWord | src/string/index.js:37-40 | a word whose lower-case letter or digit the first step upper-cases keeps the rest of its characters through both steps |
| Strings.KeptWordAfterHyphens | src/string/index.js:37-40 | a word after hyphens that the first step does not capitalise loses its hyphens in the second step exactly when it starts with a capital |
| Strings.UpperCamelFirstWord | src/string/index.js:37-40 | both steps write the first word of a name as its piece, then go on after it |
| Strings.UpperCamelLaterWord | src/string/index.js:37-40 | both steps write a hyphen run and the word after it as their piece, then go on after the word |
| Strings.UpperCamelPiecesAgree | src/string/index.js:37-40 | the two replacements together equal the piece-by-piece definition, for every input |
| Strings.HyphenatedToUpperCamelCasePieces | src/string/index.js:29-42 | `hyphenatedToUpperCamelCase` is the name without its trailing hyphens written piece by piece: a word starting with a lower-case letter or digit loses its hyphens and has that character upper-cased, a word starting with a capital loses its hyphens, every other word keeps them, and no other character changes case |
| Strings.HyphenBeforeUpperLength | src/string/index.js:57 | `replace(/([A-Z])/g, "-$1")` adds one character per upper-case letter |
| Strings.KeyOfHyphenBeforeUpper | src/string/index.js:57 | that replacement keeps the key |
| Strings.CamelCaseToHyphenatedShape | src/string/index.js:49-60 | `camelCaseToHyphenated` has no upper-case letter, is one character longer per upper-case letter after the first position, and has the key of its input |
| Strings.UpperAfterHyphenRunsUndoes | src/string/index.js:17 | on a name of letters and digits, the lower-camel step undoes the hyphen insertion and lower-casing |
| Strings.CamelCaseRoundTrip | src/string/index.js:6-60 | `hyphenatedToLowerCamelCase(camelCaseToHyphenated(name)) == name` for a name of letters and digits that does not start upper-case |
| Strings.SplitOnSpace | src/string/index.js:71 | `split(" ")` gives at least one piece |
| Strings.CapitalizeAll | src/string/index.js:72-74 | the `map` capitalises each word and keeps the number of words |
| Strings.CapitalizeAfterSpaces | src/string/index.js:68-75 | reference definition: the same length, with exactly the characters at the start (when asked) and after a space upper-cased |
| Strings.JoinHead | src/string/index.js:75 | joining words whose first starts with a character starts with that character |
| Strings.SplitCapitalizeJoin | src/string/index.js:71-75 | splitting on spaces, capitalising each word and joining with spaces is the reference definition |
| Strings.CapitalizeWordsSpec | src/string/index.js:67-76 | `capitalizeWords` has the length of the trimmed, lower-cased text and upper-cases exactly its first character and the characters after a space |
| Strings.CapitalizeAllCons | src/string/index.js:72-74 | capitalising a list is capitalising its head followed by the rest |
| Strings.CountChars | src/string/index.js:83-89 | the loop's counts have a key for exactly the characters that occur, each mapped to its number of occurrences |
| Utils.IndexKeyIsIndex | src/utils.js:65-66 | the key of an array index is a canonical index below the length (what `Object.keys` lists for an array) and reads back as that index |
| Utils.LookupDistinct | src/utils.js:75-76 | with distinct keys, looking up a field's key finds that field's value |
| Utils.OwnValueIsGet | src/utils.js:74-76 | `a[key]` for the i-th own enumerable key is the i-th own value |
| Utils.ItemsCompareAll | src/utils.js:57-60 | the element loop succeeds exactly when every remaining pair of elements compares equal |
| Utils.KeysCompareStep | src/utils.js:74-79 | one turn of the key loop: this key must be an own property of `b` holding an equal value, then the rest |
| Utils.KeysCompareAll | src/utils.js:74-83 | the key loop succeeds exactly when every remaining key of `a` holds in `b` |
| Utils.DeepCompareStrict | src/utils.js:11-17 | strictly equal values compare equal, and every value but NaN compares equal to itself |
| Utils.DeepCompareNullishAndTypes | src/utils.js:21-31 | null and undefined equal only themselves; values of different `typeof` never compare equal |
| Utils.DeepCompareDates | src/utils.js:35-36 | two dates compare equal exactly when they are one object or have the same time value |
| Utils.DeepCompareRegExps | src/utils.js:40-42 | two regular expressions compare equal exactly when they are one object or have the same source and flags |
| Utils.DeepCompareArrays | src/utils.js:50-61 | two arrays compare equal exactly when they are one object or have the same length and equal elements |
| Utils.DeepCompareObjects | src/utils.js:65-83 | any other pair of distinct objects compares equal exactly when they have as many own enumerable keys and every key of `a` is an own property of `b` holding an equal value |
| Utils.EmptyArrayEqualsEmptyObject | src/utils.js:46-83 | `deepCompare([], {})` is true |
| Utils.TwinKeys | src/utils.js:65-66 | structural copies have the same own keys |
| Utils.TwinsCompareEqual | src/utils.js:8-84 | a structural copy compares equal to its original |
| Utils.DeepCompareAsymmetric | src/utils.js:65-79 | `deepCompare({length: 1}, [5])` is true and `deepCompare([5], {length: 1})` is false |
| Utils.DeepCompareNaN | src/utils.js:11-17 | `deepCompare(NaN, NaN)` is false, and so is `deepCompare([NaN], [NaN])` |
| Utils.ItemsEqualAll | src/utils.js:50-61 | for the corrected equality, the element loop holds exactly when all remaining elements are equal |
| Utils.FieldsEqualAll | src/utils.js:63-83 | for the corrected equality, the field loop holds exactly when every remaining field of `a` is found in `b` with an equal value |
| Utils.DistinctKeySetSize | src/utils.js:70 | distinct keys make a key set as large as the field list |
| Utils.SubsetOfSameSize | src/utils.js:70-79 | a subset of the same size is the whole set |
| Utils.SameKeySets | src/utils.js:70-79 | as many distinct keys on both sides, all of `a`'s in `b`, means all of `b`'s are in `a` |
| Utils.LookupIndex | src/utils.js:75-76 | a key present among distinct keys is found at some position, with that field's value |
| Utils.DeepEqualSymmetric | src/utils.js:8-84 | the corrected deep equality is symmetric on values whose objects have distinct keys |
| Utils.ArraysSymmetric | src/utils.js:50-61 | the symmetric case for arrays |
| Utils.ObjectsSymmetric | src/utils.js:63-83 | the symmetric case for plain objects |
| Utils.DeepEqualOnAsymmetricPair | src/utils.js:46-83 | the corrected equality rejects `{length: 1}` against `[5]` in both directions |
| Utils.DeepEqualNaN | src/utils.js:13-16 | the corrected equality holds for `NaN` against `NaN`, alone and inside arrays |
| Utils.IsObject | src/utils.js:92-106 | true exactly for a non-null object that is not an array; dates and regular expressions count |
| Utils.IsArray | src/utils.js:114-116 | `isArray(v)` holds exactly when `type(v)` is "Array" |
| Utils.IsNaN | src/utils.js:124-126 | `Number.isNaN(v)` holds exactly for the one value that is not `===` to itself, with no conversion |
| Utils.IsNaNByType | src/utils.js:124-126 | `isNaN(v)` holds exactly when `type(v)` is "NaN" |
| Utils.Type | src/utils.js:134-151 | for anything but null, undefined and NaN, the built-in tag with "[object " and "]" cut off |
| Utils.TypeNames | src/utils.js:134-151 | each of the names NaN, Number, Array, Object, Date, RegExp, String, Boolean, Function, Null and Undefined is returned for exactly one kind of value |
| Objects.Put | src/object/index.js:59 | `copy[key] = value` on a plain object without that key appends the property last |
| Objects.SetIndex | src/object/index.js:59 | `copy[i] = value` on an array sets position i, growing the array by one when i is its length, and keeps every other position |
| Objects.EvolvesByGrowth | src/object/index.js:19-64 | a heap that only grows evolves from its prefix |
| Objects.EvolvesTrans | src/object/index.js:19-64 | evolving (the heap grows, only clone containers change, keeping their kind) is transitive |
| Objects.SlotStable | src/object/index.js:40-42 | a clone, nested `Set` and `Map` members included, stays a clone while the table grows and only clone containers change |
| Objects.MembersStable | src/object/index.js:33-35 | the members of a cloned `Set` or `Map` stay clones under the same conditions |
| Objects.PartialStable | src/object/index.js:55-61 | a partly filled clone stays partly filled under the same conditions |
| Objects.SlotsStable | src/object/index.js:33-35 | a list of clones stays a list of clones under the same conditions |
| Objects.TableStable | src/object/index.js:53 | the table keeps pointing at clones of the right kind as the heap evolves |
| Objects.CompletedStable | src/object/index.js:55-63 | complete clones stay complete when later clones are added and only other containers change |
| Objects.CompletedAfterChild | src/object/index.js:59 | the clones a nested call completed join those completed before it |
| Objects.CompletedAfterWrite | src/object/index.js:59 | writing into a clone container that is still being filled leaves the completed clones as they were |
| Objects.PartialStep | src/object/index.js:55-61 | writing the clone of entry i into the clone under its key extends the copied prefix by one entry |
| Objects.Recorded | src/object/index.js:44-53 | recording an empty array or object for an unrecorded container keeps the table's shape and starts a copy with no entries |
| Objects.ChildBelow | src/object/index.js:55-59 | the entries of a source container refer only to source objects |
| Objects.MemberSlotsBelow | src/object/index.js:32-35 | the elements of a Set and the values of a Map refer only to source objects |
| Objects.CycleKept | src/object/index.js:40-53 | in a complete clone, an entry referring to a recorded container refers to that container's recorded clone, so cycles carry over |
| Objects.SharingKept | src/object/index.js:40-42 | two entries referring to the same source container refer to the same clone, so sharing carries over |
| Objects.ShallowCopy | src/object/index.js:10 | an array or plain object keeps its kind and its entries; the spread of any other object is an empty object |
| Objects.Heap.ShallowClone | src/object/index.js:6-11 | a primitive or null is returned unchanged with the heap untouched; an object gets one new node, its shallow copy, and nothing else changes |
| Objects.Heap.DeepCloneFresh | src/object/index.js:19 | with the default empty table on a heap of source objects, the result is a clone of the argument, every recorded clone is complete, and the source objects are unchanged; on a heap without `Set`s and `Map`s and with fuel at least the number of source objects, there is a result |
| Objects.Heap.DeepClone | src/object/index.js:19-64 | a primitive or null is returned as it is; a Date or RegExp gets one new node with the same time, or pattern and flags; a Set or Map gets a new one whose members are clones, at any depth, Map keys kept; a recorded container gives its recorded clone; any other result is a new object; in every case the result is a clone, the clones recorded by the call are complete, and source objects are unchanged; without `Set`s and `Map`s, fuel covering the unrecorded objects gives a result |
| Objects.Heap.CloneCollection | src/object/index.js:32-35 | a new Set of the cloned elements, or a new Map with the same keys and cloned values, allocated last |
| Objects.Heap.CloneAll | src/object/index.js:33-35 | `[...obj].map(item => deepClone(item, hash))`: each member cloned in order, sharing the table |
| Objects.Heap.CloneMember | src/object/index.js:33-35 | `item => deepClone(item, hash)` on the next member extends the cloned members by one |
| Objects.Heap.CopyContainer | src/object/index.js:44-63 | an unrecorded array or object gets a new clone, recorded for it in the table, and that clone and every clone recorded meanwhile is complete |
| Objects.Heap.CopyEntry | src/object/index.js:59 | `copy[key] = deepClone(obj[key], hash)` extends the filled part of the copy by one entry |
| Objects.EntryCopied | src/object/index.js:59 | once written, the clone of entry i extends the filled part by one entry and keeps the invariant of the loop |
| Objects.ProgressFromFilling | src/object/index.js:53-61 | the loop's invariant gives the progress the call promises: the source is unchanged and the table only grows |
| Objects.Pairs | src/object/index.js:35 | the pairs of a new Map have the original keys and the cloned values |
| Objects.Finished | src/object/index.js:55-63 | once every entry is written, the recorded clone is complete too |
| Objects.ExtendsCard | src/object/index.js:53 | the table only grows in size |
| Objects.KeysFewer | src/object/index.js:44-53 | a table of source objects that lacks one of them has fewer entries than there are source objects |
| Objects.Heap.constructor | src/object/index.js:19-64 | the heap starts with the given objects |
| Objects.Heap.Alloc | src/object/index.js:44-53 | a new object goes at the end of the heap, and its reference is the old length |
| Random.Pick | src/random/index.js:19 | `Math.floor(Math.random() * n)` lies in 0..n-1 |
| Random.GetRandomString | src/random/index.js:9-24 | a non-number is refused with "args must be a number"; no argument gives 10 characters; a number n gives max(n, 0) characters; the i-th character is the alphabet character at draw i, so every character is from the alphabet |
| Random.GetRandomBinary | src/random/index.js:275-289 | a non-number or a number at most 0 is refused with "Length must be a positive number."; NaN passes the guard and gives ""; otherwise exactly `length` characters, each '0' or '1' from its own draw |
| Random.GetRandomHex | src/random/index.js:297-311 | the same guard; otherwise exactly `length` lower-case hexadecimal digits, each from its own draw |
| Random.GetRandomBool | src/random/index.js:126-130 | true exactly for a draw in the lower half |
| Random.GetRandomBoolBoth | src/random/index.js:126-130 | a draw one higher gives the other answer, so both occur |
| Random.HexString | src/random/index.js:143 | `n.toString(16)` is a non-empty run of lower-case hexadecimal digits, with no leading zero, whose value is n |
| Random.HexStringLength | src/random/index.js:143 | below 16^k it has at most k digits |
| Random.Power16 | src/random/index.js:143 | a power of 16 is at least 1 |
| Random.RadixLeadingZeros | src/random/index.js:143 | `padStart(6, "0")` does not change the hexadecimal value |
| Random.GetRandomColor | src/random/index.js:137-144 | '#' and six lower-case hexadecimal digits whose value is the draw among 0xFFFFFF outcomes |
| Random.ColorDigits | src/random/index.js:143 | for a value below 0x1000000, '#' and six hexadecimal digits with that value |
| Random.ColorNeverWhite | src/random/index.js:140 | "#ffffff" is never produced |
| Random.WhiteValue | src/random/index.js:143 | "ffffff" has the value 0xFFFFFF and is what `toString(16)` writes for it |
| Random.GetRandomColorFull | src/random/index.js:138-143 | with 0x1000000 outcomes: '#' and six hexadecimal digits whose value is the draw |
| Random.ColorFullCovers | src/random/index.js:138-143 | with 0x1000000 outcomes every colour value, white included, is drawn for some draw |
| Random.UuidDigit | src/random/index.js:155-159 | the callback digit is hexadecimal, and for 'y' it is 8, 9, a or b |
| Random.FillTemplate | src/random/index.js:152-160 | the replacement keeps the length and every character but 'x' and 'y'; each 'x' or 'y' becomes a hexadecimal digit, each 'y' one of 8, 9, a, b |
| Random.UuidLayout | src/random/index.js:151-161 | `getRandomUUID` has the RFC 4122 version-4 layout: 36 characters, hyphens at 8, 13, 18 and 23, '4' at 14, one of 8, 9, a, b at 19, hexadecimal digits elsewhere |
| Random.TemplateShape | src/random/index.js:152 | where the template has its fixed characters and its 'x' and 'y' slots |
| Random.FillLayout | src/random/index.js:152-160 | any filling of a template of that shape has the version-4 layout |
| Random.UuidVariantDigits | src/random/index.js:158 | each of the four variant digits occurs |
| Random.Swap | src/random/index.js:189 | exchanging two positions swaps those two elements, keeps the rest and permutes the sequence |
| Random.Shuffle | src/random/index.js:182-190 | whatever the draws, the swap loop from the last position down to 1 keeps the length and permutes the sequence (`Random.ShuffleArray` names it) |
| Random.SwapPasses | src/random/index.js:182-190 | the passes from the last position down to 1, each swapping position i with one below or at it picked by the pass's own draw, `rand(\|s\| - 1 - i) % (i + 1)`, keep the length and the multiset |
| Random.SwapPermutes | src/random/index.js:189 | one exchange of two positions permutes the sequence |
| Random.ShuffleInPlace | src/random/index.js:182-190 | the loop on the copied array leaves in it exactly the shuffle of its old contents |
| Random.ShuffleArray | src/random/index.js:169-193 | a non-array is refused with "Input must be an array"; otherwise a new array (the `slice()` copy) holding the result of the swap loop, a permutation of the input |
| Random.NumberOr | src/random/index.js:32-36 | a default for `undefined`, then `Number`, gives a number or NaN |
| Random.GetRandomNum | src/random/index.js:32-58 | an error with "Both arguments must be numbers or numeric strings" exactly when a bound reads as NaN; otherwise a value between the smaller and the larger bound, offset from the smaller by the draw |
| Random.DrawBetween | src/random/index.js:40-57 | the NaN error exactly when a bound is NaN |
| Random.Between | src/random/index.js:46-57 | a value between the smaller and the larger bound, offset from the smaller by the draw modulo the size of the range |
| Random.GetRandomNumSymmetric | src/random/index.js:46-53 | since reversed bounds are swapped, the order of given bounds does not matter |
| Random.GetRandomNumCovers | src/random/index.js:57 | every value of the range is produced by some draw |
| Random.GetRandomElement | src/random/index.js:105-119 | undefined for a non-array or an empty array; otherwise an element of the array, the one at the draw |
| Random.ObjectValues | src/random/index.js:255 | `Object.values`: a TypeError exactly for null and undefined; one value per own enumerable key: the elements of an array, the characters of a string, the values of an object's fields |
| Random.FieldValues | src/random/index.js:255 | the value of each field, in order |
| Random.GetRandomEnum | src/random/index.js:252-267 | a TypeError for null and undefined; "The enumeration cannot be empty." when there are no values; otherwise `Object.values(enumType)[rand(0) % n]` for the `n` own keys |

## Left out

- `getRandomFloat`, `getRandomDate` and `getRandomTimestamp` (src/random/index.js:68-96, 202-244) are not modelled. Their results are floating-point numbers, and the model's numbers are integers.
- The `getRandomNum` of src/number.js:270-273 is not modelled. It has no body beyond its comment.
- The `sortArrayByProperty` of src/array.js is not modelled. It calls a `deepCopy` that the file neither defines nor imports, so every call throws.
- The `formatAMPM` of src/date.js:47-51 is not modelled on its own. It is the same function as the one in src/date/index.js, which `Dates.FormatAMPM` models.
- Numbers are integers plus `NaN`. Fractions, `Infinity`, `-0` and 64-bit rounding are not modelled. `Values.ToNumber` reads a numeral with a fraction or an exponent as `NaN`.
- Dates are read in UTC. Time zones and daylight saving are not modelled.
- The string parser of `new Date(string)` is a parameter, so which strings it accepts is not modelled.
- `Math.random()` and the clock are parameters. The k-th draw is `rand(k)`, and the model says nothing about how the draws are distributed.
- The month walk of `calculateMonthsYearsDifference` stops after `fuel` passes with `None`. The walks that never end are identified by the `MonthWalk` stall lemmas; for the others the model does not bound how many passes they take.
- Values.SetFieldKeys: keys are listed in the order they were first added. ECMAScript's `OrdinaryOwnPropertyKeys` (section 10.1.11.1 of ECMA-262) lists integer-like keys first, in ascending order. That order is not modelled, so `Object.keys` in `deepCompare`, the `for…in` of `deepClone` and `Object.values` in `getRandomEnum` follow insertion order for such keys as well.
- Strings are sequences of code points, not of UTF-16 code units. `<` on strings, `length`, `padStart`, `split("")` and `Object.values` of a string therefore differ from JavaScript for characters outside the Basic Multilingual Plane.
- Arrays.SortWith: for a comparator that section 23.1.3.30 of ECMA-262 calls not consistent (keys such as "10", "2" and 5, which `<` does not order transitively), the sort order is implementation-defined. The model's order is that of its insertion sort, and only "a permutation of the input" and stability are stated for it.
- Arrays.SortArrayByProperty: an `order` object with its own `toLowerCase` method is not modelled. The model throws a `TypeError` for any `order` that is not a string.
- DateRanges.GetBeforeOrAfterDate: `n` is an integer. An omitted `n` is modelled by passing its default 0; an `n` that is not a number is not modelled.
- Numbers.ConvertNumberToWords: `num` is an integer. `NaN`, which passes the range guard and gives "", and fractions are not modelled.
- Objects.Heap.DeepClone: the guarantee that there is a result is stated only for heaps without `Set`s and `Map`s, whose members' nesting the fuel also has to cover.
- Objects.Heap.DeepClone: nesting of `Set`s, `Map`s and unrecorded objects deeper than `fuel` gives `None` instead of a clone.
- Objects.Heap.DeepClone: a rebuilt `Set` is the list of its members' clones. The removal of duplicates that `new Set` performs is not applied to it.
- Prototypes are not modelled. Every object other than an array, a `Date`, a `RegExp`, a `Set` or a `Map` is a plain object.
- A `RegExp`'s `lastIndex` is not modelled. The same holds for an array's holes and for extra properties set on an array.
- `console.warn` and `console.log` are not modelled. Only the value returned next to them is.
- `DateRanges.ParseInt` reads decimal digits only. The `0x` prefix, which `parseInt` reads as hexadecimal, is not modelled.
- Case mapping in `Text.Lower` and `Text.Upper` covers ASCII letters only.
- DatesLegacy.LegacyTwelveHour is stated for integer hours only. Fractional hours are outside the integer model.
- Arrays.SortArrayByProperty: the source copies the input with `deepClone` before sorting. In this model the new array holds the same items, and the item copies are left to `Objects.Heap.DeepClone`.
- Arrays.SortArrayByProperty: with keys that are not comparable (such as `NaN` next to numbers), only "a permutation of the input" is stated. `Array.prototype.sort` leaves the order implementation-defined there.
- Numbers.SeparateNumberByThousands: a function given as the separator, which `replace` would call for each match, is not modelled. Any other value is converted with `String`, and `$` patterns in it are expanded as the GetSubstitution operation of ECMA-262 describes.
- Strings.CountChars: the counts are a map from characters, so the key order of the returned object (integer-like keys first, then insertion order) is not stated. `str` is a string: the TypeError for `null` and `undefined`, and the counting of an array's elements, are not modelled.
- Objects.Put: only the case of a key the copy does not have yet is stated. That is the only case `deepClone` reaches.

## Findings

| source | as written | input that shows it | evidently intended | confidence | as-written member | corrected member |
|---|---|---|---|---|---|---|
| src/utils.js:65-79 | `deepCompare` checks the keys of the first value with `hasOwnProperty` on the second, and an array owns `length` | `deepCompare({length: 1}, [5])` is true, while `deepCompare([5], {length: 1})` is false | a deep equality that is symmetric and never equates an array with a plain object | not executed | Utils.DeepCompareAsymmetric | Utils.DeepEqualSymmetric |
| src/date/index.js:192-219 | the loop steps the cursor a month on and, unless it is then on a 1st, back to the previous month's end with `setDate(0)`; from a day after the 1st of a month whose last day the next month also has, the cursor settles on that last day and stays | `calculateMonthsYearsDifference(new Date(2024, 0, 15), new Date(2024, 5, 1))` goes to January 31 (February 15, then `setDate(0)`), then February 29 (March 2, then `setDate(0)`), and from there back to February 29 on every pass, so it never returns | the number of whole months from the start to the end, split into years and months | not executed | MonthWalk.JanuaryStalls | MonthWalk.WholeMonthsBracket |
| src/random/index.js:140 | `Math.floor(Math.random() * 0xffffff)` gives 0 to 0xfffffe | no draw gives "#ffffff", although the comment promises 0x000000 to 0xFFFFFF | `Math.floor(Math.random() * 0x1000000)` | not executed | Random.ColorNeverWhite | Random.ColorFullCovers |
| src/utils.js:16 | inside `if (a === b)`, which `NaN` never passes, `a !== a && b !== b` cannot hold | `deepCompare(NaN, NaN)` is false, while the comment above that line and the package's test expect true | start with SameValueZero, so that `NaN` equals `NaN` | not executed | Utils.DeepCompareNaN | Utils.DeepEqualNaN |
| src/date/index.js:126 | `options.unit.toLowerCase()` is called with no default for the unit | `calculateDateDifference({startDate: "2024-01-01", endDate: "2024-01-02"})` throws a TypeError, while the documentation at line 94 gives `'days'` as the default | read a missing unit as "days" | not executed | DateDifference.OmittedUnitThrowsOnOptions | DateDifference.DefaultUnitIsDays |
