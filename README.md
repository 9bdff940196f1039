# Silte calendar: date arithmetic, month grid and converters

A Dafny model of the calendar core of the Silte-Calendar web page. The page
shows a month of a Geez-style calendar: twelve 30-day months and a
thirteenth month of 5 days (6 when `year % 4 == 3`). Every date is tied to
an integer day number.

The model has five modules:

- `GeezDates` (`geez_date.dfy`) is the date value of `GeezDate.js`: validation, the factory `of`, the two
  day-number conversions `toJdn` and `jdnToGeez`, `plusDays`, `plusYears`,
  `dayOfWeek`, `dayOne`, and the whole-day part of `toGregorian`, `from` and `now`.
  - Its round-trip lemmas tie the two conversions together, and its cycle lemmas
    give the length of a year and of the 4-year leap cycle.
  - It also keeps the original floating-point arithmetic, which is where the
    first two findings come from.
- `Calendar` (`calendar.dfy`) is `showMonth` of `Calendar.js`. It is a method
  that walks 42 days one at a time, as the original loop does, and returns the
  cells as data instead of HTML.
  - The lemmas say what the grid is: consecutive days from the weekday-0 day on
    or before the given date; one block holding the days of the month; weekend
    columns; at most one "today" cell.
- `Navigation` (`navigation.dfy`) holds the page state of `script.js`: the
  displayed year `y` and month `m`.
  - `MonthCursor` is the class whose `NextMonth` and `PrevMonth` update it and
    re-render. `Next` and `Prev` are the specification functions; they are
    proved inverse to each other.
- `SecondCalendarTable` (`second_calendar_table.dfy`) is `toSecondCalendarDate`
  of `script.js`. It is a table-driven converter from Gregorian dates to the
  second calendar: the model as written, the date ranges where it goes wrong,
  and a corrected version.
- `SecondCalendarDate` (`second_calendar_date.dfy`) is `toEthiopianDate` of
  `secondCalendarDate.js`. It is proved equal, on every real Gregorian month and
  day, to an independent "day count from 10 September" definition.

Choices made when building the model:

- Integer division and remainder are Dafny's Euclidean ones. From day number
  `JOffset` on (years from 0 on) they are the same as the truncating operators of
  JavaScript.
- The clock is not read. "Today" is a parameter of the grid, and the moment of
  `now`/`from` is reduced to a whole number of days since 1 January 1970.
- The model follows the code in these details, which are easy to misread:
  - A cell of the grid belongs to the shown month when its month number equals
    the shown month. The year is not compared (`Calendar.js:38`).
    `Calendar.MonthBlock` proves that this is enough for a grid built from day 1
    of a month.
  - A cell is a weekend by its column `i % 7`, not by the weekday of its date.
    `Calendar.ColumnIsWeekday` proves that the two agree.
  - `dayOne` is `(julianDay - dayOfMonth) % 7`. This is the weekday of day 1 of
    the month moved back by two, not that weekday itself
    (`GeezDates.DayOneAgainstDayOfWeek`).
  - The weekday is `(julianDay + 1) % 7`: what `Math.round((julianDay + 0.5) % 7) % 7`
    gives for whole non-negative day numbers.
  - The offset `JOffset` is the day number of month 1, day 1 of year 0, not of
    year 1.

## Model

| member | source | states |
|---|---|---|
| `GeezDates.ValidateDate` | GeezDate.js:43-49 | accepted exactly when the day does not exceed the month's length (30, or 6/5 for month 13 by the leap rule) |
| `GeezDates.MaxDate` | GeezDate.js:67-73 | a month length between 5 and 30, and 30 exactly for months other than 13 (`ValidateDate` accepts exactly the days up to it) |
| `GeezDates.Validate` | GeezDate.js:23-41 | accepted exactly when 1 <= month <= 13 and 1 <= day <= the month's length; an accepted day is at most 30, and at most 6 in month 13 |
| `GeezDates.Construct` | GeezDate.js:6-21 | yields a date exactly when validation accepts, and then stores the five arguments unchanged |
| `GeezDates.Of` | GeezDate.js:108-112 | yields a date exactly when validation accepts; the date keeps year, month and day and has matching day of year and day number |
| `GeezDates.JdnToGeez` | GeezDate.js:79-87 | for every integer day number, a valid date whose day number is that number |
| `GeezDates.JdnToGeezFields` | GeezDate.js:80-85 | the year, month and day computed from the 1461-day cycle form a valid date whose day number is the input |
| `GeezDates.ToJdn` | GeezDate.js:89-91 | definition only, with floor(year / 4) for the leap days; its meaning is stated by `ToJdnInjective`, the two round trips, `YearLength` and `FourYearCycle` |
| `GeezDates.ToJdnInjective` | GeezDate.js:89-91 | two valid dates with the same day number are the same date |
| `GeezDates.ConsistentFromJdn` | GeezDate.js:79-91 | a date whose fields agree is recovered from its day number |
| `GeezDates.RoundTripFromDate` | GeezDate.js:79-112 | for a valid (year, month, day), converting to a day number and back gives the date `of` builds |
| `GeezDates.RoundTripFromJdn` | GeezDate.js:79-91 | for any day number, the date found maps back to that day number, and `of` on its fields rebuilds it |
| `GeezDates.YearLength` | GeezDate.js:89-91 | a year has 366 days when year % 4 == 3 and 365 otherwise |
| `GeezDates.FourYearCycle` | GeezDate.js:89-91 | the same month and day four years later are exactly 1461 days later |
| `GeezDates.GeezDate.PlusDays` | GeezDate.js:51-53 | a valid date whose day number is this day number plus `days` |
| `GeezDates.PlusDaysZero` | GeezDate.js:51-53 | adding zero days to a valid date gives the same date |
| `GeezDates.PlusDaysCompose` | GeezDate.js:51-53 | adding a and then b days is adding a + b days |
| `GeezDates.GeezDate.PlusYears` | GeezDate.js:55-57 | a result keeps month and day and moves the year; it fails exactly for day 6 of month 13 moved into a non-leap year |
| `GeezDates.PlusDaysFourYears` | GeezDate.js:51-57 | 1461 days later is the same month and day four years later |
| `GeezDates.GeezDate.DayOfWeek` | GeezDate.js:63-65 | a weekday in [0, 6] |
| `GeezDates.DayOfWeekAdvances` | GeezDate.js:63-65 | the next day has the next weekday, wrapping 6 to 0 |
| `GeezDates.DayOfWeekAsWritten` | GeezDate.js:64 | definition only: `Math.round((julianDay + 0.5) % 7) % 7` on reals, for non-negative day numbers |
| `GeezDates.DayOfWeekAsWrittenIsWhole` | GeezDate.js:63-65 | the original rounding formula on the real number julianDay + 0.5 gives (julianDay + 1) % 7 for every non-negative day number |
| `GeezDates.GeezDate.DayOne` | GeezDate.js:59-61 | a value in [0, 6]; for a valid date, the remainder by 7 of the day number before day 1 of its month |
| `GeezDates.DayOneMonthConstant` | GeezDate.js:59-61 | all days of one month give the same DayOne |
| `GeezDates.DayOneAgainstDayOfWeek` | GeezDate.js:59-65 | DayOne is the weekday of day 1 of the month plus 5, modulo 7 |
| `GeezDates.FromGregorianDays` | GeezDate.js:99-102 | the valid date lying the given whole number of days after 1 January 1970 |
| `GeezDates.GeezDate.ToGregorianDays` | GeezDate.js:75-77 | definition only: day number minus 2311768, the whole days of the millisecond count; `GregorianRoundTrip` proves `FromGregorianDays` inverts it |
| `GeezDates.GregorianRoundTrip` | GeezDate.js:75-77 | whole days since 1 January 1970 and back give the same valid date |
| `GeezDates.GregorianEpochDate` | GeezDate.js:1-2 | 1 January 1970 is day 8 of month 7 of year 1392 |
| `GeezDates.ToJdnAsWritten` | GeezDate.js:90 | definition only: the original formula with `year / 4` as a real division; `ToJdnAsWrittenFraction` relates it to `ToJdn` |
| `GeezDates.ToJdnAsWrittenFraction` | GeezDate.js:89-91 | the original day number, with its real division, exceeds the integer one by (year % 4) / 4 |
| `GeezDates.ToJdnAsWrittenNotWhole` | GeezDate.js:90 | as written, month 1, day 1 of year 1 has day number 1803518.25 instead of 1803518 |
| `GeezDates.JdnToGeezAsWritten` | GeezDate.js:79-85 | definition only: the original fields for day numbers from 1803153 on, with the year as the floor of a real sum and `Math.imul` arguments truncated; the lemmas below evaluate it |
| `GeezDates.JdnToGeezAsWrittenAtOffset` | GeezDate.js:79-86 | as written, day number 1803153 is month 1, day 1 of year 0 |
| `GeezDates.JdnToGeezAsWrittenAfterYearZero` | GeezDate.js:82 | as written, day number 1803153 + 365 also gets year 0, month 1, day 1 |
| `GeezDates.JdnToGeezAsWrittenCollides` | GeezDate.js:79-87 | as written, two different day numbers give the same date; the integer conversion gives year 0 and year 1 |
| `Calendar.ShowMonth` | Calendar.js:10-60 | 42 cells: cell i is the valid date GridStart + i; it is offset when its month differs from the shown month, otherwise weekend in columns 0 and 6 and week elsewhere; it is today exactly when day, month and year match; the view carries the shown month and year |
| `Calendar.ColumnIsWeekday` | Calendar.js:36-43 | the weekday of cell i is i % 7, so a weekend column holds exactly the weekday 0 and 6 days |
| `Calendar.CellsConsecutive` | Calendar.js:24-56 | each cell is the day after the previous one; the first row holds the given date, in the column of its weekday |
| `Calendar.SameMonthOtherYearFar` | Calendar.js:38 | the same month number in two different years is more than 41 days apart |
| `Calendar.OffsetInMonth` | Calendar.js:38-53 | a date k days after day 1 of a month, with -7 < k < 42, has that month number exactly when it lies in that month |
| `Calendar.MonthBlock` | Calendar.js:36-57 | in a grid built from day 1, the non-offset cells are exactly columns DayOfWeek to DayOfWeek + month length - 1, holding days 1, 2, ... of the month in order |
| `Calendar.MonthCovered` | Calendar.js:36-57 | every day of the shown month has its non-offset cell |
| `Calendar.TodayOnlyInMonth` | Calendar.js:44-53 | an offset cell is never today; a today cell matches today's day, month and year |
| `Calendar.TodayAtMostOnce` | Calendar.js:44-50 | at most one cell is today, and exactly one when today lies in the shown month |
| `Navigation.Next` | script.js:289-297 | a month in [1, 13] whose running count 13 * year + month is one more |
| `Navigation.Prev` | script.js:299-307 | a month in [1, 13] whose running count 13 * year + month is one less |
| `Navigation.PrevNextInverse` | script.js:289-307 | going forward then back, or back then forward, returns to the same year and month |
| `Navigation.MonthCursor.constructor` | script.js:235-237 | the page starts on the year and month of today's date |
| `Navigation.MonthCursor.Render` | script.js:240-244 | day 1 of the displayed month is a valid date, and the view is its month grid |
| `Navigation.MonthCursor.NextMonth` | script.js:289-297 | the state becomes Next of the old state and stays in [1, 13]; the view is the grid of the new month |
| `Navigation.MonthCursor.PrevMonth` | script.js:299-307 | the state becomes Prev of the old state and stays in [1, 13]; the view is the grid of the new month |
| `Navigation.NextThenPrev` | script.js:289-307 | pressing next and then previous leaves the displayed year and month unchanged |
| `SecondCalendarTable.LastMatch` | script.js:267-274 | an index within the table, when one is found |
| `SecondCalendarTable.LastMatchIsLast` | script.js:267-274 | the index found matches and no later row matches; none is found exactly when no row matches |
| `SecondCalendarTable.RowMatches` | script.js:269 | for days 1 to 31, the row's test holds exactly when the row's start, counted as 32 * month + day, is at most the input's; so it is an order test on one running count |
| `SecondCalendarTable.IsGregorianLeap` | script.js:255 | definition only: divisible by 4 and not by 100, or divisible by 400 |
| `SecondCalendarTable.GregorianLeapCycle` | script.js:255 | the Gregorian leap rule repeats every 400 years |
| `SecondCalendarTable.NewYearDay` | script.js:254-256 | the day of September on which the second calendar's year starts is 11 or 12 (12 in Gregorian leap years) |
| `SecondCalendarTable.DayFromRow` | script.js:271-272 | the day counted from the row's start, wrapped by 30; in [1, 30] for days 1 to 31 |
| `SecondCalendarTable.ToSecondCalendarDate` | script.js:246-277 | the year is fYear - 8 before the Gregorian new year (11 September, 12 in leap years) and fYear - 7 from then on; month and day are both undefined when no row matches; otherwise the month is one more than the last matching row, in [1, 13], and the day is counted from that row's start, in [1, 30] |
| `SecondCalendarTable.NoMonthInEarlyJanuary` | script.js:262-274 | for a real Gregorian month and day, no row matches (month and day stay undefined) exactly on 1 to 8 January |
| `SecondCalendarTable.LateYearIsMonthThirteen` | script.js:262-274 | as written, every date from 6 September to 31 December picks the last row, month 13 |
| `SecondCalendarTable.MidDecemberCounterexample` | script.js:262-274 | as written, 15 December gives month 13, day 10, although month 4's row starts later and also matches |
| `SecondCalendarTable.OrderedTableAgrees` | script.js:262-265 | the reordered table holds exactly the rows of the original, each with its month, in strictly increasing Gregorian order |
| `SecondCalendarTable.OrderedPicksLatestStart` | script.js:262-274 | the last matching row of the reordered table is, among all rows of the original table, the latest start on or before the date; none is found exactly when no row matches |
| `SecondCalendarTable.ToSecondCalendarDateOrdered` | script.js:246-277 | same year rule; the month is the one whose start is the latest on or before the date; the day is counted from that start, in [1, 30] |
| `SecondCalendarTable.MidDecemberOrdered` | script.js:262-274 | corrected, 15 December is day 6 of month 4 |
| `SecondCalendarDate.EthiopianOf` | secondCalendarDate.js:29-46 | a month in [1, 12] and a day in [1, 30] whose 30-day position is the day's distance from 10 September, modulo 360 |
| `SecondCalendarDate.PagumeLength` | secondCalendarDate.js:50-51 | the clamp bound is the length of month 13 that `getMaxDate` gives for that year |
| `SecondCalendarDate.ToEthiopianDate` | secondCalendarDate.js:24-57 | for a real Gregorian month and day: the reference result, with month in [1, 12], day gDay + 21 or gDay - 9, and year gYear - 8 before 10 September and gYear - 7 from then on; for any input, a month-13 day is at most the length of month 13 |
| `SecondCalendarDate.ReferenceSplit` | secondCalendarDate.js:29-41 | the reference result is the day shifted by 21 (or back by 9 with the month advanced), the month shifted by 9 and wrapped into [1, 12], and the year lowered when it wraps |
| `SecondCalendarDate.ThirtyFirstMeetsNextFirst` | secondCalendarDate.js:29-36 | the 31st of a month and the 1st of the next give the same date |
| `SecondCalendarDate.NextDayAdvances` | secondCalendarDate.js:29-41 | for every step from day 1 up to the 30th-to-31st step of a Gregorian month, the next Gregorian day gives the next day; the month and year turn over after day 30 |

## Left out

- Page output:
  - HTML markup, the header background image, the weekday header row and the month-name lookup of `showMonth` (Calendar.js:14-35, 54-55).
  - The DOM writes of `renderCalendar` (script.js:240-244).
  - The formatted date strings (script.js:279-286).
  - The view carries the month number in place of the displayed month name.
- Locale tables: the `Constants` class and its month and weekday name tables, which are display labels only.
- Page behaviour: dark-mode toggling with `localStorage`, the hamburger menu, and the initial `renderCalendar()` call. These are page wiring with no calendar logic.
- Duplicates in script.js:
  - The copy of `GeezDate` and `Calendar` at script.js:6-160 duplicates GeezDate.js and Calendar.js, which are modelled.
  - The second `nextMonth`/`prevMonth` at script.js:333-351 is identical to the first.
  - The re-declared `toggleBtn` at script.js:354 is page wiring.
- Clock and timezones:
  - `GeezDate.now` (GeezDate.js:93-97) and `Date` in `from` (GeezDate.js:99-106), together with its timezone correction, are left out. Only their whole-day part is modelled, by `GeezDates.FromGregorianDays`.
  - `toGregorian` (GeezDate.js:75-77) returns milliseconds in a `Date`. Only the whole-day count is modelled (`ToGregorianDays`).
  - The load-time `currentDate` of Calendar.js:3 is the `today` parameter.
- Logging: `console.log` and the global `message` string built by `validate` (GeezDate.js:3, 19, 24-39) are left out.
  - The constructor's failure on invalid input leaves a half-built object in the original. Here it is `None`.
- Floating point:
  - `toGregorianDate` (secondCalendarDate.js:1-22 and firstCalendarDate.js:1-22) divides by 365.25 and 30.44 in floating point. It is not part of this model.
  - `Number.isInteger` in `validate` is always true of Dafny integers, so non-integer arguments are not modelled.
- GeezDates.ToJdn, GeezDates.Of, GeezDates.JdnToGeez: `Math.imul` wraps at 32 bits, and the model uses unbounded products instead. The bound differs per member:
  - `ToJdn`, and `Of`, which uses it: `Math.imul(365, year - 1)` (GeezDate.js:90) wraps once |year - 1| exceeds 2^31 / 365, about 5.88 million years.
  - `Of`: `Math.imul(30, month - 1)` (GeezDate.js:109) wraps only for months that validation rejects anyway.
  - `JdnToGeez`: `Math.imul(4, cycles)` (GeezDate.js:82) wraps only beyond 2^29 four-year cycles, about 2.1 billion years. Its other products (GeezDate.js:81, 85) stay below 400.
- GeezDates.JdnToGeez: uses Euclidean `/` and `%`. For day numbers before `JOffset` (negative years) JavaScript truncates instead, so there the original gives different fields.
- GeezDates.IsLeapYear, GeezDates.MaxDate, GeezDates.ValidateDate, GeezDates.Validate, GeezDates.Of, GeezDates.GeezDate.PlusYears: the leap rule `year % 4 == 3` is Euclidean. In JavaScript `-1 % 4` is `-1`, so no negative year is leap there. For example, `Validate(-1, 13, 6)` holds in the model, while GeezDate.js:47 rejects it.
- GeezDates.GeezDate.DayOfWeek, GeezDates.GeezDate.DayOne: for negative day numbers the JavaScript remainder is negative, so the original can give values outside [0, 6]. The model's values stay in [0, 6].
- GeezDates.JdnToGeezAsWritten: the floating-point original is modelled only for day numbers from `JOffset` on.
- SecondCalendarTable.ToSecondCalendarDate: the `Date` comparison with the Gregorian new year is modelled on (month, day). A time of day after midnight on the new-year day compares as not before, which is what the (month, day) test gives.
- SecondCalendarTable.ToSecondCalendarDateOrdered: two things are not corrected.
  - 1 to 8 January still match no row, so month and day stay undefined there, as in the original.
  - Days are still counted in 30-day steps from the row's Gregorian start, so the 31st of a month and the 1st of the next can give the same day.
- SecondCalendarDate.ToEthiopianDate: the promise that the result depends only on the input's year, month and day holds by construction, since those three integers are the whole input.

## Findings

| source | as written | input that shows it | evidently intended | confidence | as-written member | corrected member |
|---|---|---|---|---|---|---|
| GeezDate.js:90 | `year / 4` is a real division, so the day number of any year not divisible by 4 has a fractional part | year 1, month 1, day 1 gives 1803518.25 | `floor(year / 4)`, giving 1803518 and an exact round trip with `jdnToGeez` | high (not executed) | `GeezDates.ToJdnAsWrittenNotWhole` | `GeezDates.RoundTripFromDate` |
| GeezDate.js:82 | the year is `floor(4 * cycles + r / 365 - r / 1460)` in real arithmetic, which reaches year 1 of a cycle only at r = 487 | day number 1803153 + 365 gives year 0, month 1, day 1, the same as day number 1803153 | year 1, month 1, day 1, i.e. `r / 365` in integer division except on the cycle's last day | high (not executed) | `GeezDates.JdnToGeezAsWrittenCollides` | `GeezDates.RoundTripFromJdn` |
| script.js:262-274 | the table is scanned in calendar order, starting in September, and the last matching row wins; the last row (6 September) matches every date from 6 September to 31 December | 15 December gives month 13, day 10 | the row with the latest start on or before the date: month 4, day 6 | high (not executed) | `SecondCalendarTable.MidDecemberCounterexample` | `SecondCalendarTable.ToSecondCalendarDateOrdered` |
