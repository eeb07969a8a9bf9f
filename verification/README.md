# dateop in Dafny

A model of the `dateop` Go package: a small, pure calendar-arithmetic
module over a `Date{Year, Month, Day}` value. It covers the leap-year rule
(`isLeap`), the month-length table (`getDate`, `Date.GetDate`,
`Date.IsLeap`), the three-way comparator `Compare`, the closed-form day
count `Interval` with its leap-year stride scan, the weekday lookup `Week`
relative to "today", and the month grid of `PrintCalendar`.

`Compare`, `Interval` and `Week` are judged against one reference, built in
`daynumber.dfy` only from the leap rule and the month lengths: the absolute
day number of a date (`DayNumbers.DayNumber`), with years and months added
one at a time. The leap test is judged against the Gregorian rule
(`GregorianLeap`), the month lengths against the month-length rule, and the
calendar grid against the row layout `Rows`.

Files and modules:

- `dates.dfy` (`Dates`): the `Date` datatype, the month and weekday-name
  tables, Go's truncated remainder `GoRem`, `IsLeap`, `DaysInMonth`,
  `Compare`. `Date.MonthLength` and `Date.InLeapYear` are the one-line
  `GetDate`/`IsLeap` methods.
- `daynumber.dfy` (`DayNumbers`): year lengths, leap-year counts (year by
  year, and the closed form `y/4 - y/100 + y/400`), month sums, day numbers.
- `interval.dfy` (`Intervals`): `Interval` as a function, `ComputeInterval`
  and `CountLeapYears` statement by statement with their loops, and the
  intended `CorrectedInterval`.
- `week.dfy` (`Weekdays`): `WeekIndex`/`Week` and the intended
  `CorrectedWeekIndex`.
- `grid.dfy` (`CalendarGrid`): the calendar grid as a token sequence.

Go's `%` truncates toward zero. The leap test and the weekday arithmetic are
written with `GoRem` to match this. `GoRemZeroIffDivisible` shows that the
leap test's zero checks mean plain divisibility for negative years too.

Inputs on which the Go code would panic are preconditions:

- `DaysInMonth` needs a month in `0..12`, the bounds of the 13-slot table.
  Slot 0 holds 0.
- `IntervalSafe` asks exactly that of `Interval`. The earlier date's month
  must be in `0..12`. The later date's month must be at most 13.
- `WeekDefined` asks the same, plus a weekday index in range.

The calendar-truth lemmas are stated for valid dates: month `1..12`, day
`1..DaysInMonth`.

The leap scan at dateop.go:88-96 steps four years after each leap year, and
this jump never skips a leap year. After a leap year `y`, the years
`y+1..y+3` are never leap, because every leap year is a multiple of four
(`LeapYearIsolated`). So `CountLeapYears` counts every leap year strictly
between the two years, across the non-leap 1900 too. `LeapYearsClosedForm`
shows that this count equals the closed form.

## Model

| member | source | states |
|---|---|---|
| Dates.IsLeapIsGregorian | dateop.go:26-31 | The leap test, with Go's truncated `%`, holds exactly for the Gregorian leap years: divisible by 4 and not by 100, or by 400. This holds for every integer year. |
| Dates.GoRemZeroIffDivisible | dateop.go:27-30 | Go's truncated `year%4`, `year%100` and `year%400` are zero exactly on multiples of 4, 100 and 400, negative years included. |
| Dates.LeapYearIsolated | dateop.go:26-31 | The three years after a leap year are not leap. |
| Dates.LeapYearExamples | dateop.go:26-31 | 2000, 2004, 2016 and 0 are leap years. 1900, 2001, 2017 and 2018 are not. |
| Dates.DaysInMonth | dateop.go:33-38 | A month in 1..12 has 28..31 days. Table slot 0 gives 0. |
| Dates.MonthLengthRule | dateop.go:33-38 | February has 29 days exactly in a leap year and 28 otherwise. April, June, September and November have exactly 30 days, and the other seven months 31. |
| Dates.Compare | dateop.go:54-77 | The result is -1, 0 or 1. It is 0 iff all three fields are equal, 1 iff `o` lexicographically precedes `d` on (year, month, day), and -1 iff `d` precedes `o`. |
| Dates.CompareAntisymmetric | dateop.go:54-77 | `Compare(o, d) == -Compare(d, o)`. |
| Dates.CompareTransitive | dateop.go:54-77 | Two results of 1 in a chain give 1 for the ends, and likewise for -1. |
| Dates.PrecedesStrictTotalOrder | dateop.go:54-77 | The order `Compare` decides is irreflexive, transitive and asymmetric, and it relates any two distinct dates. |
| Dates.CompareExamples | dateop_test.go:27-29 | The comparator gives the three expected results for the test-table pairs. |
| DayNumbers.CompareMatchesDayNumber | dateop.go:54-77 | On valid dates, `Compare` is the sign of the difference of absolute day numbers. |
| DayNumbers.LeapYearsClosedForm | dateop.go:88-96 | Counting the leap years of a range one year at a time gives `L(hi-1) - L(lo-1)` with `L(n) = n/4 - n/100 + n/400`. |
| Intervals.CountLeapYears | dateop.go:88-96 | The four-year-stride scan returns the number of leap years strictly between the two years. It skips none, across non-leap centuries too. |
| Intervals.SumMonthsAfter | dateop.go:101-103 | The loop over the months after the earlier date's month adds up exactly the lengths of those months, through December. |
| Intervals.SumMonthsBefore | dateop.go:104-106 | The loop over the months before the later date's month adds up exactly the lengths of those months, from January. |
| Intervals.ComputeOrderedInterval | dateop.go:88-107 | After the swap, the statements compute the source formula: the leap scan, the year-gap term, the partial month and both month loops. |
| Intervals.ComputeInterval | dateop.go:80-108 | Equal dates give 0, and an earlier receiver swaps the arguments once. The result is the functional `Interval`. |
| Intervals.IntervalSymmetric | dateop.go:80-86 | Argument order does not matter. The swap runs at most once and needs nothing beyond the original inputs. |
| Intervals.IntervalSelf | dateop.go:81-83 | The interval from a date to itself is 0. |
| Intervals.IntervalCharacterization | dateop.go:97-107 | On valid dates, the result is the true distance in days, plus 1 when the two dates differ but share a leap year. |
| Intervals.IntervalNonNegative | dateop.go:80-108 | On valid dates, the result is at least 0. |
| Intervals.IntervalMatchesCalendar | dateop.go:97-107 | Across different years, or within one common year, the result is exactly the distance in absolute day numbers. |
| Intervals.IntervalSameLeapYearOverCounts | dateop.go:98 | For two different dates in the same leap year, the result is one day more than the true distance. |
| Intervals.IntervalLeapYearCounterexample | dateop.go:98-106 | From 2016-03-01 to 2016-03-02 the result is 2, while the true distance is 1. |
| Intervals.IntervalExample1997 | dateop_test.go:44-45 | From 1997-02-28 to 2018-03-28 is 7698 days, in both argument orders. |
| Intervals.IntervalExample1969 | dateop_test.go:46 | From 1969-05-20 to 2016-05-04 is 17151 days. |
| Intervals.IntervalExample1800 | dateop_test.go:47 | From 1800-11-11 to 2018-03-28 is 79395 days, across the non-leap year 1900. |
| Intervals.CorrectedIntervalIsDistance | dateop.go:97-107 | The intended count subtracts the year's own length in the same-year case. It is the true distance for every pair of valid dates. It differs from the source only in the same-leap-year case. |
| Weekdays.WeekIndexInRange | dateop.go:111-125 | For valid dates and a clock weekday in 0..6, the chosen index lies in 0..6, so the name lookup never panics. |
| Weekdays.WeekOfToday | dateop.go:117-118 | On today itself, the result is today's weekday name `days[w]`. |
| Weekdays.WeekOfLaterDate | dateop.go:119-120 | A later date gets its true weekday `(w + distance) mod 7`, unless it shares a leap year with today. |
| Weekdays.WeekOfEarlierDate | dateop.go:121-123 | An earlier date, with an exact interval, gets its true weekday if and only if today's index is 3, a Wednesday. |
| Weekdays.WeekOfLaterDateInLeapYear | dateop.go:119-120 | A later date in today's own leap year gets the weekday one past its true one, because the interval is one day over. |
| Weekdays.EarlierFormulaOverIff | dateop.go:122 | For every step `m >= 0`, `6 - (w + (m + 1) % 7) % 7` equals `(w - m) mod 7` exactly when `w == 6`. |
| Weekdays.WeekOfEarlierDateInLeapYear | dateop.go:121-123 | An earlier date in today's own leap year gets its true weekday if and only if today's index is 6, a Saturday. |
| Weekdays.EarlierFormulaIff | dateop.go:122 | For every step `n >= 0`, `6 - (w + n % 7) % 7` equals `(w - n) mod 7` exactly when `w == 3`. |
| Weekdays.WeekEarlierCounterexample | dateop.go:122 | On Thursday 2018-03-29, the day before comes out as Monday instead of Wednesday. |
| Weekdays.WeekExamples2018 | dateop_test.go:61-63 | With today Wednesday 2018-03-28: that date is Wednesday, 2018-04-30 is Monday and 2018-03-01 is Thursday. |
| Weekdays.WeekExample1997 | dateop_test.go:64 | With today Wednesday 2018-03-28, 1997-02-28 is Friday. |
| Weekdays.WeekExample1972 | dateop_test.go:65 | With today Wednesday 2018-03-28, 1972-03-28 is Tuesday. |
| Weekdays.WeekExample2030 | dateop_test.go:66 | With today Wednesday 2018-03-28, 2030-03-28 is Thursday. |
| Weekdays.CorrectedWeekIsTrue | dateop.go:111-125 | The intended index uses the exact interval and steps backward for earlier dates. It is the true weekday for every pair of valid dates. |
| CalendarGrid.EmitGrid | dateop.go:133-144 | The two loops write `f` blank cells, then the days 1..n. A line break follows every seventh cell, counted from the first blank. The result is the reference layout `Rows` of those cells. |
| CalendarGrid.PrintCalendar | dateop.go:128-146 | The output is the header, then the grid of the month's cells (`f` blanks, then 1..month length) in rows of seven, then two line breaks. |
| CalendarGrid.PrintCalendarFromClock | dateop.go:131-132 | The grid whose leading blanks number the weekday `Week` gives for the month's first day. |
| CalendarGrid.RowsLayout | dateop.go:137-144 | The row layout keeps every cell in order and adds `cells / 7` breaks. A break sits exactly at output positions 7, 15, 23, and so on, after every seventh cell. |
| CalendarGrid.PrintedMonth | dateop.go:128-146 | A printed month starts with the header. Without its breaks it is the blanks followed by 1..days. Its length is `3 + cells + cells / 7`, and it ends in a blank line. |
| CalendarGrid.March2018 | dateop_test.go:82 | March 2018 starts on weekday 4, a Thursday. The grid shows four blanks, then 1; 31 closes the fifth full row. |

## Findings

| source | as written | input that shows it | evidently intended | confidence | as-written member | corrected member |
|---|---|---|---|---|---|---|
| dateop.go:98 | The year-gap term is always `(d.Year-o.Year-1)*365`, so the same-year case subtracts 365 even when the partial sums span a 366-day year | 2016-03-01 and 2016-03-02 give 2 | The same-year case subtracts the year's own length and gives the true distance, 1 | high; not executed | Intervals.IntervalLeapYearCounterexample | Intervals.CorrectedIntervalIsDistance |
| dateop.go:122 | An earlier date's weekday index is `6 - (w + k) % 7` | Today Thursday 2018-03-29 (`w = 4`) and the date 2018-03-28 give Monday | A backward step of `k` days, `(w + 7 - k) % 7`, giving Wednesday | high; not executed | Weekdays.WeekEarlierCounterexample | Weekdays.CorrectedWeekIsTrue |

Finding 1 also affects `Week`, and through it `PrintCalendarFromClock` for the months of today's year when that year is a leap year. A later date in today's leap year gets the weekday after its true one (`WeekOfLaterDateInLeapYear`). An earlier date in today's leap year gets its true weekday exactly when today is a Saturday (`WeekOfEarlierDateInLeapYear`).

## Left out

- The wall clock: `time.Now()` and `now.Weekday()` (dateop.go:112-115) are non-deterministic. `today` and its weekday index `w` are parameters of `Week`, `WeekIndex` and `PrintCalendarFromClock`.
- Output: the `fmt.Print*` writes of `PrintCalendar` are I/O. The model returns the written tokens: `Header` for the header line, `Blank` for a tab cell, `Num(n)` for `"%d\t"`, and `Newline`. The characters of the header and of the decimal numbers are not modelled.
- `String()` (dateop.go:148-150) is diagnostic decimal formatting through `fmt.Sprintf`, so it is not modelled.
- `daysIndexMap` (dateop.go:22-24, 132) only inverts the weekday-name table. The model uses the weekday index directly.
- Panics are not modelled as behaviour. Out-of-range table indexing is excluded by the preconditions `MonthIndexable`, `IntervalSafe` and `WeekDefined`.
- Go's 64-bit `int` is modelled as an unbounded integer, so overflow on astronomically distant years is not modelled.
- The test helper `getInterval` (dateop_test.go:11-19) relies on floating-point time arithmetic. Its cases appear only as concrete expected values in the example lemmas.
- The weekday lemmas are stated about the index that `Week` looks up in the name table. `Week` returns `DayNames` at that index.
