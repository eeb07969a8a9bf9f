/**
 The reference calendar the interval and weekday code is judged against: an
 absolute day number built only from `IsLeap` and `DaysInMonth`, year by year
 and month by month. Nothing here is in `dateop.go`; it is the calendar truth
 the Go code's closed-form arithmetic is meant to reproduce.
 */
module DayNumbers {
  import opened Dates

  /** Days in a whole year. */
  function YearLength(year: int): int
  {
    if IsLeap(year) then 366 else 365
  }

  /** The number of leap years `y` with `lo <= y < hi`, counted one year at a time. */
  function LeapYearsIn(lo: int, hi: int): (r: nat)
    decreases hi - lo
    ensures r <= if hi <= lo then 0 else hi - lo
  {
    if hi <= lo then 0 else LeapYearsIn(lo, hi - 1) + (if IsLeap(hi - 1) then 1 else 0)
  }

  /** The usual closed-form leap count: multiples of 4, minus multiples of 100,
      plus multiples of 400, among 1..n (floor division, so any sign works). */
  function LeapsThrough(n: int): int
  {
    n / 4 - n / 100 + n / 400
  }

  lemma LeapsThroughStep(n: int)
    ensures LeapsThrough(n) - LeapsThrough(n - 1) == if IsLeap(n) then 1 else 0
  {
    IsLeapIsGregorian(n);
    assert n / 4 - (n - 1) / 4 == if n % 4 == 0 then 1 else 0;
    assert n / 100 - (n - 1) / 100 == if n % 100 == 0 then 1 else 0;
    assert n / 400 - (n - 1) / 400 == if n % 400 == 0 then 1 else 0;
  }

  /** The year-by-year count agrees with the closed form on every range. */
  lemma {:induction false} LeapYearsClosedForm(lo: int, hi: int)
    requires lo <= hi
    ensures LeapYearsIn(lo, hi) == LeapsThrough(hi - 1) - LeapsThrough(lo - 1)
    decreases hi - lo
  {
    if hi > lo {
      LeapYearsClosedForm(lo, hi - 1);
      LeapsThroughStep(hi - 1);
    }
  }

  /** Sum of the lengths of months `first .. last - 1` of `year`: what the
      Go code's month loops accumulate. */
  function MonthsSum(year: int, first: int, last: int): (r: int)
    requires 0 <= first && last <= 13
    decreases last - first
    ensures r >= 0
    ensures first < last ==> r >= DaysInMonth(year, last - 1)
  {
    if last <= first then 0 else MonthsSum(year, first, last - 1) + DaysInMonth(year, last - 1)
  }

  lemma {:induction false} MonthsSumSplit(year: int, a: int, b: int, c: int)
    requires 0 <= a <= b <= c <= 13
    ensures MonthsSum(year, a, c) == MonthsSum(year, a, b) + MonthsSum(year, b, c)
    decreases c - b
  {
    if c > b {
      MonthsSumSplit(year, a, b, c - 1);
    }
  }

  /** The twelve months add up to the year's length. */
  lemma YearLengthIsMonthsSum(year: int)
    ensures MonthsSum(year, 1, 13) == YearLength(year)
  {
    assert MonthsSum(year, 1, 2) == 31;
    assert MonthsSum(year, 1, 3) == 31 + DaysInMonth(year, 2);
    assert MonthsSum(year, 1, 4) == 62 + DaysInMonth(year, 2);
    assert MonthsSum(year, 1, 5) == 92 + DaysInMonth(year, 2);
    assert MonthsSum(year, 1, 6) == 123 + DaysInMonth(year, 2);
    assert MonthsSum(year, 1, 7) == 153 + DaysInMonth(year, 2);
    assert MonthsSum(year, 1, 8) == 184 + DaysInMonth(year, 2);
    assert MonthsSum(year, 1, 9) == 215 + DaysInMonth(year, 2);
    assert MonthsSum(year, 1, 10) == 245 + DaysInMonth(year, 2);
    assert MonthsSum(year, 1, 11) == 276 + DaysInMonth(year, 2);
    assert MonthsSum(year, 1, 12) == 306 + DaysInMonth(year, 2);
  }

  /** Day number of the last day of the year before `year`; year 0 starts at day 1. */
  function YearStart(year: int): int
    decreases if year >= 0 then year else -year
  {
    if year == 0 then 0
    else if year > 0 then YearStart(year - 1) + YearLength(year - 1)
    else YearStart(year + 1) - YearLength(year)
  }

  lemma YearStartStep(year: int)
    ensures YearStart(year + 1) == YearStart(year) + YearLength(year)
  {
  }

  /** Whole years between two year starts: 365 each plus one per leap year. */
  lemma {:induction false} YearStartDiff(a: int, b: int)
    requires a <= b
    ensures YearStart(b) - YearStart(a) == 365 * (b - a) + LeapYearsIn(a, b)
    decreases b - a
  {
    if b > a {
      YearStartDiff(a, b - 1);
      YearStartStep(b - 1);
    }
  }

  /** The absolute day number of a date: days in all earlier years, in earlier
      months of its year, and its day of the month. */
  function DayNumber(d: Date): int
    requires MonthIndexable(d.month)
  {
    YearStart(d.year) + MonthsSum(d.year, 1, d.month) + d.day
  }

  /** A valid date lies inside its own year's block of day numbers. */
  lemma DayNumberWithinYear(d: Date)
    requires d.Valid()
    ensures YearStart(d.year) < DayNumber(d) <= YearStart(d.year + 1)
  {
    MonthsSumSplit(d.year, 1, d.month, d.month + 1);
    MonthsSumSplit(d.year, 1, d.month + 1, 13);
    YearLengthIsMonthsSum(d.year);
    YearStartStep(d.year);
  }

  /** Lexicographically earlier valid dates have smaller day numbers. */
  lemma PrecedesMeansEarlierDay(a: Date, b: Date)
    requires a.Valid() && b.Valid()
    requires Precedes(a, b)
    ensures DayNumber(a) < DayNumber(b)
  {
    if a.year < b.year {
      DayNumberWithinYear(a);
      DayNumberWithinYear(b);
      YearStartDiff(a.year + 1, b.year);
    } else if a.month < b.month {
      MonthsSumSplit(a.year, 1, a.month, a.month + 1);
      MonthsSumSplit(a.year, 1, a.month + 1, b.month);
    }
  }

  /** On valid dates, the comparator is the sign of the day-number difference. */
  lemma CompareMatchesDayNumber(d: Date, o: Date)
    requires d.Valid() && o.Valid()
    ensures Compare(d, o) == 1 <==> DayNumber(d) > DayNumber(o)
    ensures Compare(d, o) == 0 <==> DayNumber(d) == DayNumber(o)
    ensures Compare(d, o) == -1 <==> DayNumber(d) < DayNumber(o)
  {
    if Precedes(d, o) {
      PrecedesMeansEarlierDay(d, o);
    } else if Precedes(o, d) {
      PrecedesMeansEarlierDay(o, d);
    }
  }
}
