/**
 `Date.Interval`: the closed-form day count between two dates, its leap-year
 stride scan, and how the result relates to the reference day numbers.

 The count is exact whenever the two dates lie in different years, or in the
 same common year. When both lie in the same leap year the Go code subtracts
 365 for the "missing" year although the partial sums span 366 days, so the
 result is one day too many; `CorrectedInterval` is the intended count.
 */
module Intervals {
  import opened Dates
  import opened DayNumbers

  /** What the arithmetic of the ordered case indexes: the earlier date's month
      must be a table slot, the later date's month loop stops before slot 13. */
  predicate OrderedSafe(later: Date, earlier: Date)
  {
    MonthIndexable(earlier.month) && later.month <= 13
  }

  /** The inputs on which `Interval` runs without an index panic. */
  predicate IntervalSafe(d: Date, o: Date)
  {
    var c := Compare(d, o);
    c == 0 || (c == 1 && OrderedSafe(d, o)) || (c == -1 && OrderedSafe(o, d))
  }

  /** The Go formula once `later` is known to follow `earlier`: whole
      years between the two, plus the rest of the earlier date's year, plus
      the start of the later date's year. The leap count is the value
      `CountLeapYears` computes. */
  function OrderedInterval(later: Date, earlier: Date): int
    requires OrderedSafe(later, earlier)
  {
    (later.year - earlier.year - 1) * 365 + LeapYearsIn(earlier.year + 1, later.year)
    + earlier.MonthLength() - earlier.day + later.day
    + MonthsSum(earlier.year, earlier.month + 1, 13)
    + MonthsSum(later.year, 1, later.month)
  }

  /** The interval as `dateop.go` computes it: equal dates give 0, an earlier
      `d` swaps the arguments, and otherwise the ordered formula applies. */
  function Interval(d: Date, o: Date): int
    requires IntervalSafe(d, o)
    decreases if Compare(d, o) == -1 then 1 else 0
  {
    var c := Compare(d, o);
    if c == 0 then 0
    else if c == -1 then Interval(o, d)
    else OrderedInterval(d, o)
  }

  /** After a leap year `j`, none of the next three years adds to the count. */
  lemma {:induction false} NoLeapYearsAfter(lo: int, j: int, m: int)
    requires IsLeap(j)
    requires lo <= j + 1 <= m <= j + 4
    ensures LeapYearsIn(lo, m) == LeapYearsIn(lo, j + 1)
    decreases m - j
  {
    if m > j + 1 {
      NoLeapYearsAfter(lo, j, m - 1);
      LeapYearIsolated(j, m - 1 - j);
    }
  }

  /** The Go leap scan over the years strictly between `earlierYear` and
      `laterYear`: on a leap year count it and jump four years, else step one.
      The jump never skips a leap year, so every one of them is counted, across
      non-leap centuries too. */
  method CountLeapYears(earlierYear: int, laterYear: int) returns (leapYearsNum: int)
    ensures leapYearsNum == LeapYearsIn(earlierYear + 1, laterYear)
  {
    leapYearsNum := 0;
    var i := earlierYear + 1;
    while i < laterYear
      invariant earlierYear + 1 <= i
      invariant leapYearsNum == LeapYearsIn(earlierYear + 1, if i < laterYear then i else laterYear)
      decreases laterYear - i
    {
      if IsLeap(i) {
        leapYearsNum := leapYearsNum + 1;
        NoLeapYearsAfter(earlierYear + 1, i, if i + 4 < laterYear then i + 4 else laterYear);
        i := i + 4;
      } else {
        i := i + 1;
      }
    }
  }

  /** The first month loop: the lengths of the months after `month`, up to
      December, of `year`. */
  method SumMonthsAfter(year: int, month: int) returns (total: int)
    requires MonthIndexable(month)
    ensures total == MonthsSum(year, month + 1, 13)
  {
    total := 0;
    var i := month + 1;
    while i <= 12
      invariant month + 1 <= i <= 13
      invariant total == MonthsSum(year, month + 1, i)
    {
      total := total + DaysInMonth(year, i);
      i := i + 1;
    }
  }

  /** The second month loop: the lengths of the months of `year` before
      `month` (none when `month <= 1`). */
  method SumMonthsBefore(year: int, month: int) returns (total: int)
    requires month <= 13
    ensures total == MonthsSum(year, 1, month)
  {
    total := 0;
    var i := 1;
    while i < month
      invariant 1 <= i && (i <= month || i == 1)
      invariant total == MonthsSum(year, 1, i)
    {
      total := total + DaysInMonth(year, i);
      i := i + 1;
    }
  }

  /** The body of `Date.Interval` after the swap, statement by statement: the
      leap scan, the year-gap term, the partial month and the two month loops. */
  method ComputeOrderedInterval(later: Date, earlier: Date) returns (intervalDays: int)
    requires OrderedSafe(later, earlier)
    ensures intervalDays == OrderedInterval(later, earlier)
  {
    var leapYearsNum := CountLeapYears(earlier.year, later.year);
    intervalDays := (later.year - earlier.year - 1) * 365 + leapYearsNum;
    intervalDays := intervalDays + earlier.MonthLength() - earlier.day + later.day;
    var after := SumMonthsAfter(earlier.year, earlier.month);
    intervalDays := intervalDays + after;
    var before := SumMonthsBefore(later.year, later.month);
    intervalDays := intervalDays + before;
  }

  /** `Date.Interval` as the Go code runs it: equal dates give 0, an earlier
      `d` swaps the arguments, and otherwise the ordered body runs. It computes
      exactly the functional `Interval`. */
  method ComputeInterval(d: Date, o: Date) returns (intervalDays: int)
    requires IntervalSafe(d, o)
    ensures intervalDays == Interval(d, o)
    decreases if Compare(d, o) == -1 then 1 else 0
  {
    var c := Compare(d, o);
    if c == 0 {
      return 0;
    } else if c == -1 {
      intervalDays := ComputeInterval(o, d);
      return;
    }
    intervalDays := ComputeOrderedInterval(d, o);
  }

  /** The true number of days between two valid dates. */
  function Distance(d: Date, o: Date): nat
    requires d.Valid() && o.Valid()
  {
    if DayNumber(d) >= DayNumber(o) then DayNumber(d) - DayNumber(o)
    else DayNumber(o) - DayNumber(d)
  }

  /** Order is irrelevant: the swap at the top runs at most once, and the
      result is the same either way round. */
  lemma IntervalSymmetric(d: Date, o: Date)
    requires IntervalSafe(d, o)
    ensures IntervalSafe(o, d)
    ensures Interval(d, o) == Interval(o, d)
  {
    CompareAntisymmetric(d, o);
  }

  lemma IntervalSelf(d: Date)
    ensures IntervalSafe(d, d)
    ensures Interval(d, d) == 0
  {
  }

  /** The ordered case unfolded: the Go formula with nothing hidden. */
  lemma IntervalOrderedUnfold(d: Date, o: Date)
    requires OrderedSafe(d, o) && Compare(d, o) == 1
    ensures IntervalSafe(d, o)
    ensures Interval(d, o) == OrderedInterval(d, o)
  {
  }

  /** The earlier date's month and the months after it make up the rest of
      its year. */
  lemma RestOfYear(o: Date)
    requires o.Valid()
    ensures DaysInMonth(o.year, o.month) + MonthsSum(o.year, o.month + 1, 13)
      == YearLength(o.year) - MonthsSum(o.year, 1, o.month)
  {
    YearLengthIsMonthsSum(o.year);
    MonthsSumSplit(o.year, 1, o.month, 13);
    MonthsSumSplit(o.year, o.month, o.month + 1, 13);
    assert MonthsSum(o.year, o.month, o.month + 1) == DaysInMonth(o.year, o.month);
  }

  /** The years strictly between two years, as the Go code counts them. */
  lemma YearsBetween(earlierYear: int, laterYear: int)
    requires earlierYear < laterYear
    ensures YearStart(laterYear) - YearStart(earlierYear) - YearLength(earlierYear)
      == (laterYear - earlierYear - 1) * 365 + LeapYearsIn(earlierYear + 1, laterYear)
  {
    YearStartDiff(earlierYear + 1, laterYear);
    YearStartStep(earlierYear);
  }

  /** The ordered case expressed through day numbers, for any two years in
      order: exact, except for the extra `YearLength - 365` when both years are
      the same. */
  lemma IntervalOrdered(d: Date, o: Date)
    requires d.Valid() && o.Valid() && Compare(d, o) == 1
    ensures IntervalSafe(d, o)
    ensures Interval(d, o) ==
      DayNumber(d) - DayNumber(o) + (if d.year == o.year then YearLength(o.year) - 365 else 0)
  {
    IntervalOrderedUnfold(d, o);
    RestOfYear(o);
    if d.year > o.year {
      YearsBetween(o.year, d.year);
    }
  }

  /** What `Interval` returns on valid dates: the true distance, plus one day
      when the two differ but share a leap year. */
  lemma IntervalCharacterization(d: Date, o: Date)
    requires d.Valid() && o.Valid()
    ensures IntervalSafe(d, o)
    ensures Interval(d, o) ==
      Distance(d, o) + (if d != o && d.year == o.year && IsLeap(d.year) then 1 else 0)
  {
    CompareMatchesDayNumber(d, o);
    if Compare(d, o) == 1 {
      IntervalOrdered(d, o);
    } else if Compare(d, o) == -1 {
      CompareAntisymmetric(d, o);
      IntervalOrdered(o, d);
    }
  }

  lemma IntervalNonNegative(d: Date, o: Date)
    requires d.Valid() && o.Valid()
    ensures IntervalSafe(d, o) && Interval(d, o) >= 0
  {
    IntervalCharacterization(d, o);
  }

  /** The calendar truth holds across years and within a common year. */
  lemma IntervalMatchesCalendar(d: Date, o: Date)
    requires d.Valid() && o.Valid()
    requires d.year != o.year || !IsLeap(d.year)
    ensures IntervalSafe(d, o) && Interval(d, o) == Distance(d, o)
  {
    IntervalCharacterization(d, o);
  }

  /** Two different days of one leap year are counted one day too far apart. */
  lemma IntervalSameLeapYearOverCounts(d: Date, o: Date)
    requires d.Valid() && o.Valid() && d != o
    requires d.year == o.year && IsLeap(d.year)
    ensures IntervalSafe(d, o) && Interval(d, o) == Distance(d, o) + 1
  {
    IntervalCharacterization(d, o);
  }

  /** A concrete instance: consecutive days in March 2016 are 2 days apart. */
  lemma IntervalLeapYearCounterexample()
    ensures Interval(Date(2016, 3, 1), Date(2016, 3, 2)) == 2
    ensures Distance(Date(2016, 3, 1), Date(2016, 3, 2)) == 1
  {
    IntervalCharacterization(Date(2016, 3, 1), Date(2016, 3, 2));
    assert DayNumber(Date(2016, 3, 2)) == DayNumber(Date(2016, 3, 1)) + 1;
  }

  /** The reference pair 1997-02-28 and 2018-03-28, both ways round. */
  lemma IntervalExample1997()
    ensures Interval(Date(1997, 2, 28), Date(2018, 3, 28)) == 7698
    ensures Interval(Date(2018, 3, 28), Date(1997, 2, 28)) == 7698
  {
    LeapYearsClosedForm(1998, 2018);
    IntervalOrderedUnfold(Date(2018, 3, 28), Date(1997, 2, 28));
    assert MonthsSum(1997, 3, 13) == 306;
    assert MonthsSum(2018, 1, 3) == 59;
  }

  /** The reference pair 1969-05-20 and 2016-05-04. */
  lemma IntervalExample1969()
    ensures Interval(Date(2016, 5, 4), Date(1969, 5, 20)) == 17151
  {
    LeapYearsClosedForm(1970, 2016);
    IntervalOrderedUnfold(Date(2016, 5, 4), Date(1969, 5, 20));
    assert MonthsSum(1969, 6, 13) == 214;
    assert MonthsSum(2016, 1, 5) == 121;
  }

  /** The reference pair 1800-11-11 and 2018-03-28, across the non-leap 1900. */
  lemma IntervalExample1800()
    ensures Interval(Date(1800, 11, 11), Date(2018, 3, 28)) == 79395
  {
    LeapYearsClosedForm(1801, 2018);
    IntervalOrderedUnfold(Date(2018, 3, 28), Date(1800, 11, 11));
    assert MonthsSum(1800, 12, 13) == 31;
    assert MonthsSum(2018, 1, 3) == 59;
  }

  /** The intended count: in the same-year case the "missing" year is the
      year itself, of `YearLength` days rather than always 365. */
  function CorrectedOrderedInterval(later: Date, earlier: Date): int
    requires OrderedSafe(later, earlier)
  {
    (if later.year == earlier.year then -YearLength(earlier.year)
     else (later.year - earlier.year - 1) * 365 + LeapYearsIn(earlier.year + 1, later.year))
    + earlier.MonthLength() - earlier.day + later.day
    + MonthsSum(earlier.year, earlier.month + 1, 13)
    + MonthsSum(later.year, 1, later.month)
  }

  function CorrectedInterval(d: Date, o: Date): int
    requires IntervalSafe(d, o)
    decreases if Compare(d, o) == -1 then 1 else 0
  {
    var c := Compare(d, o);
    if c == 0 then 0
    else if c == -1 then CorrectedInterval(o, d)
    else CorrectedOrderedInterval(d, o)
  }

  /** The corrected count is the true distance for every pair of valid dates,
      and differs from the Go count only in the same-leap-year case. */
  lemma CorrectedIntervalIsDistance(d: Date, o: Date)
    requires d.Valid() && o.Valid()
    ensures IntervalSafe(d, o)
    ensures CorrectedInterval(d, o) == Distance(d, o)
    ensures Interval(d, o) - CorrectedInterval(d, o) ==
      (if d != o && d.year == o.year && IsLeap(d.year) then 1 else 0)
  {
    IntervalCharacterization(d, o);
    CompareMatchesDayNumber(d, o);
    if Compare(d, o) == 1 {
      IntervalOrdered(d, o);
      assert CorrectedInterval(d, o) == CorrectedOrderedInterval(d, o);
    } else if Compare(d, o) == -1 {
      CompareAntisymmetric(d, o);
      IntervalOrdered(o, d);
      assert CorrectedInterval(d, o) == CorrectedOrderedInterval(o, d);
    }
  }
}
