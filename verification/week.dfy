/**
 `Date.Week`: the weekday name of a date, found from its interval to "today"
 and today's weekday index. The clock is a parameter here: `today` is the
 current date and `w` its weekday index (0 = Sunday .. 6 = Saturday).

 For a later date the Go code steps forward `interval % 7` days, which is
 right. For an earlier date it takes `6 - (w + interval % 7) % 7`, which is
 the true weekday only when today is a Wednesday (`w == 3`);
 `CorrectedWeekIndex` steps backward instead.
 */
module Weekdays {
  import opened Dates
  import opened DayNumbers
  import opened Intervals

  /** The index into `DayNames` that `Week` picks, with Go's `%`. */
  function WeekIndex(d: Date, today: Date, w: int): int
    requires IntervalSafe(d, today)
  {
    var interval := GoRem(Interval(d, today), 7);
    var c := Compare(d, today);
    if c == 0 then w
    else if c == 1 then GoRem(w + interval, 7)
    else 6 - GoRem(w + interval, 7)
  }

  /** The inputs on which `Week` neither panics in `Interval` nor indexes the
      name table out of range. */
  predicate WeekDefined(d: Date, today: Date, w: int)
  {
    IntervalSafe(d, today) && 0 <= w <= 6 && 0 <= WeekIndex(d, today, w) <= 6
  }

  /** The weekday name `Date.Week` returns. */
  function Week(d: Date, today: Date, w: int): string
    requires WeekDefined(d, today, w)
  {
    DayNames[WeekIndex(d, today, w)]
  }

  /** The true weekday index of `d`, given that `today` has index `w`. */
  function TrueWeekday(d: Date, today: Date, w: int): (r: int)
    requires d.Valid() && today.Valid()
    ensures 0 <= r <= 6
  {
    (w + DayNumber(d) - DayNumber(today)) % 7
  }

  /** On valid dates the index always lies in the table. */
  lemma WeekIndexInRange(d: Date, today: Date, w: int)
    requires d.Valid() && today.Valid() && 0 <= w <= 6
    ensures WeekDefined(d, today, w)
  {
    IntervalNonNegative(d, today);
  }

  /** Today's own weekday comes straight from the clock. */
  lemma WeekOfToday(today: Date, w: int)
    requires 0 <= w <= 6
    ensures WeekDefined(today, today, w)
    ensures Week(today, today, w) == DayNames[w]
  {
  }

  /** Stepping forward `n` days moves the weekday index by `n % 7`. */
  lemma ForwardStep(w: int, n: int)
    requires n >= 0
    ensures (w + n % 7) % 7 == (w + n) % 7
  {
    assert n == 7 * (n / 7) + n % 7;
  }

  /** Stepping backward `m` days moves the weekday index back by `m % 7`. */
  lemma BackwardStep(w: int, m: int)
    requires m >= 0
    ensures (w + 7 - m % 7) % 7 == (w - m) % 7
  {
    assert m == 7 * (m / 7) + m % 7;
  }

  /** Stepping forward one day more than `n` lands one weekday later. */
  lemma ForwardStepOver(w: int, n: int)
    requires n >= 0
    ensures (w + (n + 1) % 7) % 7 == ((w + n) % 7 + 1) % 7
  {
    ForwardStep(w, n + 1);
  }

  /** The two stepping branches, once the interval is known to be `n >= 0`. */
  lemma WeekIndexBranches(d: Date, today: Date, w: int, n: int)
    requires IntervalSafe(d, today) && Interval(d, today) == n && n >= 0 && w >= 0
    ensures Compare(d, today) == 1 ==> WeekIndex(d, today, w) == (w + n % 7) % 7
    ensures Compare(d, today) == -1 ==> WeekIndex(d, today, w) == 6 - (w + n % 7) % 7
  {
  }

  /** A later date gets its true weekday whenever its interval is exact, that
      is, unless both dates share a leap year. */
  lemma WeekOfLaterDate(d: Date, today: Date, w: int)
    requires d.Valid() && today.Valid() && 0 <= w <= 6
    requires Compare(d, today) == 1
    requires d.year != today.year || !IsLeap(d.year)
    ensures WeekDefined(d, today, w)
    ensures WeekIndex(d, today, w) == TrueWeekday(d, today, w)
    ensures Week(d, today, w) == DayNames[TrueWeekday(d, today, w)]
  {
    WeekIndexInRange(d, today, w);
    IntervalMatchesCalendar(d, today);
    CompareMatchesDayNumber(d, today);
    var n := DayNumber(d) - DayNumber(today);
    WeekIndexBranches(d, today, w, n);
    ForwardStep(w, n);
  }

  /** The earlier-date formula against the true backward step: for a step of
      `n >= 0` days, `6 - (w + n % 7) % 7` is `(w - n) mod 7` exactly when
      `w == 3`. */
  lemma EarlierFormulaIff(w: int, n: int)
    requires 0 <= w <= 6 && n >= 0
    ensures 6 - (w + n % 7) % 7 == (w - n) % 7 <==> w == 3
  {
    var k := n % 7;
    assert (w - n) % 7 == (w - k) % 7;
  }

  /** An earlier date (with an exact interval) gets its true weekday if and
      only if today is a Wednesday. */
  lemma WeekOfEarlierDate(d: Date, today: Date, w: int)
    requires d.Valid() && today.Valid() && 0 <= w <= 6
    requires Compare(d, today) == -1
    requires d.year != today.year || !IsLeap(d.year)
    ensures WeekDefined(d, today, w)
    ensures WeekIndex(d, today, w) == TrueWeekday(d, today, w) <==> w == 3
  {
    WeekIndexInRange(d, today, w);
    IntervalMatchesCalendar(d, today);
    CompareMatchesDayNumber(d, today);
    var n := DayNumber(today) - DayNumber(d);
    assert TrueWeekday(d, today, w) == (w - n) % 7;
    WeekIndexBranches(d, today, w, n);
    EarlierFormulaIff(w, n);
  }

  /** A later date in today's own leap year: the interval is one day over,
      so the weekday comes out one past the true one. */
  lemma WeekOfLaterDateInLeapYear(d: Date, today: Date, w: int)
    requires d.Valid() && today.Valid() && 0 <= w <= 6
    requires Compare(d, today) == 1
    requires d.year == today.year && IsLeap(d.year)
    ensures WeekDefined(d, today, w)
    ensures WeekIndex(d, today, w) == (TrueWeekday(d, today, w) + 1) % 7
  {
    WeekIndexInRange(d, today, w);
    IntervalSameLeapYearOverCounts(d, today);
    CompareMatchesDayNumber(d, today);
    var n := DayNumber(d) - DayNumber(today);
    assert Interval(d, today) == n + 1;
    assert TrueWeekday(d, today, w) == (w + n) % 7;
    WeekIndexBranches(d, today, w, n + 1);
    ForwardStepOver(w, n);
  }

  /** The earlier-date formula with the interval one day over: for a step of
      `m >= 0` days, `6 - (w + (m + 1) % 7) % 7` is `(w - m) mod 7` exactly
      when `w == 6`. */
  lemma EarlierFormulaOverIff(w: int, m: int)
    requires 0 <= w <= 6 && m >= 0
    ensures 6 - (w + (m + 1) % 7) % 7 == (w - m) % 7 <==> w == 6
  {
    var k := m % 7;
    assert (w - m) % 7 == (w - k) % 7;
    assert (m + 1) % 7 == (k + 1) % 7;
  }

  /** An earlier date in today's own leap year gets its true weekday if and
      only if today is a Saturday. */
  lemma WeekOfEarlierDateInLeapYear(d: Date, today: Date, w: int)
    requires d.Valid() && today.Valid() && 0 <= w <= 6
    requires Compare(d, today) == -1
    requires d.year == today.year && IsLeap(d.year)
    ensures WeekDefined(d, today, w)
    ensures WeekIndex(d, today, w) == TrueWeekday(d, today, w) <==> w == 6
  {
    WeekIndexInRange(d, today, w);
    IntervalSameLeapYearOverCounts(d, today);
    CompareMatchesDayNumber(d, today);
    var m := DayNumber(today) - DayNumber(d);
    assert Interval(d, today) == m + 1;
    assert TrueWeekday(d, today, w) == (w - m) % 7;
    WeekIndexBranches(d, today, w, m + 1);
    EarlierFormulaOverIff(w, m);
  }

  /** A concrete instance: on Thursday 2018-03-29 (`w == 4`), the day before
      comes out as Monday instead of Wednesday. */
  lemma WeekEarlierCounterexample()
    ensures WeekDefined(Date(2018, 3, 28), Date(2018, 3, 29), 4)
    ensures Week(Date(2018, 3, 28), Date(2018, 3, 29), 4) == "Monday"
    ensures DayNames[TrueWeekday(Date(2018, 3, 28), Date(2018, 3, 29), 4)] == "Wednesday"
  {
    IntervalOrderedUnfold(Date(2018, 3, 29), Date(2018, 3, 28));
    assert MonthsSum(2018, 4, 13) == 275;
    assert MonthsSum(2018, 1, 3) == 59;
    assert Interval(Date(2018, 3, 28), Date(2018, 3, 29)) == 1;
    assert DayNumber(Date(2018, 3, 29)) == DayNumber(Date(2018, 3, 28)) + 1;
  }

  /** The weekday table with today fixed at Wednesday 2018-03-28. */
  lemma WeekExamples2018()
    ensures Week(Date(2018, 3, 28), Date(2018, 3, 28), 3) == "Wednesday"
    ensures WeekDefined(Date(2018, 4, 30), Date(2018, 3, 28), 3)
    ensures Week(Date(2018, 4, 30), Date(2018, 3, 28), 3) == "Monday"
    ensures WeekDefined(Date(2018, 3, 1), Date(2018, 3, 28), 3)
    ensures Week(Date(2018, 3, 1), Date(2018, 3, 28), 3) == "Thursday"
  {
    IntervalOrderedUnfold(Date(2018, 4, 30), Date(2018, 3, 28));
    IntervalOrderedUnfold(Date(2018, 3, 28), Date(2018, 3, 1));
    assert MonthsSum(2018, 4, 13) == 275;
    assert MonthsSum(2018, 1, 3) == 59;
    assert MonthsSum(2018, 1, 4) == 90;
    assert Interval(Date(2018, 4, 30), Date(2018, 3, 28)) == 33;
    assert Interval(Date(2018, 3, 1), Date(2018, 3, 28)) == 27;
  }

  lemma WeekExample1997()
    ensures WeekDefined(Date(1997, 2, 28), Date(2018, 3, 28), 3)
    ensures Week(Date(1997, 2, 28), Date(2018, 3, 28), 3) == "Friday"
  {
    IntervalExample1997();
  }

  /** The interval behind the 1972 weekday case. */
  lemma IntervalFrom1972()
    ensures Interval(Date(1972, 3, 28), Date(2018, 3, 28)) == 16801
  {
    LeapYearsClosedForm(1973, 2018);
    IntervalOrderedUnfold(Date(2018, 3, 28), Date(1972, 3, 28));
    assert MonthsSum(1972, 4, 13) == 275;
    assert MonthsSum(2018, 1, 3) == 59;
  }

  lemma WeekExample1972()
    ensures WeekDefined(Date(1972, 3, 28), Date(2018, 3, 28), 3)
    ensures Week(Date(1972, 3, 28), Date(2018, 3, 28), 3) == "Tuesday"
  {
    IntervalFrom1972();
    WeekIndexBranches(Date(1972, 3, 28), Date(2018, 3, 28), 3, 16801);
  }

  /** The interval behind the 2030 weekday case. */
  lemma IntervalTo2030()
    ensures Interval(Date(2030, 3, 28), Date(2018, 3, 28)) == 4383
  {
    LeapYearsClosedForm(2019, 2030);
    IntervalOrderedUnfold(Date(2030, 3, 28), Date(2018, 3, 28));
    assert MonthsSum(2018, 4, 13) == 275;
    assert MonthsSum(2030, 1, 3) == 59;
  }

  lemma WeekExample2030()
    ensures WeekDefined(Date(2030, 3, 28), Date(2018, 3, 28), 3)
    ensures Week(Date(2030, 3, 28), Date(2018, 3, 28), 3) == "Thursday"
  {
    IntervalTo2030();
    WeekIndexBranches(Date(2030, 3, 28), Date(2018, 3, 28), 3, 4383);
  }

  /** The intended index: the exact interval, stepped forward for a later date
      and backward for an earlier one. */
  function CorrectedWeekIndex(d: Date, today: Date, w: int): int
    requires IntervalSafe(d, today)
  {
    var interval := GoRem(CorrectedInterval(d, today), 7);
    var c := Compare(d, today);
    if c == 0 then w
    else if c == 1 then GoRem(w + interval, 7)
    else GoRem(w + 7 - interval, 7)
  }

  /** The corrected branches, once the corrected interval is known to be `n >= 0`. */
  lemma CorrectedWeekIndexBranches(d: Date, today: Date, w: int, n: int)
    requires IntervalSafe(d, today) && CorrectedInterval(d, today) == n && n >= 0 && w >= 0
    ensures Compare(d, today) == 1 ==> CorrectedWeekIndex(d, today, w) == (w + n % 7) % 7
    ensures Compare(d, today) == -1 ==> CorrectedWeekIndex(d, today, w) == (w + 7 - n % 7) % 7
  {
  }

  lemma CorrectedWeekLater(d: Date, today: Date, w: int)
    requires d.Valid() && today.Valid() && 0 <= w <= 6
    requires DayNumber(d) > DayNumber(today)
    ensures IntervalSafe(d, today)
    ensures CorrectedWeekIndex(d, today, w) == TrueWeekday(d, today, w)
  {
    CorrectedIntervalIsDistance(d, today);
    CompareMatchesDayNumber(d, today);
    var n := DayNumber(d) - DayNumber(today);
    CorrectedWeekIndexBranches(d, today, w, n);
    ForwardStep(w, n);
  }

  lemma CorrectedWeekEarlier(d: Date, today: Date, w: int)
    requires d.Valid() && today.Valid() && 0 <= w <= 6
    requires DayNumber(d) < DayNumber(today)
    ensures IntervalSafe(d, today)
    ensures CorrectedWeekIndex(d, today, w) == TrueWeekday(d, today, w)
  {
    CorrectedIntervalIsDistance(d, today);
    CompareMatchesDayNumber(d, today);
    var m := DayNumber(today) - DayNumber(d);
    CorrectedWeekIndexBranches(d, today, w, m);
    BackwardStep(w, m);
  }

  /** The corrected weekday is the true one for every pair of valid dates. */
  lemma CorrectedWeekIsTrue(d: Date, today: Date, w: int)
    requires d.Valid() && today.Valid() && 0 <= w <= 6
    ensures IntervalSafe(d, today)
    ensures CorrectedWeekIndex(d, today, w) == TrueWeekday(d, today, w)
  {
    CompareMatchesDayNumber(d, today);
    if DayNumber(d) > DayNumber(today) {
      CorrectedWeekLater(d, today, w);
    } else if DayNumber(d) < DayNumber(today) {
      CorrectedWeekEarlier(d, today, w);
    }
  }
}
