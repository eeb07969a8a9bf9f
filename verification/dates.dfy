/**
 The value type of the date utility: a (year, month, day) triple, the two
 lookup tables (month lengths and weekday names), the Gregorian leap-year
 test, month lengths and the three-way comparator.

 Go's `%` truncates toward zero while Dafny's is Euclidean, so the leap test
 is written with an explicit truncated remainder `GoRem`, and a lemma shows
 that for the zero tests `dateop.go` performs the two agree.
 */
module Dates {

  /** A calendar date. No field is validated on construction; see `Valid`. */
  datatype Date = Date(year: int, month: int, day: int)
  {
    /** The date's month length (`Date.GetDate` delegates to `getDate`). */
    function MonthLength(): int
      requires MonthIndexable(month)
    {
      DaysInMonth(year, month)
    }

    /** Whether the date's year is a leap year (`Date.IsLeap`). */
    predicate InLeapYear()
    {
      IsLeap(year)
    }

    /** A real calendar date: month 1..12 and day within that month. */
    predicate Valid()
    {
      1 <= month <= 12 && 1 <= day <= DaysInMonth(year, month)
    }
  }

  /** Days per month, indexed 1..12; slot 0 is padding holding 0. */
  const MonthTable: seq<int> := [0, 31, 28, 31, 30, 31, 30, 31, 31, 30, 31, 30, 31]

  /** Weekday names, indexed 0 = Sunday .. 6 = Saturday. */
  const DayNames: seq<string> :=
    ["Sunday", "Monday", "Tuesday", "Wednesday", "Thursday", "Friday", "Saturday"]

  /** The months the 13-slot table can be indexed with without a panic. */
  predicate MonthIndexable(month: int)
  {
    0 <= month <= 12
  }

  /** Go's `a % b` for a positive divisor: the remainder truncated toward zero,
      carrying the sign of `a`. */
  function GoRem(a: int, b: int): (r: int)
    requires b > 0
    ensures -b < r < b
    ensures a >= 0 ==> r == a % b
    ensures a < 0 ==> r <= 0
  {
    if a >= 0 then a % b else -((-a) % b)
  }

  /** Negation keeps divisibility by each of the leap test's divisors. */
  lemma NegatedMultipleOf4(a: int)
    ensures (-a) % 4 == 0 <==> a % 4 == 0
  {
  }

  lemma NegatedMultipleOf100(a: int)
    ensures (-a) % 100 == 0 <==> a % 100 == 0
  {
  }

  lemma NegatedMultipleOf400(a: int)
    ensures (-a) % 400 == 0 <==> a % 400 == 0
  {
  }

  /** A zero truncated remainder is exactly divisibility, whatever the sign,
      for the three divisors the leap test uses. */
  lemma GoRemZeroIffDivisible(a: int)
    ensures GoRem(a, 4) == 0 <==> a % 4 == 0
    ensures GoRem(a, 100) == 0 <==> a % 100 == 0
    ensures GoRem(a, 400) == 0 <==> a % 400 == 0
  {
    NegatedMultipleOf4(a);
    NegatedMultipleOf100(a);
    NegatedMultipleOf400(a);
  }

  /** The leap-year test exactly as `dateop.go` writes it, with Go's `%`. */
  predicate IsLeap(year: int)
  {
    if GoRem(year, 4) == 0 && GoRem(year, 100) != 0 then true
    else GoRem(year, 400) == 0
  }

  /** The Gregorian rule stated with mathematical divisibility. */
  ghost predicate GregorianLeap(year: int)
  {
    (year % 4 == 0 && year % 100 != 0) || year % 400 == 0
  }

  /** The Go test is the Gregorian rule for every year, negative ones
      included: Go's truncated `%` yields 0 on exactly the multiples. */
  lemma IsLeapIsGregorian(year: int)
    ensures IsLeap(year) <==> GregorianLeap(year)
  {
    GoRemZeroIffDivisible(year);
  }

  lemma MultipleOf400IsMultipleOf4(year: int)
    requires year % 400 == 0
    ensures year % 4 == 0
  {
    assert year == 4 * (100 * (year / 400));
  }

  /** Every leap year is a multiple of four. */
  lemma LeapYearIsMultipleOf4(year: int)
    requires IsLeap(year)
    ensures year % 4 == 0
  {
    IsLeapIsGregorian(year);
    if year % 400 == 0 {
      MultipleOf400IsMultipleOf4(year);
    }
  }

  lemma NotMultipleOf4IsNotLeap(year: int)
    requires year % 4 != 0
    ensures !IsLeap(year)
  {
    if IsLeap(year) {
      LeapYearIsMultipleOf4(year);
    }
  }

  lemma NearMultipleOf4(year: int, k: int)
    requires year % 4 == 0 && 1 <= k <= 3
    ensures (year + k) % 4 == k
  {
  }

  /** Leap years are multiples of four, so the next three years are not leap. */
  lemma LeapYearIsolated(year: int, k: int)
    requires IsLeap(year) && 1 <= k <= 3
    ensures !IsLeap(year + k)
  {
    LeapYearIsMultipleOf4(year);
    NearMultipleOf4(year, k);
    NotMultipleOf4IsNotLeap(year + k);
  }

  lemma LeapYearExamples()
    ensures IsLeap(2000) && IsLeap(2004) && IsLeap(2016) && IsLeap(0)
    ensures !IsLeap(1900) && !IsLeap(2001) && !IsLeap(2017) && !IsLeap(2018)
  {
  }

  /** Month length as `getDate` computes it: the table entry, with February
      lengthened to 29 days in a leap year. */
  function DaysInMonth(year: int, month: int): (r: int)
    requires MonthIndexable(month)
    ensures month == 0 ==> r == 0
    ensures 1 <= month ==> 28 <= r <= 31
  {
    if IsLeap(year) && month == 2 then MonthTable[2] + 1 else MonthTable[month]
  }

  /** The month-length rule: February has 29 days in a leap year and 28
      otherwise; April, June, September and November have 30; the rest 31. */
  lemma MonthLengthRule(year: int, month: int)
    requires 1 <= month <= 12
    ensures DaysInMonth(year, month) == 28 <==> month == 2 && !IsLeap(year)
    ensures DaysInMonth(year, month) == 29 <==> month == 2 && IsLeap(year)
    ensures DaysInMonth(year, month) == 30 <==> month in {4, 6, 9, 11}
    ensures DaysInMonth(year, month) == 31 <==> month in {1, 3, 5, 7, 8, 10, 12}
  {
  }

  /** Lexicographic "strictly before" on (year, month, day). */
  predicate Precedes(a: Date, b: Date)
  {
    || a.year < b.year
    || (a.year == b.year && a.month < b.month)
    || (a.year == b.year && a.month == b.month && a.day < b.day)
  }

  /** `Date.Compare`: 1 when `d` is later, 0 when equal, -1 when earlier. */
  function Compare(d: Date, o: Date): (r: int)
    ensures r == -1 || r == 0 || r == 1
    ensures r == 0 <==> d == o
    ensures r == 1 <==> Precedes(o, d)
    ensures r == -1 <==> Precedes(d, o)
  {
    if d.year > o.year then 1
    else if d.year == o.year then
      if d.month > o.month then 1
      else if d.month == o.month then
        if d.day == o.day then 0
        else if d.day > o.day then 1
        else -1
      else -1
    else -1
  }

  lemma CompareAntisymmetric(d: Date, o: Date)
    ensures Compare(o, d) == -Compare(d, o)
  {
  }

  lemma CompareTransitive(a: Date, b: Date, c: Date)
    ensures Compare(a, b) == 1 && Compare(b, c) == 1 ==> Compare(a, c) == 1
    ensures Compare(a, b) == -1 && Compare(b, c) == -1 ==> Compare(a, c) == -1
  {
  }

  /** `Precedes` is a strict total order: irreflexive, transitive, and any two
      distinct dates are ordered one way. */
  lemma PrecedesStrictTotalOrder(a: Date, b: Date, c: Date)
    ensures !Precedes(a, a)
    ensures Precedes(a, b) && Precedes(b, c) ==> Precedes(a, c)
    ensures a != b ==> Precedes(a, b) || Precedes(b, a)
    ensures !(Precedes(a, b) && Precedes(b, a))
  {
  }

  lemma CompareExamples()
    ensures Compare(Date(1100, 11, 11), Date(2018, 3, 28)) == -1
    ensures Compare(Date(2018, 2, 28), Date(1999, 1, 1)) == 1
    ensures Compare(Date(2018, 3, 28), Date(2018, 3, 28)) == 0
  {
  }
}
