/**
 `Date.PrintCalendar`: the month grid, as the sequence of tokens it writes.
 `Header` is the weekday header line, `Blank` an empty tab cell, `Num(n)` a
 day number cell and `Newline` a line break. The weekday of the month's
 first day is a parameter of `PrintCalendar`; `PrintCalendarFromClock`
 obtains it as the Go code does, from `Week` on the month's first day (the
 name-to-index map only inverts the name table, so the index is used as is).
 */
module CalendarGrid {
  import opened Dates
  import opened Weekdays

  datatype Token = Header | Blank | Num(n: int) | Newline

  /** `count` leading blank cells. */
  function Blanks(count: nat): (r: seq<Token>)
    ensures |r| == count
  {
    seq(count, _ => Blank)
  }

  /** The cells of a month grid: `first` blanks, then the days 1..days. */
  function Cells(first: nat, days: nat): (r: seq<Token>)
    ensures |r| == first + days
  {
    Blanks(first) + seq(days, i => Num(i + 1))
  }

  /** The cells hold the blanks first, then the day numbers counting up from 1. */
  lemma CellsAt(first: nat, days: nat, i: int)
    requires 0 <= i < first + days
    ensures i < first ==> Cells(first, days)[i] == Blank
    ensures first <= i ==> Cells(first, days)[i] == Num(i - first + 1)
  {
  }

  lemma CellsHaveNoBreaks(first: nat, days: nat)
    ensures NoBreaks(Cells(first, days))
  {
    forall i | 0 <= i < first + days
      ensures !Cells(first, days)[i].Newline?
    {
      CellsAt(first, days, i);
    }
  }

  predicate NoBreaks(s: seq<Token>)
  {
    forall i :: 0 <= i < |s| ==> !s[i].Newline?
  }

  /** The reference layout: rows of seven cells, each full row closed by a
      line break, a last partial row left open. */
  function Rows(cells: seq<Token>): seq<Token>
    decreases |cells|
  {
    if |cells| < 7 then cells else cells[..7] + [Newline] + Rows(cells[7..])
  }

  /** Everything but the line breaks, in order. */
  function WithoutBreaks(s: seq<Token>): (r: seq<Token>)
    ensures NoBreaks(r)
    ensures |r| <= |s|
  {
    if |s| == 0 then []
    else (if s[0].Newline? then [] else [s[0]]) + WithoutBreaks(s[1..])
  }

  lemma {:induction false} WithoutBreaksConcat(a: seq<Token>, b: seq<Token>)
    ensures WithoutBreaks(a + b) == WithoutBreaks(a) + WithoutBreaks(b)
    decreases |a|
  {
    if |a| > 0 {
      assert (a + b)[1..] == a[1..] + b;
      WithoutBreaksConcat(a[1..], b);
    } else {
      assert a + b == b;
    }
  }

  lemma {:induction false} WithoutBreaksOfNoBreaks(s: seq<Token>)
    requires NoBreaks(s)
    ensures WithoutBreaks(s) == s
    decreases |s|
  {
    if |s| > 0 {
      WithoutBreaksOfNoBreaks(s[1..]);
    }
  }

  /** The layout keeps every cell, in order. */
  lemma {:induction false} RowsKeepCells(cells: seq<Token>)
    requires NoBreaks(cells)
    ensures WithoutBreaks(Rows(cells)) == cells
    decreases |cells|
  {
    if |cells| < 7 {
      WithoutBreaksOfNoBreaks(cells);
    } else {
      var row := cells[..7];
      RowsKeepCells(cells[7..]);
      WithoutBreaksConcat(row + [Newline], Rows(cells[7..]));
      WithoutBreaksConcat(row, [Newline]);
      WithoutBreaksOfNoBreaks(row);
      assert WithoutBreaks([Newline]) == [];
      assert row + cells[7..] == cells;
    }
  }

  /** One line break per full row. */
  lemma {:induction false} RowsLength(cells: seq<Token>)
    ensures |Rows(cells)| == |cells| + |cells| / 7
    decreases |cells|
  {
    if |cells| >= 7 {
      RowsLength(cells[7..]);
    }
  }

  /** Position `i` of the layout: a line break exactly when `i % 8 == 7`, that
      is after every seventh cell, and otherwise the cell `i - i / 8`. */
  lemma {:induction false} RowsAt(cells: seq<Token>, i: int)
    requires NoBreaks(cells)
    requires 0 <= i < |Rows(cells)|
    ensures Rows(cells)[i].Newline? <==> i % 8 == 7
    ensures i % 8 != 7 ==> i - i / 8 < |cells| && Rows(cells)[i] == cells[i - i / 8]
    decreases |cells|
  {
    if |cells| >= 7 && i >= 8 {
      var rest := cells[7..];
      assert Rows(cells) == cells[..7] + [Newline] + Rows(rest);
      assert Rows(cells)[i] == Rows(rest)[i - 8];
      RowsAt(rest, i - 8);
      assert (i - 8) / 8 == i / 8 - 1;
    }
  }

  /** The whole layout at once. */
  lemma RowsLayout(cells: seq<Token>)
    requires NoBreaks(cells)
    ensures WithoutBreaks(Rows(cells)) == cells
    ensures |Rows(cells)| == |cells| + |cells| / 7
    ensures forall i :: 0 <= i < |Rows(cells)| ==> (Rows(cells)[i].Newline? <==> i % 8 == 7)
    ensures forall i :: 0 <= i < |Rows(cells)| && i % 8 != 7 ==>
      i - i / 8 < |cells| && Rows(cells)[i] == cells[i - i / 8]
  {
    RowsKeepCells(cells);
    RowsLength(cells);
    forall i | 0 <= i < |Rows(cells)|
      ensures Rows(cells)[i].Newline? <==> i % 8 == 7
      ensures i % 8 != 7 ==> i - i / 8 < |cells| && Rows(cells)[i] == cells[i - i / 8]
    {
      RowsAt(cells, i);
    }
  }

  /** Appending one cell to the layout: it lands at the end, followed by a
      line break when it completes a row. */
  lemma {:induction false} RowsSnoc(cells: seq<Token>, x: Token)
    ensures Rows(cells + [x]) ==
      Rows(cells) + [x] + (if (|cells| + 1) % 7 == 0 then [Newline] else [])
    decreases |cells|
  {
    var c := cells + [x];
    if |cells| + 1 < 7 {
    } else if |cells| + 1 == 7 {
      assert c[..7] == c;
      assert c[7..] == [];
    } else {
      assert c[..7] == cells[..7];
      assert c[7..] == cells[7..] + [x];
      RowsSnoc(cells[7..], x);
    }
  }

  lemma BlanksStep(count: nat)
    ensures Blanks(count) + [Blank] == Blanks(count + 1)
  {
  }

  lemma CellsStep(first: nat, days: nat)
    ensures Cells(first, days) + [Num(days + 1)] == Cells(first, days + 1)
  {
  }

  /** The two loops of the printer: `firstWeekday` blank cells, then the day
      numbers 1..days, with a line break whenever the column counter reaches
      seven. The counter stays in 0..6 between cells. */
  method EmitGrid(firstWeekday: int, days: int) returns (grid: seq<Token>)
    requires 0 <= firstWeekday <= 6
    ensures grid == Rows(Cells(firstWeekday, if days < 0 then 0 else days))
  {
    grid := [];
    var pos := 0;
    while pos < firstWeekday
      invariant 0 <= pos <= firstWeekday
      invariant grid == Rows(Blanks(pos))
    {
      RowsSnoc(Blanks(pos), Blank);
      BlanksStep(pos);
      grid := grid + [Blank];
      pos := pos + 1;
    }
    assert Blanks(firstWeekday) == Cells(firstWeekday, 0);
    var i := 1;
    while i <= days
      invariant 1 <= i && (i <= days + 1 || i == 1)
      invariant 0 <= pos < 7
      invariant pos == (firstWeekday + i - 1) % 7
      invariant grid == Rows(Cells(firstWeekday, i - 1))
    {
      RowsSnoc(Cells(firstWeekday, i - 1), Num(i));
      CellsStep(firstWeekday, i - 1);
      grid := grid + [Num(i)];
      pos := pos + 1;
      if pos == 7 {
        pos := 0;
        grid := grid + [Newline];
      }
      i := i + 1;
    }
  }

  /** The printer as a whole: the header line, the grid for the month's
      length, and the final `Println("\n")`, which writes two line breaks. */
  method PrintCalendar(year: int, month: int, firstWeekday: int) returns (out: seq<Token>)
    requires MonthIndexable(month) && 0 <= firstWeekday <= 6
    ensures out == [Header] + Rows(Cells(firstWeekday, DaysInMonth(year, month))) + [Newline, Newline]
  {
    var grid := EmitGrid(firstWeekday, DaysInMonth(year, month));
    out := [Header] + grid + [Newline, Newline];
  }

  /** `PrintCalendar` with the first-day weekday found through `Week`,
      relative to the clock's `today` and its weekday index `w`. */
  method PrintCalendarFromClock(d: Date, today: Date, w: int) returns (out: seq<Token>)
    requires MonthIndexable(d.month)
    requires WeekDefined(Date(d.year, d.month, 1), today, w)
    ensures out == [Header]
      + Rows(Cells(WeekIndex(Date(d.year, d.month, 1), today, w), DaysInMonth(d.year, d.month)))
      + [Newline, Newline]
  {
    var firstDayWeekday := WeekIndex(Date(d.year, d.month, 1), today, w);
    out := PrintCalendar(d.year, d.month, firstDayWeekday);
  }

  /** What a printed month shows: the header first, the cells (blanks, then
      1..days) in order once the line breaks are dropped, a break after every
      seventh cell, and the trailing blank line. */
  lemma PrintedMonth(first: nat, days: nat, out: seq<Token>)
    requires first <= 6
    requires out == [Header] + Rows(Cells(first, days)) + [Newline, Newline]
    ensures out[0] == Header
    ensures WithoutBreaks(out[1..]) == Cells(first, days)
    ensures |out| == 3 + first + days + (first + days) / 7
    ensures out[|out| - 2..] == [Newline, Newline]
  {
    var cells := Cells(first, days);
    CellsHaveNoBreaks(first, days);
    RowsKeepCells(cells);
    RowsLength(cells);
    assert out[1..] == Rows(cells) + [Newline, Newline];
    WithoutBreaksConcat(Rows(cells), [Newline, Newline]);
    assert WithoutBreaks([Newline, Newline]) == [];
  }

  /** March 2018 starts on a Thursday: four blanks, then 1 .. 31 in five full
      rows. */
  lemma March2018()
    ensures WeekIndex(Date(2018, 3, 1), Date(2018, 3, 28), 3) == 4
    ensures DaysInMonth(2018, 3) == 31
    ensures Rows(Cells(4, 31))[..4] == Blanks(4)
    ensures Rows(Cells(4, 31))[4] == Num(1)
    ensures |Rows(Cells(4, 31))| == 40
    ensures Rows(Cells(4, 31))[38] == Num(31)
    ensures Rows(Cells(4, 31))[39] == Newline
  {
    WeekExamples2018();
    var cells := Cells(4, 31);
    CellsHaveNoBreaks(4, 31);
    RowsLength(cells);
    var r := Rows(cells);
    RowsAt(cells, 38);
    CellsAt(4, 31, 34);
    RowsAt(cells, 39);
    RowsAt(cells, 4);
    CellsAt(4, 31, 4);
    forall j | 0 <= j < 4
      ensures r[j] == Blank
    {
      RowsAt(cells, j);
      CellsAt(4, 31, j);
    }
  }
}
