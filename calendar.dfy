/**
 * The month grid (Calendar.js, showMonth): six weeks of consecutive days,
 * starting on the weekday-0 day on or before the given date, each day
 * classified for display. The grid is returned as data; "today" is a
 * parameter instead of a clock read at load time.
 */
module Calendar {
  import opened GeezDates

  /** Number of cells: six rows of seven days. */
  const GridSize: int := 42

  /** The class list of one cell: a weekend or weekday column of the shown month, or a day of another month. */
  datatype DayClass = Weekend | Week | Offset

  datatype Cell = Cell(date: GeezDate, dayClass: DayClass, isToday: bool)

  /** What showMonth returns besides markup: the month shown (its name index) and its year. */
  datatype MonthView = MonthView(cells: seq<Cell>, month: int, year: int)

  /** Day number of the first cell: the given date moved back to weekday 0. */
  function GridStart(start: GeezDate): int {
    start.julianDay - start.DayOfWeek()
  }

  /** Cell i of the grid for `start` with `today` highlighted. */
  predicate CellRule(start: GeezDate, today: GeezDate, i: int, c: Cell) {
    && Consistent(c.date) && c.date.julianDay == GridStart(start) + i
    && c.dayClass == (if c.date.month != start.month then Offset
                      else if i % 7 == 0 || i % 7 == 6 then Weekend
                      else Week)
    && (c.isToday <==> c.date.month == start.month && c.date.dayOfMonth == today.dayOfMonth
                       && start.month == today.month && start.year == today.year)
  }

  predicate IsMonthGrid(start: GeezDate, today: GeezDate, cells: seq<Cell>) {
    && |cells| == GridSize
    && forall i :: 0 <= i < |cells| ==> CellRule(start, today, i, cells[i])
  }

  /** Builds the grid of the month of `start`, walking 42 days one at a time. */
  method ShowMonth(start: GeezDate, today: GeezDate) returns (view: MonthView)
    ensures IsMonthGrid(start, today, view.cells)
    ensures view.month == start.month && view.year == start.year
  {
    var thisMonth := start.month;
    var thisYear := start.year;
    var firstDay := start.DayOfWeek();
    var day := start.PlusDays(-firstDay);
    var cells: seq<Cell> := [];
    for i := 0 to GridSize
      invariant |cells| == i
      invariant Consistent(day) && day.julianDay == GridStart(start) + i
      invariant forall k :: 0 <= k < i ==> CellRule(start, today, k, cells[k])
    {
      var dayClass: DayClass;
      var isToday := false;
      if day.month == thisMonth {
        if i % 7 == 0 || i % 7 == 6 {
          dayClass := Weekend;
        } else {
          dayClass := Week;
        }
        if day.dayOfMonth == today.dayOfMonth && thisMonth == today.month && thisYear == today.year {
          isToday := true;
        }
      } else {
        dayClass := Offset;
      }
      cells := cells + [Cell(day, dayClass, isToday)];
      day := day.PlusDays(1);
    }
    view := MonthView(cells, thisMonth, thisYear);
  }

  /** The column of a cell is its weekday, so the first column is weekday 0. */
  lemma ColumnIsWeekday(start: GeezDate, today: GeezDate, cells: seq<Cell>)
    requires IsMonthGrid(start, today, cells)
    ensures forall i :: 0 <= i < |cells| ==> cells[i].date.DayOfWeek() == i % 7
    ensures forall i :: 0 <= i < |cells| && cells[i].dayClass != Offset ==>
              (cells[i].dayClass == Weekend <==> cells[i].date.DayOfWeek() in {0, 6})
  {
    forall i | 0 <= i < |cells|
      ensures cells[i].date.DayOfWeek() == i % 7
    {
      assert CellRule(start, today, i, cells[i]);
      var x := start.julianDay + 1;
      assert cells[i].date.julianDay + 1 == 7 * (x / 7) + i;
      SevenShift(i, 7 * (x / 7), 0);
    }
  }

  /** Cells are consecutive days in order, and the given date sits in the first row. */
  lemma CellsConsecutive(start: GeezDate, today: GeezDate, cells: seq<Cell>)
    requires IsMonthGrid(start, today, cells)
    ensures forall i :: 0 <= i < |cells| - 1 ==> cells[i + 1].date == cells[i].date.PlusDays(1)
    ensures cells[0].date.julianDay <= start.julianDay < cells[0].date.julianDay + 7
    ensures Consistent(start) ==> cells[start.DayOfWeek()].date == start
  {
    forall i | 0 <= i < |cells| - 1
      ensures cells[i + 1].date == cells[i].date.PlusDays(1)
    {
      assert CellRule(start, today, i, cells[i]) && CellRule(start, today, i + 1, cells[i + 1]);
      ConsistentFromJdn(cells[i + 1].date);
    }
    assert CellRule(start, today, 0, cells[0]);
    if Consistent(start) {
      var c := cells[start.DayOfWeek()].date;
      assert CellRule(start, today, start.DayOfWeek(), cells[start.DayOfWeek()]);
      ToJdnInjective(c.year, c.month, c.dayOfMonth, start.year, start.month, start.dayOfMonth);
    }
  }

  /** Two valid dates of the same month number in different years are more than 41 days apart. */
  lemma SameMonthOtherYearFar(y1: int, d1: int, y2: int, d2: int, month: int)
    requires Validate(y1, month, d1) && Validate(y2, month, d2) && y1 > y2
    ensures ToJdn(y1, month, d1) - ToJdn(y2, month, d2) > 41
  {
    assert y1 / 4 >= y2 / 4 by {
      assert 4 * (y1 / 4) + y1 % 4 > 4 * (y2 / 4) + y2 % 4;
    }
  }

  /**
   * A valid date k days after day 1 of a valid month, with -7 < k < 42, lies
   * in a month with the same number exactly when 0 <= k < the month's length.
   */
  lemma OffsetInMonth(year: int, month: int, g: GeezDate, k: int)
    requires Validate(year, month, 1) && -7 < k < GridSize
    requires Consistent(g) && g.julianDay == ToJdn(year, month, 1) + k
    ensures g.month == month <==> 0 <= k < MaxDate(year, month)
    ensures 0 <= k < MaxDate(year, month) ==> g == Of(year, month, k + 1).value
  {
    if 0 <= k < MaxDate(year, month) {
      assert ToJdn(year, month, 1) + k == ToJdn(year, month, k + 1);
      ToJdnInjective(g.year, g.month, g.dayOfMonth, year, month, k + 1);
    } else if g.month == month {
      if g.year > year {
        SameMonthOtherYearFar(g.year, g.dayOfMonth, year, 1, month);
      } else if g.year < year {
        SameMonthOtherYearFar(year, 1, g.year, g.dayOfMonth, month);
      }
      assert false;
    }
  }

  /**
   * For a grid built from day 1 of a month (as the page does), the cells of
   * that month are one block from column DayOfWeek(), holding its days 1 to
   * MaxDate in order; all other cells are offset days.
   */
  lemma MonthBlock(start: GeezDate, today: GeezDate, cells: seq<Cell>)
    requires IsMonthGrid(start, today, cells)
    requires Consistent(start) && start.dayOfMonth == 1
    ensures forall i :: 0 <= i < |cells| ==>
              (cells[i].dayClass != Offset <==>
               start.DayOfWeek() <= i < start.DayOfWeek() + MaxDate(start.year, start.month))
    ensures forall i :: 0 <= i < |cells| && cells[i].dayClass != Offset ==>
              cells[i].date == Of(start.year, start.month, i - start.DayOfWeek() + 1).value
  {
    forall i | 0 <= i < |cells|
      ensures cells[i].dayClass != Offset <==>
              start.DayOfWeek() <= i < start.DayOfWeek() + MaxDate(start.year, start.month)
      ensures cells[i].dayClass != Offset ==>
              cells[i].date == Of(start.year, start.month, i - start.DayOfWeek() + 1).value
    {
      assert CellRule(start, today, i, cells[i]);
      OffsetInMonth(start.year, start.month, cells[i].date, i - start.DayOfWeek());
    }
  }

  /** Every day of the shown month has its cell. */
  lemma MonthCovered(start: GeezDate, today: GeezDate, cells: seq<Cell>, day: int)
    requires IsMonthGrid(start, today, cells)
    requires Consistent(start) && start.dayOfMonth == 1
    requires 1 <= day <= MaxDate(start.year, start.month)
    ensures 0 <= start.DayOfWeek() + day - 1 < |cells|
    ensures cells[start.DayOfWeek() + day - 1].dayClass != Offset
    ensures cells[start.DayOfWeek() + day - 1].date.dayOfMonth == day
  {
    MonthBlock(start, today, cells);
  }

  /** Offset cells are never weekend, week or today; a today cell matches today's day, month and year. */
  lemma TodayOnlyInMonth(start: GeezDate, today: GeezDate, cells: seq<Cell>)
    requires IsMonthGrid(start, today, cells)
    ensures forall i :: 0 <= i < |cells| && cells[i].dayClass == Offset ==> !cells[i].isToday
    ensures forall i :: 0 <= i < |cells| && cells[i].isToday ==>
              start.month == today.month && start.year == today.year &&
              cells[i].date.dayOfMonth == today.dayOfMonth && cells[i].dayClass != Offset
  {
    forall i | 0 <= i < |cells|
      ensures cells[i].dayClass == Offset ==> !cells[i].isToday
    {
      assert CellRule(start, today, i, cells[i]);
    }
  }

  /**
   * In a grid built from day 1 of a month at most one cell is today, and
   * exactly one when today is a valid date of that month.
   */
  lemma TodayAtMostOnce(start: GeezDate, today: GeezDate, cells: seq<Cell>)
    requires IsMonthGrid(start, today, cells)
    requires Consistent(start) && start.dayOfMonth == 1
    ensures forall i, j :: 0 <= i < |cells| && 0 <= j < |cells| && cells[i].isToday && cells[j].isToday ==> i == j
    ensures Consistent(today) && today.year == start.year && today.month == start.month ==>
              cells[start.DayOfWeek() + today.dayOfMonth - 1].isToday
  {
    MonthBlock(start, today, cells);
    TodayOnlyInMonth(start, today, cells);
    if Consistent(today) && today.year == start.year && today.month == start.month {
      MonthCovered(start, today, cells, today.dayOfMonth);
      assert CellRule(start, today, start.DayOfWeek() + today.dayOfMonth - 1, cells[start.DayOfWeek() + today.dayOfMonth - 1]);
    }
  }
}
