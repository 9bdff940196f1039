/**
 * Month navigation of the page (script.js): the displayed year `y` and
 * month `m`, moved one month forward or back with wrap-around, and the
 * grid rendered for day 1 of the displayed month after each move.
 */
module Navigation {
  import opened GeezDates
  import opened Calendar

  /** The month after (year, month). */
  function Next(year: int, month: int): (r: (int, int))
    ensures 1 <= month <= 13 ==> 1 <= r.1 <= 13 && 13 * r.0 + r.1 == 13 * year + month + 1
  {
    if month < 13 then (year, month + 1) else (year + 1, 1)
  }

  /** The month before (year, month). */
  function Prev(year: int, month: int): (r: (int, int))
    ensures 1 <= month <= 13 ==> 1 <= r.1 <= 13 && 13 * r.0 + r.1 == 13 * year + month - 1
  {
    if month > 1 then (year, month - 1) else (year - 1, 13)
  }

  /** A month in [1, 13] and its year are determined by 13 * year + month. */
  lemma MonthCountUnique(y1: int, m1: int, y2: int, m2: int)
    requires 1 <= m1 <= 13 && 1 <= m2 <= 13
    requires 13 * y1 + m1 == 13 * y2 + m2
    ensures y1 == y2 && m1 == m2
  {
    assert 13 * (y1 - y2) == m2 - m1;
  }

  /** Going back after going forward, or forward after going back, returns to the same month. */
  lemma {:induction false} PrevNextInverse(year: int, month: int)
    requires 1 <= month <= 13
    ensures Prev(Next(year, month).0, Next(year, month).1) == (year, month)
    ensures Next(Prev(year, month).0, Prev(year, month).1) == (year, month)
  {
    var n := Next(year, month);
    var p := Prev(n.0, n.1);
    MonthCountUnique(p.0, p.1, year, month);
    var p' := Prev(year, month);
    var n' := Next(p'.0, p'.1);
    MonthCountUnique(n'.0, n'.1, year, month);
  }

  /** The page state: displayed year and month. */
  class MonthCursor {
    var y: int
    var m: int

    ghost predicate Valid()
      reads this
    {
      1 <= m <= 13
    }

    /** Starts at the month of today, given as a day number. */
    constructor (todayJdn: int)
      ensures Valid()
      ensures y == JdnToGeez(todayJdn).year && m == JdnToGeez(todayJdn).month
    {
      var current := JdnToGeez(todayJdn);
      y := current.year;
      m := current.month;
    }

    /** The grid for day 1 of the displayed month (renderCalendar without the page updates). */
    method Render(today: GeezDate) returns (view: MonthView)
      requires Valid()
      ensures Of(y, m, 1).Some?
      ensures IsMonthGrid(Of(y, m, 1).value, today, view.cells)
      ensures view.month == m && view.year == y
    {
      var first := Of(y, m, 1);
      view := ShowMonth(first.value, today);
    }

    /** Moves to the next month and renders it. */
    method NextMonth(today: GeezDate) returns (view: MonthView)
      requires Valid()
      modifies this
      ensures Valid()
      ensures (y, m) == Next(old(y), old(m))
      ensures Of(y, m, 1).Some? && IsMonthGrid(Of(y, m, 1).value, today, view.cells)
      ensures view.month == m && view.year == y
    {
      if m < 13 {
        m := m + 1;
      } else {
        m := 1;
        y := y + 1;
      }
      view := Render(today);
    }

    /** Moves to the previous month and renders it. */
    method PrevMonth(today: GeezDate) returns (view: MonthView)
      requires Valid()
      modifies this
      ensures Valid()
      ensures (y, m) == Prev(old(y), old(m))
      ensures Of(y, m, 1).Some? && IsMonthGrid(Of(y, m, 1).value, today, view.cells)
      ensures view.month == m && view.year == y
    {
      if m > 1 {
        m := m - 1;
      } else {
        m := 13;
        y := y - 1;
      }
      view := Render(today);
    }
  }

  /** Pressing next and then previous leaves the page on the month it showed. */
  method NextThenPrev(cursor: MonthCursor, today: GeezDate)
    requires cursor.Valid()
    modifies cursor
    ensures cursor.Valid()
    ensures cursor.y == old(cursor.y) && cursor.m == old(cursor.m)
  {
    var _ := cursor.NextMonth(today);
    var _ := cursor.PrevMonth(today);
    PrevNextInverse(old(cursor.y), old(cursor.m));
  }
}
