/**
 * The table-driven converter of script.js (toSecondCalendarDate): a
 * Gregorian year, month and day to the second calendar's year, month and
 * day, looking the month up in a table of the Gregorian dates on which
 * each month of the second calendar begins.
 */
module SecondCalendarTable {
  import opened Wrappers

  /** Row i holds the Gregorian (month, day) on which month i + 1 begins, in the order of the original. */
  const MonthStart: seq<(int, int)> :=
    [(9, 11), (10, 11), (11, 10), (12, 10), (1, 9), (2, 8),
     (3, 10), (4, 9), (5, 9), (6, 8), (7, 8), (8, 7), (9, 6)]

  /** The result; sMonth and sDay stay undefined (None) when no row starts on or before the input. */
  datatype SecondDate = SecondDate(sYear: int, sMonth: Option<int>, sDay: Option<int>)

  /** Gregorian leap years (isLeapFC). */
  predicate IsGregorianLeap(year: int) {
    (year % 4 == 0 && year % 100 != 0) || year % 400 == 0
  }

  /** The Gregorian leap rule repeats every 400 years. */
  lemma GregorianLeapCycle(year: int)
    ensures IsGregorianLeap(year + 400) == IsGregorianLeap(year)
  {
    assert year + 400 == 4 * (year / 4 + 100) + year % 4;
    assert year + 400 == 100 * (year / 100 + 4) + year % 100;
    assert year + 400 == 400 * (year / 400 + 1) + year % 400;
  }

  /** Day of September on which the second calendar's year begins. */
  function NewYearDay(fYear: int): (d: int)
    ensures d == 11 || d == 12
  {
    if IsGregorianLeap(fYear) then 12 else 11
  }

  /** A Gregorian (month, day) not after another within one year. */
  predicate NotAfter(a: (int, int), b: (int, int)) {
    a.0 < b.0 || (a.0 == b.0 && a.1 <= b.1)
  }

  /** The row's test in the loop: the input is on or after the row's start, in Gregorian order. */
  predicate RowMatches(row: (int, int), fMonth: int, fDay: int): (b: bool)
    ensures 1 <= row.1 <= 31 && 1 <= fDay <= 31 ==> (b <==> 32 * row.0 + row.1 <= 32 * fMonth + fDay)
  {
    fMonth > row.0 || (fMonth == row.0 && fDay >= row.1)
  }

  /** Index of the last row of `table` that matches the input. */
  function LastMatch(table: seq<(int, int)>, fMonth: int, fDay: int): (r: Option<nat>)
    ensures r.Some? ==> r.value < |table|
  {
    if table == [] then None
    else if RowMatches(table[|table| - 1], fMonth, fDay) then Some(|table| - 1)
    else LastMatch(table[..|table| - 1], fMonth, fDay)
  }

  /** LastMatch picks a matching row after which no row matches, and is None exactly when no row matches. */
  lemma {:induction false} LastMatchIsLast(table: seq<(int, int)>, fMonth: int, fDay: int)
    ensures LastMatch(table, fMonth, fDay).None? <==>
              forall j :: 0 <= j < |table| ==> !RowMatches(table[j], fMonth, fDay)
    ensures LastMatch(table, fMonth, fDay).Some? ==>
              var i := LastMatch(table, fMonth, fDay).value;
              RowMatches(table[i], fMonth, fDay) &&
              forall j :: i < j < |table| ==> !RowMatches(table[j], fMonth, fDay)
  {
    if table != [] && !RowMatches(table[|table| - 1], fMonth, fDay) {
      var front := table[..|table| - 1];
      LastMatchIsLast(front, fMonth, fDay);
      assert forall j :: 0 <= j < |front| ==> front[j] == table[j];
    }
  }

  /** Day of the month counted from the row's start, wrapped into a 30-day month. */
  function DayFromRow(row: (int, int), fDay: int): (sDay: int)
    ensures 1 <= fDay <= 31 && 6 <= row.1 <= 11 ==> 1 <= sDay <= 30
    ensures (sDay - (fDay - row.1 + 1)) % 30 == 0
  {
    var sDay := fDay - row.1 + 1;
    if sDay < 1 then sDay + 30 else sDay
  }

  /** The conversion as written: the last matching row of MonthStart wins. */
  method ToSecondCalendarDate(fYear: int, fMonth: int, fDay: int) returns (r: SecondDate)
    ensures r.sYear == if fMonth < 9 || (fMonth == 9 && fDay < NewYearDay(fYear)) then fYear - 8 else fYear - 7
    ensures r.sMonth.None? <==> LastMatch(MonthStart, fMonth, fDay).None?
    ensures r.sDay.None? <==> r.sMonth.None?
    ensures r.sMonth.Some? ==> r.sMonth.value == LastMatch(MonthStart, fMonth, fDay).value + 1
    ensures r.sMonth.Some? ==> 1 <= r.sMonth.value <= 13
    ensures r.sMonth.Some? ==> r.sDay.value == DayFromRow(MonthStart[r.sMonth.value - 1], fDay)
    ensures r.sDay.Some? && 1 <= fDay <= 31 ==> 1 <= r.sDay.value <= 30
  {
    var sYear := fYear - 7;
    var sMonth: Option<int> := None;
    var sDay: Option<int> := None;
    if fMonth < 9 || (fMonth == 9 && fDay < NewYearDay(fYear)) {
      sYear := sYear - 1;
    }
    for i := 0 to |MonthStart|
      invariant sDay.None? <==> sMonth.None?
      invariant sMonth.None? <==> LastMatch(MonthStart[..i], fMonth, fDay).None?
      invariant sMonth.Some? ==>
                  var k := LastMatch(MonthStart[..i], fMonth, fDay).value;
                  sMonth.value == k + 1 && sDay.value == DayFromRow(MonthStart[k], fDay)
    {
      var (fM, fD) := MonthStart[i];
      assert MonthStart[..i + 1][..i] == MonthStart[..i];
      if fMonth > fM || (fMonth == fM && fDay >= fD) {
        var day := fDay - fD + 1;
        if day < 1 {
          day := day + 30;
        }
        sMonth := Some(i + 1);
        sDay := Some(day);
      }
    }
    assert MonthStart[..|MonthStart|] == MonthStart;
    if sMonth.Some? {
      MonthStartDay(sMonth.value - 1);
    }
    r := SecondDate(sYear, sMonth, sDay);
  }

  /** For a real Gregorian month and day, no row matches exactly on 1 to 8 January. */
  lemma NoMonthInEarlyJanuary(fMonth: int, fDay: int)
    requires 1 <= fMonth <= 12 && 1 <= fDay <= 31
    ensures LastMatch(MonthStart, fMonth, fDay).None? <==> fMonth == 1 && fDay <= 8
  {
    LastMatchIsLast(MonthStart, fMonth, fDay);
    if !(fMonth == 1 && fDay <= 8) {
      assert RowMatches(MonthStart[4], fMonth, fDay);
    }
  }

  /** Every month of the table begins between the 6th and the 11th of a Gregorian month. */
  lemma MonthStartDay(k: int)
    requires 0 <= k < |MonthStart|
    ensures 6 <= MonthStart[k].1 <= 11
  {
  }

  /**
   * As written, every date from 6 September to 31 December falls in month
   * 13: the row (9, 6) comes last and matches them all.
   */
  lemma LateYearIsMonthThirteen(fMonth: int, fDay: int)
    requires (fMonth == 9 && fDay >= 6) || 10 <= fMonth <= 12
    ensures LastMatch(MonthStart, fMonth, fDay) == Some(12)
  {
  }

  /**
   * 15 December: the row of month 4, (12, 10), starts on or before it and
   * after the row of month 13, (9, 6), yet month 13 is picked.
   */
  lemma MidDecemberCounterexample()
    ensures LastMatch(MonthStart, 12, 15) == Some(12)
    ensures DayFromRow(MonthStart[12], 15) == 10
    ensures RowMatches(MonthStart[3], 12, 15) && NotAfter(MonthStart[12], MonthStart[3]) && MonthStart[12] != MonthStart[3]
  {
    LateYearIsMonthThirteen(12, 15);
  }

  /** The same rows in Gregorian order, and the month each begins. */
  const OrderedStart: seq<(int, int)> :=
    [(1, 9), (2, 8), (3, 10), (4, 9), (5, 9), (6, 8), (7, 8),
     (8, 7), (9, 6), (9, 11), (10, 11), (11, 10), (12, 10)]
  const OrderedMonth: seq<int> := [5, 6, 7, 8, 9, 10, 11, 12, 13, 1, 2, 3, 4]

  /** The ordered rows are the rows of MonthStart, sorted by their Gregorian start. */
  lemma OrderedTableAgrees()
    ensures |OrderedStart| == |OrderedMonth| == |MonthStart|
    ensures forall k :: 0 <= k < |OrderedStart| ==> 1 <= OrderedMonth[k] <= 13 && MonthStart[OrderedMonth[k] - 1] == OrderedStart[k]
    ensures forall j, k :: 0 <= j < k < |OrderedStart| ==> NotAfter(OrderedStart[j], OrderedStart[k]) && OrderedStart[j] != OrderedStart[k]
  {
  }

  /**
   * The last matching row of the ordered table is the latest month start on
   * or before the input, among all rows of MonthStart.
   */
  lemma OrderedPicksLatestStart(fMonth: int, fDay: int)
    ensures LastMatch(OrderedStart, fMonth, fDay).None? <==>
              forall j :: 0 <= j < |MonthStart| ==> !RowMatches(MonthStart[j], fMonth, fDay)
    ensures LastMatch(OrderedStart, fMonth, fDay).Some? ==>
              var k := LastMatch(OrderedStart, fMonth, fDay).value;
              && 1 <= OrderedMonth[k] <= 13
              && MonthStart[OrderedMonth[k] - 1] == OrderedStart[k]
              && RowMatches(OrderedStart[k], fMonth, fDay)
              && 6 <= OrderedStart[k].1 <= 11
              && forall j :: 0 <= j < |MonthStart| && RowMatches(MonthStart[j], fMonth, fDay) ==>
                   NotAfter(MonthStart[j], OrderedStart[k])
  {
    LastMatchIsLast(OrderedStart, fMonth, fDay);
    var m := LastMatch(OrderedStart, fMonth, fDay);
    if m.Some? {
      OrderedRow(m.value);
      RowsAreOrdered(fMonth, fDay, m.value, true);
    } else {
      RowsAreOrdered(fMonth, fDay, 0, false);
    }
  }

  /** The conversion with the table in Gregorian order: the latest month start on or before the input wins. */
  method ToSecondCalendarDateOrdered(fYear: int, fMonth: int, fDay: int) returns (r: SecondDate)
    ensures r.sYear == if fMonth < 9 || (fMonth == 9 && fDay < NewYearDay(fYear)) then fYear - 8 else fYear - 7
    ensures r.sDay.None? <==> r.sMonth.None?
    ensures r.sMonth.None? <==> forall j :: 0 <= j < |MonthStart| ==> !RowMatches(MonthStart[j], fMonth, fDay)
    ensures r.sMonth.Some? ==>
              && 1 <= r.sMonth.value <= 13
              && RowMatches(MonthStart[r.sMonth.value - 1], fMonth, fDay)
              && (forall j :: 0 <= j < |MonthStart| && RowMatches(MonthStart[j], fMonth, fDay) ==>
                    NotAfter(MonthStart[j], MonthStart[r.sMonth.value - 1]))
              && r.sDay.value == DayFromRow(MonthStart[r.sMonth.value - 1], fDay)
    ensures r.sDay.Some? && 1 <= fDay <= 31 ==> 1 <= r.sDay.value <= 30
  {
    var sYear := fYear - 7;
    var sMonth: Option<int> := None;
    var sDay: Option<int> := None;
    if fMonth < 9 || (fMonth == 9 && fDay < NewYearDay(fYear)) {
      sYear := sYear - 1;
    }
    for i := 0 to |OrderedStart|
      invariant sDay.None? <==> sMonth.None?
      invariant sMonth.None? <==> LastMatch(OrderedStart[..i], fMonth, fDay).None?
      invariant sMonth.Some? ==>
                  var k := LastMatch(OrderedStart[..i], fMonth, fDay).value;
                  sMonth.value == OrderedMonth[k] && sDay.value == DayFromRow(OrderedStart[k], fDay)
    {
      var (fM, fD) := OrderedStart[i];
      assert OrderedStart[..i + 1][..i] == OrderedStart[..i];
      if fMonth > fM || (fMonth == fM && fDay >= fD) {
        var day := fDay - fD + 1;
        if day < 1 {
          day := day + 30;
        }
        sMonth := Some(OrderedMonth[i]);
        sDay := Some(day);
      }
    }
    assert OrderedStart[..|OrderedStart|] == OrderedStart;
    OrderedPicksLatestStart(fMonth, fDay);
    r := SecondDate(sYear, sMonth, sDay);
  }

  /** Every row of MonthStart is a row of OrderedStart, and a later-starting matching row would come after `row`. */
  lemma RowsAreOrdered(fMonth: int, fDay: int, row: nat, found: bool)
    requires row < |OrderedStart|
    requires found ==> forall j :: row < j < |OrderedStart| ==> !RowMatches(OrderedStart[j], fMonth, fDay)
    requires !found ==> forall j :: 0 <= j < |OrderedStart| ==> !RowMatches(OrderedStart[j], fMonth, fDay)
    ensures !found ==> forall j :: 0 <= j < |MonthStart| ==> !RowMatches(MonthStart[j], fMonth, fDay)
    ensures found ==> forall j :: 0 <= j < |MonthStart| && RowMatches(MonthStart[j], fMonth, fDay) ==>
                        NotAfter(MonthStart[j], OrderedStart[row])
  {
    OrderedTableAgrees();
    forall j | 0 <= j < |MonthStart| && RowMatches(MonthStart[j], fMonth, fDay)
      ensures found && NotAfter(MonthStart[j], OrderedStart[row])
    {
      var k :| 0 <= k < |OrderedStart| && OrderedStart[k] == MonthStart[j] by {
        assert OrderedStart[OrderedIndex(j)] == MonthStart[j];
      }
      assert !(found && row < k);
    }
  }

  /** Row k of OrderedStart is the row of MonthStart for month OrderedMonth[k]. */
  lemma OrderedRow(k: int)
    requires 0 <= k < |OrderedStart|
    ensures 1 <= OrderedMonth[k] <= 13 && MonthStart[OrderedMonth[k] - 1] == OrderedStart[k]
    ensures 6 <= OrderedStart[k].1 <= 11
  {
  }

  /** Position in OrderedStart of row j of MonthStart. */
  function OrderedIndex(j: int): (k: int)
    requires 0 <= j < |MonthStart|
    ensures 0 <= k < |OrderedStart| && OrderedStart[k] == MonthStart[j] && OrderedMonth[k] == j + 1
  {
    if j < 4 then j + 9 else j - 4
  }

  /** Corrected, 15 December is day 6 of month 4. */
  lemma MidDecemberOrdered()
    ensures LastMatch(OrderedStart, 12, 15) == Some(12) && OrderedMonth[12] == 4
    ensures RowMatches(MonthStart[3], 12, 15) && DayFromRow(MonthStart[3], 15) == 6
    ensures forall j :: 0 <= j < |MonthStart| && RowMatches(MonthStart[j], 12, 15) ==> NotAfter(MonthStart[j], MonthStart[3])
  {
  }
}
