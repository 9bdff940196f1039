/**
 * The arithmetic converter of secondCalendarDate.js (toEthiopianDate): a
 * Gregorian year, month and day to a year, month and day of the Ethiopian
 * calendar, treating every Gregorian month as 30 days long and the
 * Ethiopian year as beginning on 10 September.
 */
module SecondCalendarDate {
  import opened GeezDates

  /** The most days month 13 may hold in `ethYear`: 6 in years with remainder 3 modulo 4, else 5. */
  function PagumeLength(ethYear: int): (r: int)
    ensures r == MaxDate(ethYear, 13)
  {
    if ethYear % 4 == 3 then 6 else 5
  }

  /** Day of a 360-day year of twelve 30-day Gregorian months, counted from 1. */
  function ThirtyDayIndex(gMonth: int, gDay: int): int {
    30 * (gMonth - 1) + gDay
  }

  /** ThirtyDayIndex of 10 September, the first day of the Ethiopian year. */
  const NewYearIndex: int := 250

  /**
   * Reference definition of the conversion: count 30-day days from
   * 10 September (wrapping at 360) and split the count into a month and a
   * day; the year is gYear - 7 from 10 September on and gYear - 8 before.
   */
  function EthiopianOf(gYear: int, gMonth: int, gDay: int): (r: (int, int, int))
    ensures 1 <= r.1 <= 12 && 1 <= r.2 <= 30
    ensures 30 * (r.1 - 1) + r.2 == (ThirtyDayIndex(gMonth, gDay) - NewYearIndex) % 360 + 1
  {
    var p := ThirtyDayIndex(gMonth, gDay);
    var k := (p - NewYearIndex) % 360;
    (if p >= NewYearIndex then gYear - 7 else gYear - 8, k / 30 + 1, k % 30 + 1)
  }

  /**
   * The converter as written. For a real Gregorian month and day the result
   * is the reference one, so month 13 is never produced; for any input a
   * month-13 result is clamped to the length of month 13.
   */
  method ToEthiopianDate(gYear: int, gMonth: int, gDay: int) returns (ethYear: int, ethMonth: int, ethDay: int)
    ensures ethMonth == 13 ==> ethDay <= PagumeLength(ethYear)
    ensures 1 <= gMonth <= 12 && 1 <= gDay <= 31 ==>
              && (ethYear, ethMonth, ethDay) == EthiopianOf(gYear, gMonth, gDay)
              && 1 <= ethMonth <= 12 && 1 <= ethDay <= 30
              && ethDay == (if gDay + 21 <= 30 then gDay + 21 else gDay - 9)
              && (ethYear == gYear - 8 <==> gMonth < 9 || (gMonth == 9 && gDay < 10))
              && (ethYear == gYear - 7 <==> !(gMonth < 9 || (gMonth == 9 && gDay < 10)))
  {
    ethYear := gYear - 7;
    ethMonth := gMonth - 9;
    ethDay := gDay + 21;

    if ethDay > 30 {
      ethDay := ethDay - 30;
      ethMonth := ethMonth + 1;
    }

    if ethMonth <= 0 {
      ethMonth := ethMonth + 12;
      ethYear := ethYear - 1;
    }

    if ethMonth > 12 {
      ethMonth := 13;
      ethDay := gDay - 10;
    }

    if ethMonth == 13 {
      var isLeapYear := ethYear % 4 == 3;
      if ethDay > (if isLeapYear then 6 else 5) {
        ethDay := if isLeapYear then 6 else 5;
      }
    }

    if 1 <= gMonth <= 12 && 1 <= gDay <= 31 {
      ReferenceSplit(gYear, gMonth, gDay);
    }
  }

  /**
   * For a real Gregorian month and day the reference result is the day
   * gDay + 21 or gDay - 9 of month gMonth - 9 or gMonth - 8, moved into
   * [1, 12]: the steps the converter takes.
   */
  lemma ReferenceSplit(gYear: int, gMonth: int, gDay: int)
    requires 1 <= gMonth <= 12 && 1 <= gDay <= 31
    ensures var r := EthiopianOf(gYear, gMonth, gDay);
            var m := if gDay + 21 > 30 then gMonth - 8 else gMonth - 9;
            && r.2 == (if gDay + 21 > 30 then gDay - 9 else gDay + 21)
            && r.1 == (if m <= 0 then m + 12 else m)
            && r.0 == (if m <= 0 then gYear - 8 else gYear - 7)
  {
    var p := ThirtyDayIndex(gMonth, gDay);
    var m := if gDay + 21 > 30 then gMonth - 8 else gMonth - 9;
    var d := if gDay + 21 > 30 then gDay - 9 else gDay + 21;
    var m' := if m <= 0 then m + 12 else m;
    assert p - NewYearIndex == 360 * (if m <= 0 then -1 else 0) + (30 * (m' - 1) + d - 1);
    SplitBy360(p - NewYearIndex, if m <= 0 then -1 else 0, 30 * (m' - 1) + d - 1);
    SplitBy30(30 * (m' - 1) + d - 1, m' - 1, d - 1);
  }

  /** x == 360 * q + k with 0 <= k < 360 gives quotient q and remainder k. */
  lemma SplitBy360(x: int, q: int, k: int)
    requires 0 <= k < 360 && x == 360 * q + k
    ensures x / 360 == q && x % 360 == k
  {
  }

  /** x == 30 * q + k with 0 <= k < 30 gives quotient q and remainder k. */
  lemma SplitBy30(x: int, q: int, k: int)
    requires 0 <= k < 30 && x == 30 * q + k
    ensures x / 30 == q && x % 30 == k
  {
  }

  /**
   * Every Gregorian month is taken as 30 days long: the 31st of a month and
   * the 1st of the next give the same date.
   */
  lemma ThirtyFirstMeetsNextFirst(gYear: int, gMonth: int)
    requires 1 <= gMonth <= 11
    ensures EthiopianOf(gYear, gMonth, 31) == EthiopianOf(gYear, gMonth + 1, 1)
  {
    assert ThirtyDayIndex(gMonth, 31) == ThirtyDayIndex(gMonth + 1, 1);
  }

  /**
   * Successive days within one Gregorian month give successive Ethiopian
   * days, the year turning after day 30 of month 12.
   */
  lemma NextDayAdvances(gYear: int, gMonth: int, gDay: int)
    requires 1 <= gMonth <= 12 && 1 <= gDay <= 30
    ensures var a := EthiopianOf(gYear, gMonth, gDay);
            var b := EthiopianOf(gYear, gMonth, gDay + 1);
            if a.2 < 30 then b == (a.0, a.1, a.2 + 1)
            else b.2 == 1 && b.1 == (if a.1 == 12 then 1 else a.1 + 1) && b.0 == (if a.1 == 12 then a.0 + 1 else a.0)
  {
    ReferenceSplit(gYear, gMonth, gDay);
    ReferenceSplit(gYear, gMonth, gDay + 1);
  }
}
