/**
 * The date value type of the calendar (GeezDate.js): a year of twelve
 * 30-day months and a thirteenth month of 5 days, 6 when year % 4 == 3,
 * every date tied to an integer day number.
 *
 * Integer division and remainder are Dafny's Euclidean ones throughout.
 * For day numbers from JOffset on (years from 0 on) they coincide with the
 * truncating operators of the original.
 */
module GeezDates {
  import opened Wrappers

  /** Day number of month 1, day 1 of year 0. */
  const JOffset: int := 1803153
  /** Day number of 1 January 1970, the origin of the Gregorian millisecond clock. */
  const JdnOfEpoch: int := 2311768

  /** The five fields the original constructor stores. */
  datatype GeezDate = GeezDate(year: int, month: int, dayOfMonth: int, dayOfYear: int, julianDay: int)
  {
    /** The date `days` days later (earlier when negative). */
    function PlusDays(days: int): (r: GeezDate)
      ensures Consistent(r)
      ensures r.julianDay == julianDay + days
    {
      JdnToGeez(julianDay + days)
    }

    /** The same month and day `years` years later; fails on 6 Pagume into a common year. */
    function PlusYears(years: int): (r: Option<GeezDate>)
      ensures r.Some? ==> Consistent(r.value)
      ensures r.Some? ==> r.value.year == year + years && r.value.month == month && r.value.dayOfMonth == dayOfMonth
      ensures Consistent(this) ==> (r.None? <==> month == 13 && dayOfMonth == 6 && !IsLeapYear(year + years))
    {
      Of(year + years, month, dayOfMonth)
    }

    /** Weekday of the date, 0 to 6. */
    function DayOfWeek(): (w: int)
      ensures 0 <= w < 7
    {
      (julianDay + 1) % 7
    }

    /** The remainder by 7 of the day number before day 1 of this date's month. */
    function DayOne(): (w: int)
      ensures 0 <= w < 7
      ensures Consistent(this) ==> w == (ToJdn(year, month, 1) - 1) % 7
    {
      (julianDay - dayOfMonth) % 7
    }

    /** Whole days from 1 January 1970 to this date. */
    function ToGregorianDays(): int {
      julianDay - JdnOfEpoch
    }
  }

  predicate IsLeapYear(year: int) {
    year % 4 == 3
  }

  /** Number of days of a month (getMaxDate). */
  function MaxDate(year: int, month: int): (r: int)
    ensures 5 <= r <= 30
    ensures r == 30 <==> month != 13
  {
    if month != 13 then 30 else if IsLeapYear(year) then 6 else 5
  }

  /** Upper bound check on the day of month (validateDate). */
  function ValidateDate(year: int, month: int, dayOfMonth: int): (ok: bool)
    ensures ok <==> dayOfMonth <= MaxDate(year, month)
  {
    if month != 13 then dayOfMonth <= 30
    else (year % 4 == 3 && dayOfMonth <= 6) || (year % 4 != 3 && dayOfMonth <= 5)
  }

  /** Full validation of year, month and day (validate); every Dafny int is an integer. */
  function Validate(year: int, month: int, dayOfMonth: int): (ok: bool)
    ensures ok <==> 1 <= month <= 13 && 1 <= dayOfMonth <= MaxDate(year, month)
    ensures ok ==> dayOfMonth <= 30 && (month == 13 ==> dayOfMonth <= 6)
  {
    var areGreaterThanZero := month > 0 && dayOfMonth > 0;
    var isValidMonth := month <= 13;
    areGreaterThanZero && isValidMonth && ValidateDate(year, month, dayOfMonth)
  }

  /**
   * The constructor: it stores its five arguments when validate accepts
   * year, month and day, and yields no date otherwise.
   */
  function Construct(year: int, month: int, dayOfMonth: int, dayOfYear: int, julianDay: int): (r: Option<GeezDate>)
    ensures r.Some? <==> Validate(year, month, dayOfMonth)
    ensures r.Some? ==> r.value == GeezDate(year, month, dayOfMonth, dayOfYear, julianDay)
  {
    if Validate(year, month, dayOfMonth) then Some(GeezDate(year, month, dayOfMonth, dayOfYear, julianDay))
    else None
  }

  /** Day number of a date (toJdn), with floor(year / 4) for the leap days. */
  function ToJdn(year: int, month: int, dayOfMonth: int): int {
    JOffset + 365 + 365 * (year - 1) + year / 4 + 30 * month + dayOfMonth - 31
  }

  /** A date whose fields agree: valid, day of year and day number derived from year, month and day. */
  predicate Consistent(d: GeezDate) {
    && Validate(d.year, d.month, d.dayOfMonth)
    && d.dayOfYear == 30 * (d.month - 1) + d.dayOfMonth
    && d.julianDay == ToJdn(d.year, d.month, d.dayOfMonth)
  }

  /** Offset of a valid date from day 1 of its year, 0 to 365. */
  function DayIndex(month: int, dayOfMonth: int): int {
    30 * (month - 1) + dayOfMonth - 1
  }

  /** A day number as whole 4-year cycles since JOffset and the rest. */
  lemma CycleSplit(jdn: int, q: int, c: int)
    requires jdn - JOffset == 1461 * q + c && 0 <= c < 1461
    ensures (jdn - JOffset) / 1461 == q && (jdn - JOffset) % 1461 == c
  {
    var d := jdn - JOffset;
    var q', c' := d / 1461, d % 1461;
    assert 1461 * (q' - q) == c - c';
  }

  /** Where a valid date lies in its 4-year cycle. */
  lemma {:induction false} ToJdnInCycle(year: int, month: int, dayOfMonth: int)
    requires Validate(year, month, dayOfMonth)
    ensures (ToJdn(year, month, dayOfMonth) - JOffset) / 1461 == year / 4
    ensures (ToJdn(year, month, dayOfMonth) - JOffset) % 1461 == 365 * (year % 4) + DayIndex(month, dayOfMonth)
  {
    var q, s := year / 4, year % 4;
    assert year == 4 * q + s;
    assert ToJdn(year, month, dayOfMonth) - JOffset == 1461 * q + 365 * s + DayIndex(month, dayOfMonth);
    CycleSplit(ToJdn(year, month, dayOfMonth), q, 365 * s + DayIndex(month, dayOfMonth));
  }

  /** Two valid dates with the same day number are the same date. */
  lemma ToJdnInjective(y1: int, m1: int, d1: int, y2: int, m2: int, d2: int)
    requires Validate(y1, m1, d1) && Validate(y2, m2, d2)
    requires ToJdn(y1, m1, d1) == ToJdn(y2, m2, d2)
    ensures y1 == y2 && m1 == m2 && d1 == d2
  {
    ToJdnInCycle(y1, m1, d1);
    ToJdnInCycle(y2, m2, d2);
    var s1, s2 := y1 % 4, y2 % 4;
    var e1, e2 := DayIndex(m1, d1), DayIndex(m2, d2);
    assert 365 * s1 + e1 == 365 * s2 + e2;
    assert s1 == s2;
    assert y1 == 4 * (y1 / 4) + s1 && y2 == 4 * (y2 / 4) + s2;
    assert 30 * (m1 - m2) == d2 - d1;
  }

  /**
   * The date with the given day number (jdnToGeez), computing year, month
   * and day with integer division.
   */
  function JdnToGeez(jdn: int): (r: GeezDate)
    ensures Consistent(r)
    ensures r.julianDay == jdn
  {
    var r := (jdn - JOffset) % 1461;
    var n := r % 365 + 365 * (r / 1460);
    var year := 4 * ((jdn - JOffset) / 1461) + r / 365 - r / 1460;
    var month := n / 30 + 1;
    var dayOfMonth := n % 30 + 1;
    var dayOfYear := 30 * (month - 1) + dayOfMonth;
    JdnToGeezFields(jdn);
    Construct(year, month, dayOfMonth, dayOfYear, jdn).value
  }

  /** The fields JdnToGeez computes form a valid date with day number jdn. */
  lemma JdnToGeezFields(jdn: int)
    ensures var r := (jdn - JOffset) % 1461;
            var n := r % 365 + 365 * (r / 1460);
            var year := 4 * ((jdn - JOffset) / 1461) + r / 365 - r / 1460;
            Validate(year, n / 30 + 1, n % 30 + 1) && ToJdn(year, n / 30 + 1, n % 30 + 1) == jdn
  {
    var q, r := (jdn - JOffset) / 1461, (jdn - JOffset) % 1461;
    var n := r % 365 + 365 * (r / 1460);
    var year := 4 * q + r / 365 - r / 1460;
    if r == 1460 {
      assert n == 365 && year == 4 * q + 3;
      assert year / 4 == q && year % 4 == 3;
    } else {
      assert r / 1460 == 0 && n == r % 365;
      assert r == 365 * (r / 365) + n;
      assert year == 4 * q + r / 365 && 0 <= r / 365 <= 3;
      assert year / 4 == q && year % 4 == r / 365;
    }
    assert n == 30 * (n / 30) + n % 30;
  }

  /** Factory (of): validates, then derives day of year and day number. */
  function Of(year: int, month: int, dayOfMonth: int): (r: Option<GeezDate>)
    ensures r.Some? <==> Validate(year, month, dayOfMonth)
    ensures r.Some? ==> Consistent(r.value)
    ensures r.Some? ==> r.value.year == year && r.value.month == month && r.value.dayOfMonth == dayOfMonth
  {
    var dayOfYear := 30 * (month - 1) + dayOfMonth;
    var jdn := ToJdn(year, month, dayOfMonth);
    Construct(year, month, dayOfMonth, dayOfYear, jdn)
  }

  /** A consistent date is determined by its day number. */
  lemma ConsistentFromJdn(d: GeezDate)
    requires Consistent(d)
    ensures JdnToGeez(d.julianDay) == d
  {
    var g := JdnToGeez(d.julianDay);
    ToJdnInjective(g.year, g.month, g.dayOfMonth, d.year, d.month, d.dayOfMonth);
  }

  /** Round trip through the day number from a valid (year, month, day). */
  lemma RoundTripFromDate(year: int, month: int, dayOfMonth: int)
    requires Validate(year, month, dayOfMonth)
    ensures Of(year, month, dayOfMonth).Some?
    ensures JdnToGeez(ToJdn(year, month, dayOfMonth)) == Of(year, month, dayOfMonth).value
  {
    ConsistentFromJdn(Of(year, month, dayOfMonth).value);
  }

  /** Round trip through the date from any day number. */
  lemma RoundTripFromJdn(jdn: int)
    ensures var g := JdnToGeez(jdn);
            Of(g.year, g.month, g.dayOfMonth) == Some(g) && ToJdn(g.year, g.month, g.dayOfMonth) == jdn
  {
    var g := JdnToGeez(jdn);
    ConsistentFromJdn(g);
  }

  /** A year has 366 days when year % 4 == 3 and 365 otherwise. */
  lemma YearLength(year: int)
    ensures ToJdn(year + 1, 1, 1) - ToJdn(year, 1, 1) == if IsLeapYear(year) then 366 else 365
  {
    var q, s := year / 4, year % 4;
    assert year == 4 * q + s;
    if s == 3 {
      assert year + 1 == 4 * (q + 1) + 0;
      assert (year + 1) / 4 == q + 1;
    } else {
      assert year + 1 == 4 * q + (s + 1);
      assert (year + 1) / 4 == q;
    }
  }

  /** Four years are always 1461 days apart. */
  lemma FourYearCycle(year: int, month: int, dayOfMonth: int)
    ensures ToJdn(year + 4, month, dayOfMonth) == ToJdn(year, month, dayOfMonth) + 1461
  {
    assert year + 4 == 4 * (year / 4 + 1) + year % 4;
    assert (year + 4) / 4 == year / 4 + 1;
  }

  /** Adding 1461 days moves any valid date four years on. */
  lemma PlusDaysFourYears(d: GeezDate)
    requires Consistent(d)
    ensures d.PlusDays(1461) == d.PlusYears(4).value
  {
    FourYearCycle(d.year, d.month, d.dayOfMonth);
    var later := d.PlusYears(4).value;
    assert later.julianDay == d.julianDay + 1461;
    ConsistentFromJdn(later);
  }

  /** Adding no days gives back a consistent date. */
  lemma PlusDaysZero(d: GeezDate)
    requires Consistent(d)
    ensures d.PlusDays(0) == d
  {
    ConsistentFromJdn(d);
  }

  /** Adding days composes by adding the counts. */
  lemma PlusDaysCompose(d: GeezDate, a: int, b: int)
    ensures d.PlusDays(a).PlusDays(b) == d.PlusDays(a + b)
  {
    var e := d.PlusDays(a);
    assert e.julianDay + b == d.julianDay + (a + b);
    ConsistentFromJdn(e.PlusDays(b));
    ConsistentFromJdn(d.PlusDays(a + b));
  }

  /** The next day is the next weekday. */
  lemma DayOfWeekAdvances(d: GeezDate)
    ensures d.PlusDays(1).DayOfWeek() == (d.DayOfWeek() + 1) % 7
  {
    var e := d.PlusDays(1);
    assert e.julianDay + 1 == (d.julianDay + 1) + 1;
    SevenShift(d.julianDay + 1, 1, 1);
  }

  /** Moving by a and by b days lands on the same weekday when a and b differ by a multiple of 7. */
  lemma SevenShift(x: int, a: int, b: int)
    requires (b - a) % 7 == 0
    ensures (x + a) % 7 == (x % 7 + b) % 7
  {
    var q := x / 7;
    assert x == 7 * q + x % 7;
    assert b - a == 7 * ((b - a) / 7);
  }

  /** Every day of one month gives the same DayOne value. */
  lemma DayOneMonthConstant(a: GeezDate, b: GeezDate)
    requires Consistent(a) && Consistent(b)
    requires a.year == b.year && a.month == b.month
    ensures a.DayOne() == b.DayOne()
  {
  }

  /** DayOne is the weekday of day 1 of the month, moved back by two. */
  lemma DayOneAgainstDayOfWeek(d: GeezDate)
    requires Consistent(d)
    ensures Of(d.year, d.month, 1).Some?
    ensures d.DayOne() == (Of(d.year, d.month, 1).value.DayOfWeek() + 5) % 7
  {
    var first := Of(d.year, d.month, 1).value;
    assert d.julianDay - d.dayOfMonth == first.julianDay - 1;
    SevenShift(first.julianDay + 1, -2, 5);
  }

  /** The date that lies `days` whole days after 1 January 1970 (the day part of from and now). */
  function FromGregorianDays(days: int): (r: GeezDate)
    ensures Consistent(r)
    ensures r.ToGregorianDays() == days
  {
    JdnToGeez(days + JdnOfEpoch)
  }

  /** Going to whole Gregorian days and back is the identity on consistent dates. */
  lemma GregorianRoundTrip(d: GeezDate)
    requires Consistent(d)
    ensures FromGregorianDays(d.ToGregorianDays()) == d
  {
    ConsistentFromJdn(d);
  }

  /** 1 January 1970 is day 8 of month 7 of year 1392. */
  lemma GregorianEpochDate()
    ensures FromGregorianDays(0) == Of(1392, 7, 8).value
  {
    assert ToJdn(1392, 7, 8) == JdnOfEpoch;
    RoundTripFromDate(1392, 7, 8);
  }

  // ---------------------------------------------------------------------
  // The original's own floating-point arithmetic, kept to show where it
  // departs from the integer definitions above.
  // ---------------------------------------------------------------------

  /** toJdn as written: year / 4 is a real division. */
  function ToJdnAsWritten(year: int, month: int, dayOfMonth: int): real {
    (JOffset + 365 + 365 * (year - 1) + 30 * month + dayOfMonth - 31) as real + year as real / 4.0
  }

  /** toJdn as written is off the integer day number by (year % 4) / 4 of a day. */
  lemma ToJdnAsWrittenFraction(year: int, month: int, dayOfMonth: int)
    ensures ToJdnAsWritten(year, month, dayOfMonth) == ToJdn(year, month, dayOfMonth) as real + (year % 4) as real / 4.0
  {
    assert year as real == 4.0 * (year / 4) as real + (year % 4) as real;
  }

  /** Month 1, day 1 of year 1 gets the day number 1803518.25. */
  lemma ToJdnAsWrittenNotWhole()
    ensures ToJdnAsWritten(1, 1, 1) == 1803518.25
    ensures ToJdn(1, 1, 1) == 1803518
  {
    ToJdnAsWrittenFraction(1, 1, 1);
  }

  /**
   * jdnToGeez as written for day numbers from JOffset on: the year is the
   * floor of 4 * cycles + r / 365 - r / 1460 in real arithmetic.
   */
  function JdnToGeezAsWritten(jdn: int): (int, int, int)
    requires jdn >= JOffset
  {
    var r := (jdn - JOffset) % 1461;
    var n := r % 365 + 365 * (r as real / 1460.0).Floor;
    var year := ((4 * ((jdn - JOffset) / 1461)) as real + r as real / 365.0 - r as real / 1460.0).Floor;
    (year, n / 30 + 1, n % 30 + 1)
  }

  /** As written, day number JOffset is month 1, day 1 of year 0. */
  lemma JdnToGeezAsWrittenAtOffset()
    ensures JdnToGeezAsWritten(JOffset) == (0, 1, 1)
  {
    assert (JOffset - JOffset) / 1461 == 0 && (JOffset - JOffset) % 1461 == 0;
  }

  /** As written, day number JOffset + 365 is also month 1, day 1 of year 0. */
  lemma JdnToGeezAsWrittenAfterYearZero()
    ensures JdnToGeezAsWritten(JOffset + 365) == (0, 1, 1)
  {
    assert (JOffset + 365 - JOffset) / 1461 == 0 && (JOffset + 365 - JOffset) % 1461 == 365;
    assert (365 as real / 1460.0).Floor == 0;
    assert ((4 * 0) as real + 365 as real / 365.0 - 365 as real / 1460.0).Floor == 0;
  }

  /**
   * Day numbers JOffset and JOffset + 365 both come out as month 1, day 1
   * of year 0 as written; the second is month 1, day 1 of year 1.
   */
  lemma JdnToGeezAsWrittenCollides()
    ensures JdnToGeezAsWritten(JOffset) == JdnToGeezAsWritten(JOffset + 365)
    ensures JdnToGeez(JOffset) == Of(0, 1, 1).value
    ensures JdnToGeez(JOffset + 365) == Of(1, 1, 1).value
  {
    JdnToGeezAsWrittenAtOffset();
    JdnToGeezAsWrittenAfterYearZero();
    RoundTripFromDate(0, 1, 1);
    RoundTripFromDate(1, 1, 1);
  }

  /** JavaScript's % on non-negative reals. */
  function JsRemainder(x: real, m: real): real
    requires x >= 0.0 && m > 0.0
  {
    x - m * (x / m).Floor as real
  }

  /** Math.round on reals (halves round up). */
  function JsRound(x: real): int {
    (x + 0.5).Floor
  }

  /** dayOfWeek as written: Math.round((julianDay + 0.5) % 7) % 7. */
  function DayOfWeekAsWritten(julianDay: int): int
    requires julianDay >= 0
  {
    JsRound(JsRemainder(julianDay as real + 0.5, 7.0)) % 7
  }

  /** For a whole non-negative day number dayOfWeek as written is (julianDay + 1) % 7. */
  lemma DayOfWeekAsWrittenIsWhole(julianDay: int)
    requires julianDay >= 0
    ensures DayOfWeekAsWritten(julianDay) == (julianDay + 1) % 7
  {
    var k, t := julianDay / 7, julianDay % 7;
    var x := julianDay as real + 0.5;
    assert x / 7.0 == k as real + (t as real + 0.5) / 7.0;
    assert (x / 7.0).Floor == k;
    assert JsRemainder(x, 7.0) == t as real + 0.5;
    assert JsRound(t as real + 0.5) == t + 1;
  }
}
