/**
 * Calendar arithmetic of the JavaScript Date object the components call
 * (`new Date(year, month, day)`, `getDate`, `getDay`, `getTime`), as the
 * proleptic Gregorian calendar of ECMA-262 section 21.4.1: days are counted
 * from 1970-01-01, month indices run 0..11 and overflow into the year, and
 * the weekday of day t is (t + 4) mod 7 with Sunday = 0.
 *
 * A due date is the ISO 8601 calendar date YYYY-MM-DD (ISO 8601:2004 section
 * 5.2.1.1) that the date inputs produce; it is kept as a (year, month, day)
 * triple with month 1..12, as written in the key.
 */
module Dates {

  datatype CalendarDate = CalendarDate(year: int, month: int, day: int)

  const MsPerDay: int := 86400000

  predicate IsLeapYear(y: int) {
    y % 4 == 0 && (y % 100 != 0 || y % 400 == 0)
  }

  function DaysInYear(y: int): int {
    if IsLeapYear(y) then 366 else 365
  }

  /** Days of the year before month index m (0..12): the cumulative table of ECMA-262 MonthFromTime. */
  function DaysBeforeMonth(y: int, m: int): int
    requires 0 <= m <= 12
  {
    var table := [0, 31, 59, 90, 120, 151, 181, 212, 243, 273, 304, 334, 365];
    table[m] + (if m >= 2 && IsLeapYear(y) then 1 else 0)
  }

  /** Length of month index m of year y in the Gregorian calendar (the reference table). */
  function MonthLength(y: int, m: int): int
    requires 0 <= m < 12
  {
    if m == 1 then (if IsLeapYear(y) then 29 else 28)
    else if m == 3 || m == 5 || m == 8 || m == 10 then 30
    else 31
  }

  /** ECMA-262 DayFromYear: the day number of January 1st of year y. */
  function DayFromYear(y: int): int {
    365 * (y - 1970) + (y - 1969) / 4 - (y - 1901) / 100 + (y - 1601) / 400
  }

  /**
   * ECMA-262 MakeDay for integral arguments: the day number of `new Date(y, m, d)`
   * for a year y outside 0..99 (the Date constructor reads those as 1900 + y).
   * A month index outside 0..11 carries into the year (floor division), and a
   * day outside the month runs into the neighbouring months.
   */
  function MakeDay(y: int, m: int, d: int): int {
    var ym := y + m / 12;
    var mn := m % 12;
    DayFromYear(ym) + DaysBeforeMonth(ym, mn) + d - 1
  }

  /** ECMA-262 WeekDay for a day number: 0 is Sunday. */
  function WeekDay(day: int): int {
    (day + 4) % 7
  }

  /** Day and month are within the Gregorian calendar. */
  predicate ValidDate(d: CalendarDate) {
    1 <= d.month <= 12 && 1 <= d.day <= MonthLength(d.year, d.month - 1)
  }

  /** Day number of an ISO date. */
  function DayNumber(d: CalendarDate): int {
    MakeDay(d.year, d.month - 1, d.day)
  }

  /**
   * `new Date("YYYY-MM-DD").getTime()`: a date-only ISO string is read as
   * midnight UTC of that day.
   */
  function Deadline(d: CalendarDate): int {
    DayNumber(d) * MsPerDay
  }

  /** One more year adds a 4-, 100- or 400-year boundary exactly when the new value is a multiple. */
  lemma FloorStep(a: int, k: int)
    requires k == 4 || k == 100 || k == 400
    ensures (a + 1) / k - a / k == if (a + 1) % k == 0 then 1 else 0
  {
  }

  /** Consecutive New Year's days are DaysInYear apart. */
  lemma DayFromYearStep(y: int)
    ensures DayFromYear(y + 1) == DayFromYear(y) + DaysInYear(y)
  {
    CycleStep(y, 4, 1969);
    CycleStep(y, 100, 1901);
    CycleStep(y, 400, 1601);
    var a := (y - 1968) / 4 - (y - 1969) / 4;
    var b := (y - 1900) / 100 - (y - 1901) / 100;
    var c := (y - 1600) / 400 - (y - 1601) / 400;
    assert DayFromYear(y + 1) - DayFromYear(y) == 365 + a - b + c;
    CyclesNest(y);
    if y % 400 == 0 {
      assert a - b + c == 1 && IsLeapYear(y);
    } else if y % 100 == 0 {
      assert a - b + c == 0 && !IsLeapYear(y);
    } else if y % 4 == 0 {
      assert a - b + c == 1 && IsLeapYear(y);
    } else {
      assert a - b + c == 0 && !IsLeapYear(y);
    }
  }

  /** A multiple of 400 is a multiple of 100, and a multiple of 100 is a multiple of 4. */
  lemma CyclesNest(y: int)
    ensures y % 400 == 0 ==> y % 100 == 0
    ensures y % 100 == 0 ==> y % 4 == 0
  {
    if y % 400 == 0 {
      MultipleOfMultiple(y, 400, 100);
    }
    if y % 100 == 0 {
      MultipleOfMultiple(y, 100, 4);
    }
  }

  lemma MultipleOfMultiple(y: int, k: int, j: int)
    requires (k == 400 && j == 100) || (k == 100 && j == 4)
    requires y % k == 0
    ensures y % j == 0
  {
    var q := y / k;
    assert y == k * q;
    if k == 400 {
      assert y == 100 * (4 * q);
    } else {
      assert y == 4 * (25 * q);
    }
  }

  /** Year y begins a new k-year cycle counted from `base` exactly when y is a multiple of k. */
  lemma CycleStep(y: int, k: int, base: int)
    requires (k == 4 && base == 1969) || (k == 100 && base == 1901) || (k == 400 && base == 1601)
    ensures (y - base + 1) / k - (y - base) / k == if y % k == 0 then 1 else 0
  {
    FloorStep(y - base, k);
    ShiftedRemainder(y, k, base - 1);
  }

  /** Subtracting a multiple of a cycle length keeps the remainder. */
  lemma ShiftedRemainder(y: int, k: int, n: int)
    requires (k == 4 || k == 100 || k == 400) && n % k == 0
    ensures (y - n) % k == y % k
  {
  }

  /**
   * The "day 0 of the next month" rule the calendar uses: `new Date(y, m + 1, 0)`
   * is the last day of month m, MonthLength(y, m) - 1 days after its 1st.
   */
  lemma DayZeroOfNextMonth(y: int, m: int)
    requires 0 <= m < 12
    ensures MakeDay(y, m + 1, 0) == MakeDay(y, m, 1) + MonthLength(y, m) - 1
  {
    if m == 11 {
      DayFromYearStep(y);
    }
  }

  /** The 1st of the following month comes MonthLength days after the 1st of this one. */
  lemma NextMonthStart(y: int, m: int)
    requires 0 <= m < 12
    ensures MakeDay(y, m + 1, 1) == MakeDay(y, m, 1) + MonthLength(y, m)
  {
    DayZeroOfNextMonth(y, m);
  }

  /** Within one month, day numbers count up one per day. */
  lemma DayNumberWithinMonth(y: int, m: int, d: int)
    requires 0 <= m < 12
    ensures MakeDay(y, m, d) == MakeDay(y, m, 1) + d - 1
  {
  }

  /** 1970-01-01 is day 0 and a Thursday. */
  lemma EpochIsThursday()
    ensures MakeDay(1970, 0, 1) == 0 && WeekDay(MakeDay(1970, 0, 1)) == 4
  {
  }
}
