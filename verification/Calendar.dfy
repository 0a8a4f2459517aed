/** julian_day of main/spa.c:533-536 and 633-652, over exact reals, against the civil calendar
    it counts: Julian until 4 October 1582, Gregorian from 15 October 1582. */
module Calendar {
  // C's conversion of a double to int: towards zero.
  function Integer(x: real): int {
    if x >= 0.0 then x.Floor else -((-x).Floor)
  }

  // C's division of an int by a positive int: towards zero.
  function QuotientTowardsZero(x: int, y: int): int
    requires y > 0
  {
    if x >= 0 then x / y else -((-x) / y)
  }

  // Time of day, clock correction and time zone as a fraction of a day.
  function DayFraction(hour: int, minute: int, second: real, dut1: real, tz: real): real {
    (hour as real - tz + (minute as real + (second + dut1) / 60.0) / 60.0) / 24.0
  }

  function JulianDay(year: int, month: int, day: int, hour: int, minute: int,
                     second: real, dut1: real, tz: real): real
  {
    var dayDecimal := day as real + DayFraction(hour, minute, second, dut1, tz);
    var y := if month < 3 then year - 1 else year;
    var m := if month < 3 then month + 12 else month;
    var jd := Integer(365.25 * (y as real + 4716.0)) as real + Integer(30.6001 * ((m + 1) as real)) as real
              + dayDecimal - 1524.5;
    if jd > 2299160.0 then
      var a := QuotientTowardsZero(y, 100) as real;
      jd + (2.0 - a + Integer(a / 4.0) as real)
    else jd
  }

  /* ---- The civil calendar ---- */

  datatype Date = Date(year: int, month: int, day: int)

  // Years are astronomical: 0 is 1 BC. From this year on every quantity truncated is positive.
  const FIRST_YEAR := -4715

  predicate IsLeap(year: int) {
    if year <= 1582 then year % 4 == 0 else year % 4 == 0 && (year % 100 != 0 || year % 400 == 0)
  }

  function DaysInMonth(year: int, month: int): int {
    if month == 2 then if IsLeap(year) then 29 else 28
    else if month == 4 || month == 6 || month == 9 || month == 11 then 30
    else 31
  }

  predicate Dropped(d: Date) {
    d.year == 1582 && d.month == 10 && 5 <= d.day <= 14
  }

  predicate Valid(d: Date) {
    && d.year >= FIRST_YEAR && 1 <= d.month <= 12 && 1 <= d.day <= DaysInMonth(d.year, d.month)
    && !Dropped(d)
  }

  const REFORM := Date(1582, 10, 15)

  predicate Before(d: Date, e: Date) {
    d.year < e.year || (d.year == e.year && (d.month < e.month || (d.month == e.month && d.day < e.day)))
  }

  function NextDay(d: Date): Date {
    if d == Date(1582, 10, 4) then REFORM
    else if d.day < DaysInMonth(d.year, d.month) then d.(day := d.day + 1)
    else if d.month < 12 then Date(d.year, d.month + 1, 1)
    else Date(d.year + 1, 1, 1)
  }

  lemma NextDayValid(d: Date)
    requires Valid(d)
    ensures Valid(NextDay(d)) && Before(d, NextDay(d))
  {}

  // Nothing lies strictly between a date and the next.
  lemma NextDayTight(d: Date, e: Date)
    requires Valid(d) && Valid(e) && Before(d, e)
    ensures NextDay(d) == e || Before(NextDay(d), e)
  {}

  /* ---- julian_day in integers ---- */

  function At0h(d: Date): real {
    JulianDay(d.year, d.month, d.day, 0, 0, 0.0, 0.0, 0.0)
  }

  // Days before the first of the month in a year that begins in March, plus 122.
  function MonthDays(m: int): int
    requires 3 <= m <= 14
  {
    [122, 153, 183, 214, 244, 275, 306, 336, 367, 397, 428, 459][m - 3]
  }

  function MarchYear(d: Date): int {
    if d.month < 3 then d.year - 1 else d.year
  }

  function MarchMonth(d: Date): int {
    if d.month < 3 then d.month + 12 else d.month
  }

  // The count by the Julian calendar, and what the Gregorian calendar adds to it.
  function JulianCount(d: Date): int
    requires 1 <= d.month <= 12
  {
    1461 * (MarchYear(d) + 4716) / 4 + MonthDays(MarchMonth(d)) + d.day - 1524
  }

  function Correction(d: Date): int {
    if Before(d, REFORM) then 0 else 2 - MarchYear(d) / 100 + MarchYear(d) / 400
  }

  function DayNumber(d: Date): int
    requires 1 <= d.month <= 12
  {
    JulianCount(d) + Correction(d)
  }

  lemma YearDays(y: int)
    requires y + 4716 >= 0
    ensures Integer(365.25 * (y as real + 4716.0)) == 1461 * (y + 4716) / 4
  {
    var n := 1461 * (y + 4716);
    assert 365.25 * (y as real + 4716.0) == n as real / 4.0;
    assert n == 4 * (n / 4) + n % 4;
  }

  lemma MonthTruncation(m: int)
    requires 3 <= m <= 14
    ensures Integer(30.6001 * ((m + 1) as real)) == MonthDays(m)
  {}

  lemma Centuries(y: int)
    requires y >= 0
    ensures Integer(QuotientTowardsZero(y, 100) as real / 4.0) == y / 400
  {
    var a := y / 100;
    assert a == 4 * (a / 4) + a % 4;
    assert a / 4 == y / 400;
  }

  // The uncorrected count tells the two calendars apart.
  lemma ReformThreshold(d: Date)
    requires Valid(d)
    ensures Before(d, REFORM) ==> JulianCount(d) <= 2299160
    ensures !Before(d, REFORM) ==> JulianCount(d) >= 2299171 && MarchYear(d) >= 1582
  {}

  lemma Uncorrected(d: Date, f: real)
    requires Valid(d)
    ensures var y := MarchYear(d);
            Integer(365.25 * (y as real + 4716.0)) as real + Integer(30.6001 * ((MarchMonth(d) + 1) as real)) as real
            + (d.day as real + f) - 1524.5 == JulianCount(d) as real - 0.5 + f
  {
    YearDays(MarchYear(d));
    MonthTruncation(MarchMonth(d));
  }

  // With the day fraction f the result is the day number plus f, less the half day by which
  // Julian days start at noon; but an evening just before the reform is corrected too early,
  // by the ten days of the reform.
  lemma WithFraction(d: Date, hour: int, minute: int, second: real, dut1: real, tz: real)
    requires Valid(d)
    requires -10.0 < DayFraction(hour, minute, second, dut1, tz) < 2.0
    ensures var f := DayFraction(hour, minute, second, dut1, tz);
            JulianDay(d.year, d.month, d.day, hour, minute, second, dut1, tz)
            == DayNumber(d) as real - 0.5 + f
               - if Before(d, REFORM) && DayNumber(d) as real - 0.5 + f > 2299160.0 then 10.0 else 0.0
  {
    hide DayFraction, Integer, JulianCount;
    var f := DayFraction(hour, minute, second, dut1, tz);
    Uncorrected(d, f);
    ReformThreshold(d);
    if !Before(d, REFORM) {
      Centuries(MarchYear(d));
    } else if JulianCount(d) as real - 0.5 + f > 2299160.0 {
      LastDaysBeforeReform(d);
      Centuries(1582);
    }
  }

  lemma LastDaysBeforeReform(d: Date)
    requires Valid(d) && Before(d, REFORM) && JulianCount(d) >= 2299159
    ensures MarchYear(d) == 1582
  {}

  lemma Midnight()
    ensures DayFraction(0, 0, 0.0, 0.0, 0.0) == 0.0
  {}

  lemma At0hIsDayNumber(d: Date)
    requires Valid(d)
    ensures At0h(d) == DayNumber(d) as real - 0.5
  {
    hide JulianDay, DayFraction, DayNumber;
    Midnight();
    WithFraction(d, 0, 0, 0.0, 0.0, 0.0);
    if Before(d, REFORM) {
      NoEveningAtMidnight(d);
    }
  }

  lemma NoEveningAtMidnight(d: Date)
    requires Valid(d) && Before(d, REFORM)
    ensures DayNumber(d) as real - 0.5 <= 2299160.0
  {
    ReformThreshold(d);
  }

  // Arguments as validate_inputs (main/spa.c:603-632) admits them.
  predicate ValidTime(hour: int, minute: int, second: real, dut1: real, tz: real) {
    && 0 <= hour <= 24 && 0 <= minute <= 59 && 0.0 <= second < 60.0
    && -1.0 < dut1 < 1.0 && -18.0 <= tz <= 18.0
  }

  lemma FractionBounds(hour: int, minute: int, second: real, dut1: real, tz: real)
    requires ValidTime(hour, minute, second, dut1, tz)
    ensures -1.0 < DayFraction(hour, minute, second, dut1, tz) < 2.0
  {
    var inner := (second + dut1) / 60.0;
    assert -1.0 / 60.0 < inner < 61.0 / 60.0;
    var middle := (minute as real + inner) / 60.0;
    assert -1.0 / 60.0 < middle < 61.0 / 60.0;
  }

  // Seconds of universal time since 0h of the date: local time, the correction added, the time
  // zone taken off.
  function SecondsPastMidnight(hour: int, minute: int, second: real, dut1: real, tz: real): real {
    3600.0 * hour as real + 60.0 * minute as real + second + dut1 - 3600.0 * tz
  }

  lemma FractionIsSeconds(hour: int, minute: int, second: real, dut1: real, tz: real)
    ensures 86400.0 * DayFraction(hour, minute, second, dut1, tz) == SecondsPastMidnight(hour, minute, second, dut1, tz)
  {}

  // The result passes 2299160 while the date is still Julian: past noon of the last Julian
  // day, counted from it or from the day before.
  predicate CorrectedTooEarly(d: Date, seconds: real) {
    (d == Date(1582, 10, 4) && seconds > 43200.0) || (d == Date(1582, 10, 3) && seconds > 129600.0)
  }

  // The time of day is added to the value at midnight, a day having 86400 seconds; ten days are
  // lost exactly where the correction comes too early.
  lemma TimeOfDay(d: Date, hour: int, minute: int, second: real, dut1: real, tz: real)
    requires Valid(d) && ValidTime(hour, minute, second, dut1, tz)
    ensures var seconds := SecondsPastMidnight(hour, minute, second, dut1, tz);
            JulianDay(d.year, d.month, d.day, hour, minute, second, dut1, tz)
            == At0h(d) + seconds / 86400.0 - if CorrectedTooEarly(d, seconds) then 10.0 else 0.0
  {
    hide JulianDay, DayFraction, SecondsPastMidnight;
    FractionIsSeconds(hour, minute, second, dut1, tz);
    FractionBounds(hour, minute, second, dut1, tz);
    At0hIsDayNumber(d);
    WithFraction(d, hour, minute, second, dut1, tz);
    LastJulianDays(d);
  }

  lemma LastJulianDays(d: Date)
    requires Valid(d)
    ensures DayNumber(d) == 2299160 <==> d == Date(1582, 10, 4)
    ensures DayNumber(d) == 2299159 <==> d == Date(1582, 10, 3)
    ensures Before(d, REFORM) ==> DayNumber(d) <= 2299160
  {
    hide At0h, DayNumber;
    var last, second := Date(1582, 10, 4), Date(1582, 10, 3);
    At0hIsDayNumber(d);
    At0hIsDayNumber(last);
    At0hIsDayNumber(second);
    LastNumbers();
    OrdersDates(d, last);
    OrdersDates(d, second);
  }

  lemma LastNumbers()
    ensures DayNumber(Date(1582, 10, 4)) == 2299160 && DayNumber(Date(1582, 10, 3)) == 2299159
  {}

  // The afternoon of 4 October 1582 comes out ten days before its morning.
  lemma AfternoonBeforeReform()
    ensures JulianDay(1582, 10, 4, 18, 0, 0.0, 0.0, 0.0) == At0h(Date(1582, 10, 4)) + 0.75 - 10.0
  {}

  /* ---- The count of days ---- */

  // The next calendar day is one day later, across months, leap days, centuries and the reform.
  lemma NextDayIsOneMore(d: Date)
    requires Valid(d)
    ensures At0h(NextDay(d)) == At0h(d) + 1.0
  {
    hide At0h, DayNumber;
    NextDayValid(d);
    At0hIsDayNumber(d);
    At0hIsDayNumber(NextDay(d));
    NextDayNumber(d);
  }

  lemma NextDayNumber(d: Date)
    requires Valid(d)
    ensures DayNumber(NextDay(d)) == DayNumber(d) + 1
  {
    if d.day == DaysInMonth(d.year, d.month) {
      if d.month == 2 {
        EndOfFebruary(d);
      } else {
        EndOfMonth(d);
      }
    }
  }

  lemma EndOfMonth(d: Date)
    requires Valid(d) && d.day == DaysInMonth(d.year, d.month) && d.month != 2
    ensures DayNumber(NextDay(d)) == DayNumber(d) + 1
  {
    var e := NextDay(d);
    assert MarchYear(e) == MarchYear(d);
    assert Correction(e) == Correction(d);
    assert MonthDays(MarchMonth(e)) + e.day == MonthDays(MarchMonth(d)) + d.day + 1;
  }

  lemma QuotientStep(x: int, k: int)
    requires k > 0
    ensures x / k - (x - 1) / k == if x % k == 0 then 1 else 0
  {
    var q, r := x / k, x % k;
    assert x == k * q + r;
    if r == 0 {
      assert x - 1 == k * (q - 1) + (k - 1);
      QuotientIs(x - 1, k, q - 1, k - 1);
    } else {
      QuotientIs(x - 1, k, q, r - 1);
    }
  }

  lemma QuotientIs(x: int, k: int, q: int, r: int)
    requires 0 <= r < k && x == k * q + r
    ensures x / k == q
  {
    var p := x / k - q;
    assert k * p == r - x % k;
    assert p >= 1 ==> k * p >= k;
    assert p <= -1 ==> k * p <= -k;
  }

  lemma YearLength(y: int)
    ensures 1461 * (y + 4716) / 4 - 1461 * (y - 1 + 4716) / 4 == if y % 4 == 0 then 366 else 365
  {
    var z := y + 4716;
    QuotientIs(1461 * z, 4, 365 * z + z / 4, z % 4);
    QuotientIs(1461 * (z - 1), 4, 365 * (z - 1) + (z - 1) / 4, (z - 1) % 4);
    QuotientStep(z, 4);
  }

  // Years are counted from March, so February's end is where a leap day is accounted for.
  lemma EndOfFebruary(d: Date)
    requires Valid(d) && d.day == DaysInMonth(d.year, d.month) && d.month == 2
    ensures DayNumber(NextDay(d)) == DayNumber(d) + 1
  {
    var y := d.year;
    YearLength(y);
    FebruaryNumbers(d);
    if y > 1582 {
      QuotientStep(y, 100);
      QuotientStep(y, 400);
      Leap400(y);
    }
  }

  lemma FebruaryNumbers(d: Date)
    requires Valid(d) && d.day == DaysInMonth(d.year, d.month) && d.month == 2
    ensures JulianCount(NextDay(d)) - JulianCount(d)
            == (1461 * (d.year + 4716) / 4 - 1461 * (d.year - 1 + 4716) / 4) + 122 - 459 + 1 - d.day
    ensures Correction(NextDay(d)) - Correction(d)
            == if d.year <= 1582 then 0 else (d.year / 400 - (d.year - 1) / 400) - (d.year / 100 - (d.year - 1) / 100)
  {}

  lemma Leap400(y: int)
    ensures y % 400 == 0 ==> y % 100 == 0
    ensures y % 100 == 0 ==> y % 4 == 0
  {
    if y % 400 == 0 {
      MultipleOf(y, 100, 4 * (y / 400));
    }
    if y % 100 == 0 {
      MultipleOf(y, 4, 25 * (y / 100));
    }
  }

  lemma MultipleOf(x: int, k: int, q: int)
    requires k > 0 && x == k * q
    ensures x % k == 0
  {
    QuotientIs(x, k, q, 0);
  }

  // The date n days on.
  function DaysLater(d: Date, n: nat): Date
    decreases n
  {
    if n == 0 then d else DaysLater(NextDay(d), n - 1)
  }

  lemma {:induction false} DaysLaterCounts(d: Date, n: nat)
    requires Valid(d)
    ensures Valid(DaysLater(d, n))
    ensures At0h(DaysLater(d, n)) == At0h(d) + n as real
    decreases n
  {
    hide At0h, NextDay, Valid;
    if n > 0 {
      NextDayValid(d);
      NextDayIsOneMore(d);
      DaysLaterCounts(NextDay(d), n - 1);
    }
  }

  function Rank(d: Date): int {
    372 * d.year + 31 * d.month + d.day
  }

  // Every later date is reached by going on day by day.
  lemma {:induction false} ReachedByDays(d: Date, e: Date) returns (n: nat)
    requires Valid(d) && Valid(e) && Before(d, e)
    ensures n > 0 && DaysLater(d, n) == e
    decreases Rank(e) - Rank(d)
  {
    NextDayValid(d);
    NextDayTight(d, e);
    if NextDay(d) == e {
      n := 1;
      assert DaysLater(NextDay(d), 0) == e;
    } else {
      n := ReachedByDays(NextDay(d), e);
      n := n + 1;
    }
  }

  // The difference of two Julian days is the number of days from one date to the other.
  lemma DifferenceCountsDays(d: Date, e: Date, n: nat)
    requires Valid(d) && Valid(e)
    ensures At0h(e) - At0h(d) == n as real <==> e == DaysLater(d, n)
  {
    hide At0h, DaysLater;
    DaysLaterCounts(d, n);
    var later := DaysLater(d, n);
    if Before(later, e) {
      var k := ReachedByDays(later, e);
      DaysLaterCounts(later, k);
    } else if Before(e, later) {
      var k := ReachedByDays(e, later);
      DaysLaterCounts(e, k);
    }
  }

  // julian_day orders dates as the calendar does; in particular no two share a value.
  lemma OrdersDates(d: Date, e: Date)
    requires Valid(d) && Valid(e)
    ensures At0h(d) < At0h(e) <==> Before(d, e)
    ensures At0h(d) == At0h(e) <==> d == e
  {
    hide At0h, DaysLater;
    if Before(d, e) {
      var n := ReachedByDays(d, e);
      DaysLaterCounts(d, n);
    } else if Before(e, d) {
      var n := ReachedByDays(e, d);
      DaysLaterCounts(e, n);
    }
  }

  // The count starts at noon of 1 January 4713 BC, and the epoch of julian_century is noon of
  // 1 January 2000. In the device's own time zone (main/dev_time.c:94) noon comes two hours
  // earlier.
  lemma Epochs()
    ensures JulianDay(-4712, 1, 1, 12, 0, 0.0, 0.0, 0.0) == 0.0
    ensures JulianDay(2000, 1, 1, 12, 0, 0.0, 0.0, 0.0) == 2451545.0
    ensures JulianDay(2000, 1, 1, 12, 0, 0.0, 0.0, 2.0) == 2451545.0 - 1.0 / 12.0
  {}
}
