/** A proleptic Gregorian calendar over day numbers, and the date-times built on it.
    A date-time is a day number (day 0 is 1970-01-01) plus the second of that day;
    leap seconds and sub-second precision are not represented. */
module Calendar {

  const EpochYear: int := 1970

  type SecondOfDay = s: int | 0 <= s < 86400

  datatype Date = Date(year: int, month: int, day: int)

  datatype DateTime = DateTime(day: int, second: SecondOfDay)

  /** The Gregorian leap rule (divisibility tests agree under truncating and Euclidean remainder). */
  predicate IsLeapYear(year: int) {
    year % 4 == 0 && (year % 100 != 0 || year % 400 == 0)
  }

  function DaysInMonth(year: int, month: int): int
    requires 1 <= month <= 12
  {
    if month == 2 then (if IsLeapYear(year) then 29 else 28)
    else if month == 4 || month == 6 || month == 9 || month == 11 then 30
    else 31
  }

  function DaysInYear(year: int): int {
    if IsLeapYear(year) then 366 else 365
  }

  /** Day number of January 1 of `year`. */
  function YearStart(year: int): int
    decreases if year < EpochYear then EpochYear - year else year - EpochYear
  {
    if year == EpochYear then 0
    else if year > EpochYear then YearStart(year - 1) + DaysInYear(year - 1)
    else YearStart(year + 1) - DaysInYear(year)
  }

  /** Days of `year` before the first of `month`; month 13 stands for the end of the year. */
  function MonthStart(year: int, month: int): int
    requires 1 <= month <= 13
  {
    if month == 1 then 0 else MonthStart(year, month - 1) + DaysInMonth(year, month - 1)
  }

  predicate ValidDate(d: Date) {
    1 <= d.month <= 12 && 1 <= d.day <= DaysInMonth(d.year, d.month)
  }

  /** The day number of a civil date. */
  function DayNumber(d: Date): int
    requires ValidDate(d)
  {
    YearStart(d.year) + MonthStart(d.year, d.month) + d.day - 1
  }

  lemma YearStartStep(year: int)
    ensures YearStart(year + 1) == YearStart(year) + DaysInYear(year)
  {
  }

  lemma {:induction false} YearStartMonotone(a: int, b: int)
    requires a < b
    ensures YearStart(a + 1) <= YearStart(b)
    decreases b - a
  {
    if a + 1 < b {
      YearStartMonotone(a, b - 1);
      YearStartStep(b - 1);
    }
  }

  lemma MonthStartYearEnd(year: int)
    ensures MonthStart(year, 13) == DaysInYear(year)
  {
    assert MonthStart(year, 2) == 31;
    assert MonthStart(year, 3) == 31 + DaysInMonth(year, 2);
    assert MonthStart(year, 4) == 62 + DaysInMonth(year, 2);
    assert MonthStart(year, 5) == 92 + DaysInMonth(year, 2);
    assert MonthStart(year, 6) == 123 + DaysInMonth(year, 2);
    assert MonthStart(year, 7) == 153 + DaysInMonth(year, 2);
    assert MonthStart(year, 8) == 184 + DaysInMonth(year, 2);
    assert MonthStart(year, 9) == 215 + DaysInMonth(year, 2);
    assert MonthStart(year, 10) == 245 + DaysInMonth(year, 2);
    assert MonthStart(year, 11) == 276 + DaysInMonth(year, 2);
    assert MonthStart(year, 12) == 306 + DaysInMonth(year, 2);
  }

  lemma {:induction false} MonthStartMonotone(year: int, a: int, b: int)
    requires 1 <= a < b <= 13
    ensures MonthStart(year, a + 1) <= MonthStart(year, b)
    decreases b - a
  {
    if a + 1 < b {
      MonthStartMonotone(year, a, b - 1);
    }
  }

  /** The day of the year of a valid date lies inside that year. */
  lemma DayOfYearBounds(d: Date)
    requires ValidDate(d)
    ensures 0 <= MonthStart(d.year, d.month) + d.day - 1 < DaysInYear(d.year)
    ensures YearStart(d.year) <= DayNumber(d) < YearStart(d.year + 1)
  {
    MonthStartYearEnd(d.year);
    if d.month < 12 {
      MonthStartMonotone(d.year, d.month, 13);
    }
    MonthStartMonotone(d.year, 0 + 1, d.month + 1);
    YearStartStep(d.year);
  }

  function YearSearchUp(n: int, year: int): (y: int)
    requires YearStart(year) <= n
    ensures YearStart(y) <= n < YearStart(y + 1)
    decreases n - YearStart(year)
  {
    YearStartStep(year);
    if n < YearStart(year + 1) then year else YearSearchUp(n, year + 1)
  }

  function YearSearchDown(n: int, year: int): (y: int)
    requires n < YearStart(year + 1)
    ensures YearStart(y) <= n < YearStart(y + 1)
    decreases YearStart(year + 1) - n
  {
    YearStartStep(year);
    if YearStart(year) <= n then year else YearSearchDown(n, year - 1)
  }

  /** The year whose January 1 is the last one not after day `n`. */
  function YearOf(n: int): (y: int)
    ensures YearStart(y) <= n < YearStart(y + 1)
  {
    if 0 <= n then YearSearchUp(n, EpochYear) else YearSearchDown(n, EpochYear - 1)
  }

  function MonthSearch(year: int, dayOfYear: int, month: int): (m: int)
    requires 1 <= month <= 12
    requires MonthStart(year, month) <= dayOfYear < DaysInYear(year)
    ensures 1 <= m <= 12
    ensures MonthStart(year, m) <= dayOfYear < MonthStart(year, m + 1)
    decreases 12 - month
  {
    MonthStartYearEnd(year);
    if dayOfYear < MonthStart(year, month + 1) then month else MonthSearch(year, dayOfYear, month + 1)
  }

  /** The civil date of a day number: the inverse of DayNumber. */
  function CivilFromDays(n: int): (d: Date)
    ensures ValidDate(d)
    ensures DayNumber(d) == n
  {
    var y := YearOf(n);
    YearStartStep(y);
    var m := MonthSearch(y, n - YearStart(y), 1);
    Date(y, m, n - YearStart(y) - MonthStart(y, m) + 1)
  }

  /** Distinct valid dates have distinct day numbers. */
  lemma DayNumberInjective(a: Date, b: Date)
    requires ValidDate(a) && ValidDate(b)
    requires DayNumber(a) == DayNumber(b)
    ensures a == b
  {
    DayOfYearBounds(a);
    DayOfYearBounds(b);
    if a.year < b.year {
      YearStartMonotone(a.year, b.year);
    } else if b.year < a.year {
      YearStartMonotone(b.year, a.year);
    }
    assert a.year == b.year;
    if a.month < b.month {
      MonthStartMonotone(a.year, a.month, b.month);
    } else if b.month < a.month {
      MonthStartMonotone(a.year, b.month, a.month);
    }
  }

  /** Converting a valid date to its day number and back gives the date again. */
  lemma CivilRoundTrip(d: Date)
    requires ValidDate(d)
    ensures CivilFromDays(DayNumber(d)) == d
  {
    DayNumberInjective(CivilFromDays(DayNumber(d)), d);
  }

  function DateOf(dt: DateTime): Date {
    CivilFromDays(dt.day)
  }

  /** The date-time as a single count of seconds; the order date-times are sorted by. */
  function Instant(dt: DateTime): int {
    dt.day * 86400 + dt.second
  }

  function AddDays(dt: DateTime, days: int): (r: DateTime)
    ensures r.second == dt.second
    ensures Instant(r) == Instant(dt) + days * 86400
  {
    DateTime(dt.day + days, dt.second)
  }

  function Min(a: int, b: int): int {
    if a <= b then a else b
  }

  /** Moves a date-time by whole calendar months, keeping the time of day. This stands for the
      month arithmetic of the date library the source delegates to, whose code is not part of
      this model: it is ASSUMED that a day-of-month missing from the target month is clamped to
      that month's last day (January 31 plus one month is the last day of February). */
  function ShiftMonths(dt: DateTime, months: int): (r: DateTime)
    ensures r.second == dt.second
    ensures DateOf(r).year * 12 + DateOf(r).month == DateOf(dt).year * 12 + DateOf(dt).month + months
    ensures DateOf(r).day == Min(DateOf(dt).day, DaysInMonth(DateOf(r).year, DateOf(r).month))
    ensures months == 0 ==> r == dt
  {
    var d := DateOf(dt);
    var total := d.year * 12 + (d.month - 1) + months;
    var y := total / 12;
    var m := total % 12 + 1;
    var target := Date(y, m, Min(d.day, DaysInMonth(y, m)));
    CivilRoundTrip(target);
    assert months == 0 ==> y == d.year && m == d.month && target == d;
    DateTime(DayNumber(target), dt.second)
  }
}
