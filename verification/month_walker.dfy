/** The legacy utilities' own month arithmetic: instead of a calendar library, one month step
    adds "the number of days in the following month" to the date-time. */
module MonthWalker {
  import opened Calendar
  import opened Iteration

  /** Number of days from the first of `month` to the first of the month after it, computed as
      the difference of the two day numbers. The result is the Gregorian month length. */
  function GetDaysFromMonth(year: int, month: int): (n: int)
    requires 1 <= month <= 12
    ensures 28 <= n <= 31
    ensures month == 2 ==> (n == 29 <==> IsLeapYear(year)) && (n == 28 <==> !IsLeapYear(year))
    ensures month == 4 || month == 6 || month == 9 || month == 11 ==> n == 30
    ensures month == 1 || month == 3 || month == 5 || month == 7 || month == 8 || month == 10 || month == 12 ==> n == 31
  {
    var nextYear := if month == 12 then year + 1 else year;
    var nextMonth := if month == 12 then 1 else month + 1;
    YearStartStep(year);
    MonthStartYearEnd(year);
    DayNumber(Date(nextYear, nextMonth, 1)) - DayNumber(Date(year, month, 1))
  }

  /** The month after `d`'s month, with the year it falls in. */
  function FollowingMonth(d: Date): Date {
    if d.month == 12 then Date(d.year + 1, 1, 1) else Date(d.year, d.month + 1, 1)
  }

  /** One month step as written: the year passed on is incremented when the YEAR (not the month)
      equals 12, and the month passed on is the month after the date's month. */
  function AddOneMonth(dt: DateTime): (r: DateTime)
    ensures r.second == dt.second
    ensures 28 <= r.day - dt.day <= 31
  {
    var d := DateOf(dt);
    var y := d.year;
    var m := d.month;
    var daysToAdd := GetDaysFromMonth(if y == 12 then y + 1 else y, if m == 12 then 1 else m + 1);
    AddDays(dt, daysToAdd)
  }

  /** Outside the year 12, a step adds the length of the month that follows the date's month
      (January of the next year after a December date). */
  lemma AddOneMonthAddsFollowingMonth(dt: DateTime)
    requires DateOf(dt).year != 12
    ensures var f := FollowingMonth(DateOf(dt));
      1 <= f.month <= 12 && AddOneMonth(dt).day == dt.day + DaysInMonth(f.year, f.month)
  {
  }

  /** In the year 12 the year test fires by mistake for the month: a January date then adds the
      28 days of February of the year 13, although February of the leap year 12 has 29. */
  lemma YearTwelveJanuaryAddsTwentyEight(d: Date, second: SecondOfDay)
    requires ValidDate(d) && d.year == 12 && d.month == 1
    ensures var dt := DateTime(DayNumber(d), second);
      && AddOneMonth(dt).day == dt.day + 28
      && AddOneMonth(dt).day != dt.day + DaysInMonth(12, 2)
  {
    CivilRoundTrip(d);
    YearTwelveIsLeap();
  }

  /** The year 12 is a leap year, so its February has 29 days. */
  lemma YearTwelveIsLeap()
    ensures IsLeapYear(12) && DaysInMonth(12, 2) == 29
  {
  }

  /** `k` successive month steps. */
  function MonthSteps(k: int, dt: DateTime): DateTime {
    Iterate(AddOneMonth, k, dt)
  }

  /** The steps of block `i + 1` of twelve come after those of the first `i` blocks. */
  lemma IterateNextYear(step: DateTime -> DateTime, i: nat, dt: DateTime)
    ensures Iterate(step, 12 * (i + 1), dt) == Iterate(step, 12, Iterate(step, 12 * i, dt))
  {
    IterateAdditive(step, 12, 12 * i, dt);
    assert 12 + 12 * i == 12 * (i + 1);
  }

  /** A step that advances by 28 to 31 days advances by `28k` to `31k` in `k` steps. */
  lemma {:induction false} IterateBounds(step: DateTime -> DateTime, k: nat, dt: DateTime)
    requires forall x :: 28 <= step(x).day - x.day <= 31
    ensures 28 * k <= Iterate(step, k, dt).day - dt.day <= 31 * k
  {
    if k > 0 {
      IterateBounds(step, k - 1, dt);
    }
  }

  /** A step that keeps the time of day keeps it over any number of steps. */
  lemma {:induction false} IterateKeepsSecond(step: DateTime -> DateTime, k: int, dt: DateTime)
    requires forall x :: step(x).second == x.second
    ensures Iterate(step, k, dt).second == dt.second
    decreases k
  {
    if k > 0 {
      IterateKeepsSecond(step, k - 1, dt);
    }
  }

  /** `k` month steps advance by between `28k` and `31k` days and keep the time of day. */
  lemma MonthStepsBounds(k: nat, dt: DateTime)
    ensures 28 * k <= MonthSteps(k, dt).day - dt.day <= 31 * k
    ensures MonthSteps(k, dt).second == dt.second
  {
    IterateBounds(AddOneMonth, k, dt);
    IterateKeepsSecond(AddOneMonth, k, dt);
  }

  /** Month steps compose: `a` steps after `b` steps are `a + b` steps. */
  lemma MonthStepsAdditive(a: nat, b: nat, dt: DateTime)
    ensures MonthSteps(a, MonthSteps(b, dt)) == MonthSteps(a + b, dt)
  {
    IterateAdditive(AddOneMonth, a, b, dt);
  }

  /** The months of year `i + 1` are twelve more steps after those of the first `i` years. */
  lemma MonthStepsNextYear(i: nat, dt: DateTime)
    ensures MonthSteps(12 * (i + 1), dt) == MonthSteps(12, MonthSteps(12 * i, dt))
  {
    IterateNextYear(AddOneMonth, i, dt);
  }

  /** Adds `months` month steps, one loop iteration per month. */
  method AddMonthsToNaiveDateTime(months: int, naive: DateTime) returns (newDate: DateTime)
    ensures newDate == MonthSteps(months, naive)
  {
    newDate := naive;
    for i := 0 to if months > 0 then months else 0
      invariant newDate == MonthSteps(i, naive)
    {
      newDate := AddOneMonth(newDate);
    }
  }

  /** Twelve month steps per year, as two nested loops. */
  method AddYearsToNaiveDateTime(years: int, naive: DateTime) returns (newDate: DateTime)
    ensures newDate == MonthSteps(12 * years, naive)
  {
    newDate := naive;
    for i := 0 to if years > 0 then years else 0
      invariant newDate == MonthSteps(12 * i, naive)
    {
      ghost var yearStart := newDate;
      for j := 0 to 12
        invariant newDate == MonthSteps(j, yearStart)
      {
        IterateLast(AddOneMonth, j, yearStart);
        newDate := AddOneMonth(newDate);
      }
      MonthStepsNextYear(i, naive);
    }
  }

  /** From a date in January of a common year a step adds the 28 days of February. */
  lemma CommonJanuaryAddsTwentyEight(dt: DateTime)
    requires DateOf(dt).month == 1 && DateOf(dt).year != 12 && !IsLeapYear(DateOf(dt).year)
    ensures AddOneMonth(dt).day == dt.day + 28
  {
  }

  /** Twenty-eight days after January 1 is January 29. */
  lemma TwentyEightDaysAfterJanuaryFirst(dt: DateTime, r: DateTime)
    requires DateOf(dt).month == 1 && DateOf(dt).day == 1
    requires r.day == dt.day + 28
    ensures DateOf(r) == Date(DateOf(dt).year, 1, 29)
  {
    CivilRoundTrip(Date(DateOf(dt).year, 1, 29));
  }

  /** A step from January 1 of a common year adds February's length, so it lands on
      January 29 rather than on the first of the next month. */
  lemma JanuaryFirstStepsToJanuary29(dt: DateTime)
    requires DateOf(dt).month == 1 && DateOf(dt).day == 1
    requires DateOf(dt).year != 12 && !IsLeapYear(DateOf(dt).year)
    ensures DateOf(AddOneMonth(dt)) == Date(DateOf(dt).year, 1, 29)
  {
    CommonJanuaryAddsTwentyEight(dt);
    TwentyEightDaysAfterJanuaryFirst(dt, AddOneMonth(dt));
  }

  /** A step from any December date adds January's 31 days. */
  lemma DecemberStepAddsJanuary(dt: DateTime)
    requires DateOf(dt).month == 12
    ensures AddOneMonth(dt).day == dt.day + 31
  {
  }
}
