/** The occurrence-date calculator shared, in identical form, by both generations of the
    utilities (`calculate_next_date`). An occurrence is computed from the fixed anchor date and
    `count * interval` units of the repeat frequency, never from a previous occurrence. */
module Recurrence {
  import opened Calendar

  datatype RepeatFrequency = Days | Weeks | Months | Years

  function CalculateNextDate(initial: DateTime, repeat: bool, freq: RepeatFrequency, interval: int, count: int): (r: DateTime)
    ensures r.second == initial.second
    ensures !repeat ==> r == initial
    ensures count == 0 ==> r == initial
    ensures repeat && freq == Days ==> r.day == initial.day + count * interval
    ensures repeat && freq == Weeks ==> r.day == initial.day + 7 * (count * interval)
    ensures repeat && (freq == Months || freq == Years) ==>
      var months := if freq == Months then count * interval else 12 * (count * interval);
      DateOf(r).year * 12 + DateOf(r).month == DateOf(initial).year * 12 + DateOf(initial).month + months
  {
    if repeat then
      var n := count * interval;
      assert count == 0 ==> n == 0;
      match freq
      case Days => AddDays(initial, n)
      case Weeks => AddDays(initial, 7 * n)
      case Months => ShiftMonths(initial, n)
      case Years => ShiftMonths(initial, 12 * n)
    else
      initial
  }

  /** Weekly repetition every `n` weeks is daily repetition every `7n` days, for every count. */
  lemma WeeksAreSevenDays(anchor: DateTime, n: int, count: int)
    ensures CalculateNextDate(anchor, true, Weeks, n, count) == CalculateNextDate(anchor, true, Days, 7 * n, count)
  {
    assert 7 * (count * n) == count * (7 * n);
  }

  /** The occurrence depends on count and interval only through their product. */
  lemma OnlyTheProductMatters(anchor: DateTime, freq: RepeatFrequency, i1: int, c1: int, i2: int, c2: int)
    requires c1 * i1 == c2 * i2
    ensures CalculateNextDate(anchor, true, freq, i1, c1) == CalculateNextDate(anchor, true, freq, i2, c2)
  {
  }

  /** With a non-negative interval, daily and weekly occurrences never move backwards as the
      count grows. */
  lemma {:induction false} DaysAndWeeksMonotone(anchor: DateTime, freq: RepeatFrequency, interval: int, c1: int, c2: int)
    requires freq == Days || freq == Weeks
    requires 0 <= interval && c1 <= c2
    ensures Instant(CalculateNextDate(anchor, true, freq, interval, c1)) <= Instant(CalculateNextDate(anchor, true, freq, interval, c2))
  {
    assert c1 * interval <= c2 * interval by {
      assert (c2 - c1) * interval >= 0;
    }
  }
}
