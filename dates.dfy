/**
 * Calendar instants as the handlers use them: a .NET `DateTime` is a day
 * number plus a time of day counted in 100-nanosecond ticks.  `.Date` keeps
 * the day and drops the time; `.AddDays(n)` shifts the day and keeps the time.
 */
module Dates {

  /** Ticks in one day (`TimeSpan.TicksPerDay`). */
  const TicksPerDay: int := 864_000_000_000

  type TimeOfDay = t: int | 0 <= t < TicksPerDay

  /** `day` counts whole days since 0001-01-01 (`Ticks / TicksPerDay`): 2024-01-01 is day 738885. */
  datatype DateTime = DateTime(day: int, time: TimeOfDay)

  /** `d.Date`: midnight of the same day. */
  function Date(d: DateTime): DateTime
  {
    DateTime(d.day, 0)
  }

  /** `d.AddDays(n)`. */
  function AddDays(d: DateTime, n: int): DateTime
  {
    DateTime(d.day + n, d.time)
  }

  /** `d.AddDays(-1).Date`: midnight of the previous day. */
  function PreviousDate(d: DateTime): DateTime
  {
    Date(AddDays(d, -1))
  }

  predicate IsMidnight(d: DateTime)
  {
    d.time == 0
  }

  /** The order of `DateTime` values: `a <= b`. */
  predicate AtOrBefore(a: DateTime, b: DateTime)
  {
    a.day < b.day || (a.day == b.day && a.time <= b.time)
  }

  /** `a < b`. */
  predicate Before(a: DateTime, b: DateTime)
  {
    !AtOrBefore(b, a)
  }

  /** Truncation yields a midnight, and only a midnight is its own truncation. */
  lemma DateIsMidnight(d: DateTime)
    ensures IsMidnight(Date(d))
    ensures Date(d) == d <==> IsMidnight(d)
  {
  }

  /** The day before, truncated, lies strictly before the truncated day. */
  lemma PreviousDateBeforeDate(d: DateTime)
    ensures Before(PreviousDate(d), Date(d))
    ensures PreviousDate(d) == Date(AddDays(Date(d), -1))
  {
  }

  /** `AtOrBefore` is a total preorder whose symmetric part is equality. */
  lemma AtOrBeforeIsTotalOrder(a: DateTime, b: DateTime, c: DateTime)
    ensures AtOrBefore(a, a)
    ensures AtOrBefore(a, b) || AtOrBefore(b, a)
    ensures AtOrBefore(a, b) && AtOrBefore(b, a) ==> a == b
    ensures AtOrBefore(a, b) && AtOrBefore(b, c) ==> AtOrBefore(a, c)
  {
  }
}
