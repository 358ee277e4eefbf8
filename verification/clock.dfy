/**
 Time as seen by the last-day tier statistics: timestamps are whole Unix
 seconds (`int`, so instants before 1970 are allowed), the hour of day is the
 UTC hour, and a duration is measured in whole hours the way
 `Duration::whole_hours` does it, truncating toward zero.
 */
module Clock {

  const SecondsPerHour: int := 3600
  const HoursPerDay: int := 24
  const SecondsPerDay: int := SecondsPerHour * HoursPerDay

  /** An hour-of-day index, the index of a bin. */
  type HourIndex = h: int | 0 <= h < HoursPerDay

  /** The UTC hour of day of Unix timestamp `t`. Dafny's `/` and `%` are
      Euclidean, which for a positive divisor is floor division, so instants
      before the epoch land in the right calendar hour too. */
  function Hour(t: int): HourIndex
  {
    (t / SecondsPerHour) % HoursPerDay
  }

  /** `Hour(t)` is the hour slot of `t` within its own calendar day. */
  lemma HourInDay(t: int)
    ensures var h := Hour(t);
            SecondsPerDay * (t / SecondsPerDay) + SecondsPerHour * h <= t
            < SecondsPerDay * (t / SecondsPerDay) + SecondsPerHour * (h + 1)
  {
  }

  /** Rust's `/` on `i64`: the quotient truncated toward zero. */
  function TruncDiv(a: int, b: int): int
    requires b > 0
  {
    if a >= 0 then a / b else -((-a) / b)
  }

  /** Whole hours in a duration of `d` seconds, truncated toward zero, so a
      duration of minus ninety minutes counts as minus one hour. */
  function WholeHours(d: int): (n: int)
    ensures n >= 1 <==> d >= SecondsPerHour
    ensures n >= HoursPerDay <==> d >= SecondsPerDay
    ensures -SecondsPerHour < d < SecondsPerHour <==> n == 0
  {
    TruncDiv(d, SecondsPerHour)
  }

  /** Forward distance on the 24-hour clock face from hour `a` to hour `b`:
      how many single-hour steps, wrapping after 23, lead from `a` to `b`. */
  function Dist(a: HourIndex, b: HourIndex): (n: nat)
    ensures n < HoursPerDay
    ensures n == 0 <==> a == b
    ensures n == (b - a) % HoursPerDay
  {
    if a <= b then b - a else b + HoursPerDay - a
  }

  /** The hour that follows `h`, wrapping from 23 to 0. */
  function Next(h: HourIndex): (n: HourIndex)
    ensures n != h
    ensures Dist(h, n) == 1
  {
    (h + 1) % HoursPerDay
  }

  /** Hour `i` lies on the forward arc from `h0` (exclusive) to `h`
      (inclusive). When `h0 == h` the arc is empty. */
  predicate InArc(h0: HourIndex, h: HourIndex, i: HourIndex)
  {
    i != h0 && Dist(h0, i) <= Dist(h0, h)
  }

  /** Midnight UTC at the start of some day (day 20000 after the epoch),
      a fixed reference day for concrete timelines. */
  const Day: int := 20000 * SecondsPerDay

  /** The Unix timestamp of wall-clock time hh:mm counted from `Day`;
      `hh` may exceed 23 to reach later days. */
  function At(hh: nat, mm: nat): int
  {
    Day + hh * SecondsPerHour + mm * 60
  }
}
