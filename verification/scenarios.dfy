/**
 Concrete timelines that pin down how the ring behaves at hour boundaries.
 The number of bins cleared follows the hour-of-day difference, while the
 decision whether to clear at all follows the elapsed whole hours; these
 timelines show where the two part ways.
 */
module Scenarios {
  import opened Clock
  import opened LastDayStats

  /** Counts as a stand-in statistic: zero and addition. */
  function Plus(x: nat, y: nat): nat { x + y }

  /** A ring stamped 10:10 holding 5 in bin 10 receives 3 at 12:10: bin 11
      is cleared, bin 12 holds just the 3, bin 10 keeps its 5, and the
      timestamp moves to 12:10. */
  lemma AddTwoHoursLater(b: LastDayTierStats<nat>, clock: int)
    requires Valid(b)
    requires b.updatedAt == At(10, 10) && b.bins[10] == 5
    ensures var r := AddStats(b, 3, At(12, 10), clock, 0, Plus);
            r.bins[11] == 0 && r.bins[12] == 3 && r.bins[10] == 5 &&
            r.updatedAt == At(12, 10)
  {
    assert Hour(At(10, 10)) == 10;
    assert Hour(At(12, 10)) == 12;
    assert WholeHours(At(12, 10) - At(10, 10)) == 2;
    assert InArc(10, 12, 11) && InArc(10, 12, 12) && !InArc(10, 12, 10);
  }

  /** 10:59 to 12:30 is one whole hour, yet two bins, 11 and 12, are
      cleared: the walk follows the hours of day, not the elapsed hours. */
  lemma ForwardAcrossTwoHourMarks<T>(b: LastDayTierStats<T>, clock: int, zero: T)
    requires Valid(b) && b.updatedAt == At(10, 59)
    ensures var r := ForwardTo(b, At(12, 30), clock, zero).stats;
            r.updatedAt == At(12, 30) &&
            forall i: HourIndex :: r.bins[i] == if i == 11 || i == 12 then zero else b.bins[i]
  {
    assert Hour(At(10, 59)) == 10;
    assert Hour(At(12, 30)) == 12;
    assert WholeHours(At(12, 30) - At(10, 59)) == 1;
  }

  /** 00:30 to 00:20 on the next day is 23 whole hours, but both times fall
      in hour 0, so the walk is empty and no bin is cleared. */
  lemma ForwardAlmostADay<T>(b: LastDayTierStats<T>, clock: int, zero: T)
    requires Valid(b) && b.updatedAt == At(0, 30)
    ensures var r := ForwardTo(b, At(24, 20), clock, zero).stats;
            r.updatedAt == At(24, 20) && r.bins == b.bins
  {
    assert Hour(At(0, 30)) == 0;
    assert Hour(At(24, 20)) == 0;
    assert WholeHours(At(24, 20) - At(0, 30)) == 23;
    var r := ForwardTo(b, At(24, 20), clock, zero).stats;
    assert forall i: HourIndex :: r.bins[i] == b.bins[i];
  }

  /** 10:30 to 11:29 is under an hour, so nothing is cleared and the
      timestamp stays, yet the contribution lands in bin 11, whatever that
      bin still held. */
  lemma AddJustUnderAnHour<T>(b: LastDayTierStats<T>, ts: T, clock: int,
                              zero: T, add: (T, T) -> T)
    requires Valid(b) && b.updatedAt == At(10, 30)
    ensures ForwardTo(b, At(11, 29), clock, zero).stats == b
    ensures AddStats(b, ts, At(11, 29), clock, zero, add)
            == b.(bins := b.bins[11 := add(b.bins[11], ts)])
  {
    assert Hour(At(11, 29)) == 11;
    var r := AddStats(b, ts, At(11, 29), clock, zero, add);
    assert forall i: HourIndex :: r.bins[i] == b.bins[11 := add(b.bins[11], ts)][i];
  }

  /** An epoch target is replaced by the clock, and that replacement is
      what `add_stats` then uses to pick the bin. */
  lemma AddAtEpochUsesClock<T>(b: LastDayTierStats<T>, ts: T, zero: T, add: (T, T) -> T)
    requires Valid(b) && b.updatedAt == At(10, 30)
    ensures ForwardTo(b, 0, At(13, 5), zero).target == At(13, 5)
    ensures var r := AddStats(b, ts, 0, At(13, 5), zero, add);
            r.updatedAt == At(13, 5) && r.bins[13] == add(zero, ts) &&
            r.bins[10] == b.bins[10] && r.bins[11] == zero && r.bins[12] == zero
  {
    assert Hour(At(10, 30)) == 10;
    assert Hour(At(13, 5)) == 13;
    assert WholeHours(At(13, 5) - At(10, 30)) == 2;
    assert InArc(10, 13, 11) && InArc(10, 13, 12) && InArc(10, 13, 13) && !InArc(10, 13, 10);
  }
}
