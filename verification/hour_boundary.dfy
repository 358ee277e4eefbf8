/**
 Whether the ring really holds only the last day.

 To follow where each contribution came from, the statistic is instantiated
 with the multiset of the timestamps of the events it accounts for: the zero
 is the empty multiset and the combine is multiset union. A ring is then
 well-kept when every event sits in the bin of its own hour of day and lies
 in the 24 calendar hours ending with the hour of `updatedAt`; a report made
 at time `now` is fresh when every event lies in the 24 calendar hours
 ending with the hour of `now`.

 `forward_to` as written decides whether to clear anything by the elapsed
 WHOLE hours since `updated_at`, not by the hour boundaries crossed. A ring
 stamped 11:40 that receives a contribution at 12:20 of the same day clears
 nothing, so bin 12 still holds yesterday's 12:15 event, now more than a day
 old (`AsWrittenKeepsStaleEvent`). Counting hour boundaries instead
 (`ForwardToHourly`) keeps every ring well-kept and every report fresh
 (`HourlyAddStatsKeepsLastDay`), while every event that is still recent
 stays in its bin (`HourlyAddStatsRetains`).
 */
module HourBoundary {
  import opened Clock
  import opened LastDayStats

  type Events = multiset<int>

  function Union(x: Events, y: Events): Events { x + y }

  /** Hours since the epoch, rounded down: the calendar hour of `t`. */
  function HourNumber(t: int): int { t / SecondsPerHour }

  /** Every event sits in the bin of its own hour of day, at most 23
      calendar hours before the hour of `updatedAt` and not after it. */
  predicate WellKept(b: LastDayTierStats<Events>)
  {
    Valid(b) &&
    forall i: HourIndex, e | e in b.bins[i] ::
      Hour(e) == i &&
      HourNumber(b.updatedAt) - HoursPerDay < HourNumber(e) <= HourNumber(b.updatedAt)
  }

  /** Every event lies in the 24 calendar hours that end with the hour of
      `now`. */
  predicate FreshAt(b: LastDayTierStats<Events>, now: int)
    requires Valid(b)
  {
    forall i: HourIndex, e | e in b.bins[i] :: HourNumber(now) - HoursPerDay < HourNumber(e)
  }

  /** As written: a well-kept ring, a clock that does not go backwards, and
      still the report right after `add_stats` carries an event from more
      than a day before. */
  lemma AsWrittenKeepsStaleEvent()
    ensures var yesterday := At(12, 15) - SecondsPerDay;
            var b := LastDayTierStats(seq(HoursPerDay, i => if i == 12 then multiset{yesterday} else multiset{}),
                                      At(11, 40));
            var now := At(12, 20);
            var r := AddStats(b, multiset{now}, now, 0, multiset{}, Union);
            WellKept(b) && now >= b.updatedAt &&
            yesterday in r.bins[12] && now - yesterday > SecondsPerDay &&
            !FreshAt(r, now)
  {
    var yesterday := At(12, 15) - SecondsPerDay;
    var b := LastDayTierStats(seq(HoursPerDay, i => if i == 12 then multiset{yesterday} else multiset{}),
                              At(11, 40));
    var now := At(12, 20);
    assert Hour(yesterday) == 12;
    assert HourNumber(yesterday) == HourNumber(b.updatedAt) - 23;
    assert WellKept(b);
    assert Hour(now) == 12;
    var r := AddStats(b, multiset{now}, now, 0, multiset{}, Union);
    assert r.bins[12] == multiset{yesterday} + multiset{now};
  }

  /** One recorded event, on a ring stamped `u`, at time `now` in hour of
      day `h`, within the hour after `u` (nothing is cleared). */
  lemma AsWrittenStepWithinHour(b: LastDayTierStats<Events>, now: int, h: HourIndex)
    requires Valid(b) && now != 0 && 0 <= now - b.updatedAt < SecondsPerHour && Hour(now) == h
    ensures var r := AddStats(b, multiset{now}, now, 0, multiset{}, Union);
            r.updatedAt == b.updatedAt && r.bins[h] == b.bins[h] + multiset{now} &&
            forall i: HourIndex :: i != h ==> r.bins[i] == b.bins[i]
  {
  }

  /** One recorded event after one to 23 whole hours, landing in a different
      hour of day `h`: the arc from the old hour to `h` is cleared, and the
      bin of `h` then receives the event. */
  lemma AsWrittenStepAcross(b: LastDayTierStats<Events>, now: int, h0: HourIndex, h: HourIndex)
    requires Valid(b) && now != 0 && SecondsPerHour <= now - b.updatedAt < SecondsPerDay
    requires Hour(b.updatedAt) == h0 && Hour(now) == h && h0 != h
    ensures var r := AddStats(b, multiset{now}, now, 0, multiset{}, Union);
            r.updatedAt == now && r.bins[h] == multiset{now} &&
            forall i: HourIndex :: i != h ==> r.bins[i] == if InArc(h0, h, i) then multiset{} else b.bins[i]
  {
  }

  /** The same state reached through the operations alone: a fresh ring
      records an event yesterday at 12:15, then events today at 11:40 and
      12:20, and yesterday's event is still counted in bin 12. One more
      event at 13:30 then walks from hour 11 and clears bin 12, dropping
      the 12:20 event after only 70 minutes. */
  lemma AsWrittenRun()
    ensures var y := At(12, 15) - SecondsPerDay;
            var r0 := AddStats(Default(multiset{}, y), multiset{y}, y, 0, multiset{}, Union);
            var r1 := AddStats(r0, multiset{At(11, 40)}, At(11, 40), 0, multiset{}, Union);
            var r2 := AddStats(r1, multiset{At(12, 20)}, At(12, 20), 0, multiset{}, Union);
            var r3 := AddStats(r2, multiset{At(13, 30)}, At(13, 30), 0, multiset{}, Union);
            r2.bins[12] == multiset{y, At(12, 20)} && !FreshAt(r2, At(12, 20)) &&
            At(12, 20) !in r3.bins[12] && r3.bins[13] == multiset{At(13, 30)}
  {
    var y := At(12, 15) - SecondsPerDay;
    assert Hour(y) == 12;
    var d := Default(multiset{}, y);
    AsWrittenStepWithinHour(d, y, 12);
    var r0 := AddStats(d, multiset{y}, y, 0, multiset{}, Union);
    assert r0.bins[12] == multiset{y};

    assert Hour(At(11, 40)) == 11;
    AsWrittenStepAcross(r0, At(11, 40), 12, 11);
    var r1 := AddStats(r0, multiset{At(11, 40)}, At(11, 40), 0, multiset{}, Union);
    assert !InArc(12, 11, 12);
    assert r1.bins[12] == multiset{y};

    assert Hour(At(12, 20)) == 12;
    AsWrittenStepWithinHour(r1, At(12, 20), 12);
    var r2 := AddStats(r1, multiset{At(12, 20)}, At(12, 20), 0, multiset{}, Union);
    assert r2.bins[12] == multiset{y, At(12, 20)};
    assert HourNumber(y) == HourNumber(At(12, 20)) - HoursPerDay;

    assert Hour(At(13, 30)) == 13;
    AsWrittenStepAcross(r2, At(13, 30), 11, 13);
    assert InArc(11, 13, 12);
  }

  /** Corrected `forward_to`: the number of hour boundaries crossed since
      `updated_at` decides, instead of the elapsed whole hours, both whether
      to advance at all (one or more) and whether to reset every bin (24 or
      more). So 00:30 to 00:20 the next day, which `ForwardTo` leaves
      untouched, crosses 24 boundaries here and clears everything. The epoch
      substitution and the wrap-around walk are as in `ForwardTo`. */
  function ForwardToHourly<T>(b: LastDayTierStats<T>, t: int, clock: int, zero: T): (r: Forwarded<T>)
    requires Valid(b)
    ensures Valid(r.stats)
    ensures r.target == Target(t, clock)
    ensures HourNumber(r.target) <= HourNumber(b.updatedAt) ==> r.stats == b
    ensures HourNumber(r.target) > HourNumber(b.updatedAt) ==> r.stats.updatedAt == r.target
    ensures HourNumber(r.target) - HourNumber(b.updatedAt) >= HoursPerDay ==>
              forall i: HourIndex :: r.stats.bins[i] == zero
    ensures 0 < HourNumber(r.target) - HourNumber(b.updatedAt) < HoursPerDay ==>
              forall i: HourIndex ::
                r.stats.bins[i] == if InArc(Hour(b.updatedAt), Hour(r.target), i) then zero else b.bins[i]
  {
    var t' := Target(t, clock);
    var crossed := HourNumber(t') - HourNumber(b.updatedAt);
    if crossed < 1 then
      Forwarded(b, t')
    else if crossed >= HoursPerDay then
      Forwarded(Default(zero, t'), t')
    else
      Forwarded(LastDayTierStats(ZeroArc(b.bins, Hour(b.updatedAt), Hour(t'), zero), t'), t')
  }

  /** Whether the corrected forward from a ring stamped `updatedAt` to
      `target` discards the bin for hour `i`: not at all within the same
      calendar hour (or an earlier one), every bin after 24 hour boundaries
      or more, and otherwise exactly the hours on the forward arc after the
      old hour up to the new one. */
  predicate StaleHourly(updatedAt: int, target: int, i: HourIndex)
  {
    if HourNumber(target) <= HourNumber(updatedAt) then false
    else if HourNumber(target) - HourNumber(updatedAt) >= HoursPerDay then true
    else InArc(Hour(updatedAt), Hour(target), i)
  }

  /** Corrected `add_stats`: forward by hour boundaries, then combine into
      the bin of the current hour. */
  function AddStatsHourly<T>(b: LastDayTierStats<T>, ts: T, now: int, clock: int,
                             zero: T, add: (T, T) -> T): (r: LastDayTierStats<T>)
    requires Valid(b)
    ensures Valid(r)
    ensures var t := Target(now, clock);
            r.updatedAt == (if HourNumber(t) <= HourNumber(b.updatedAt) then b.updatedAt else t)
    ensures var t := Target(now, clock);
            forall i: HourIndex ::
              var kept := if StaleHourly(b.updatedAt, t, i) then zero else b.bins[i];
              r.bins[i] == if i == Hour(t) then add(kept, ts) else kept
  {
    var f := ForwardToHourly(b, now, clock, zero);
    var nowIdx := Hour(f.target);
    f.stats.(bins := f.stats.bins[nowIdx := add(f.stats.bins[nowIdx], ts)])
  }

  /** Distances on the clock face are differences of calendar hours taken
      modulo 24. */
  lemma {:induction false} DistOfHourNumbers(x: int, y: int)
    requires x <= y < x + HoursPerDay
    ensures Dist(x % HoursPerDay, y % HoursPerDay) == y - x
  {
    var q := x / HoursPerDay;
    assert x == HoursPerDay * q + x % HoursPerDay;
    assert y == HoursPerDay * (y / HoursPerDay) + y % HoursPerDay;
    if y % HoursPerDay >= x % HoursPerDay {
      assert y / HoursPerDay == q;
    } else {
      assert y / HoursPerDay == q + 1;
    }
  }

  /** The heart of the correction: an event more than a day older than the
      new hour, but within a day of the old one, has an hour of day on the
      arc the walk clears. */
  lemma {:induction false} OutdatedEventOnArc(u: int, t: int, e: int)
    requires 0 < HourNumber(t) - HourNumber(u) < HoursPerDay
    requires HourNumber(u) - HoursPerDay < HourNumber(e) <= HourNumber(t) - HoursPerDay
    ensures InArc(Hour(u), Hour(t), Hour(e))
  {
    var hu, ht, he := HourNumber(u), HourNumber(t), HourNumber(e);
    var k := he + HoursPerDay;
    assert (k % HoursPerDay) == he % HoursPerDay;
    DistOfHourNumbers(hu, k);
    DistOfHourNumbers(hu, ht);
    assert Dist(hu % HoursPerDay, he % HoursPerDay) == k - hu;
    assert Dist(hu % HoursPerDay, ht % HoursPerDay) == ht - hu;
  }

  /** Forwarding by hour boundaries to a time not before `updatedAt` keeps
      a ring well-kept, and leaves its stamp in the hour of the target. */
  lemma {:induction false} HourlyForwardKeepsLastDay(b: LastDayTierStats<Events>, t: int, clock: int)
    requires WellKept(b)
    requires Target(t, clock) >= b.updatedAt
    ensures var f := ForwardToHourly(b, t, clock, multiset{});
            WellKept(f.stats) && HourNumber(f.stats.updatedAt) == HourNumber(f.target)
  {
    var f := ForwardToHourly(b, t, clock, multiset{});
    var t' := f.target;
    assert HourNumber(t') >= HourNumber(b.updatedAt);
    var crossed := HourNumber(t') - HourNumber(b.updatedAt);
    if 0 < crossed < HoursPerDay {
      forall i: HourIndex, e | e in f.stats.bins[i]
        ensures Hour(e) == i
        ensures HourNumber(t') - HoursPerDay < HourNumber(e) <= HourNumber(t')
      {
        assert e in b.bins[i] && !InArc(Hour(b.updatedAt), Hour(t'), i);
        if HourNumber(e) <= HourNumber(t') - HoursPerDay {
          OutdatedEventOnArc(b.updatedAt, t', e);
          assert false;
        }
      }
    }
  }

  /** The property the ring is meant to have, proved for the corrected operation:
      recording an event at the current time keeps the ring well-kept, puts
      the event in its own hour's bin, and every report made right after is
      fresh. */
  lemma {:induction false} HourlyAddStatsKeepsLastDay(b: LastDayTierStats<Events>, now: int, clock: int)
    requires WellKept(b)
    requires Target(now, clock) >= b.updatedAt
    ensures var t := Target(now, clock);
            var r := AddStatsHourly(b, multiset{t}, now, clock, multiset{}, Union);
            WellKept(r) && t in r.bins[Hour(t)] && FreshAt(r, t)
  {
    var t := Target(now, clock);
    HourlyForwardKeepsLastDay(b, now, clock);
    var f := ForwardToHourly(b, now, clock, multiset{});
    var r := AddStatsHourly(b, multiset{t}, now, clock, multiset{}, Union);
    forall i: HourIndex, e | e in r.bins[i]
      ensures Hour(e) == i
      ensures HourNumber(r.updatedAt) - HoursPerDay < HourNumber(e) <= HourNumber(r.updatedAt)
    {
      if e !in f.stats.bins[i] {
        assert i == Hour(t) && e == t;
      }
    }
  }

  /** The other half of the property: the corrected operation drops only
      what is stale. An event already in the ring that still lies within
      the 24 calendar hours ending with the current hour stays in its bin. */
  lemma {:induction false} HourlyAddStatsRetains(b: LastDayTierStats<Events>, now: int, clock: int,
                                                 i: HourIndex, e: int)
    requires WellKept(b) && Target(now, clock) >= b.updatedAt
    requires e in b.bins[i] && HourNumber(Target(now, clock)) - HoursPerDay < HourNumber(e)
    ensures e in AddStatsHourly(b, multiset{Target(now, clock)}, now, clock, multiset{}, Union).bins[i]
  {
    var t := Target(now, clock);
    var hu, ht, he := HourNumber(b.updatedAt), HourNumber(t), HourNumber(e);
    if 0 < ht - hu < HoursPerDay && InArc(Hour(b.updatedAt), Hour(t), i) {
      DistOfHourNumbers(he, hu);
      DistOfHourNumbers(hu, ht);
      assert false;
    }
  }
}
