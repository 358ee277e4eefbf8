/**
 The last-day tier statistics of a storage tier: a ring of 24 bins, one per
 UTC hour of day, each holding the statistic accumulated in that calendar
 hour, plus the timestamp at which the ring was last advanced.

 The statistic itself is opaque here. Every operation takes its zero
 (`TierStats::default()`) and its combine operation (`TierStats::add`) as
 parameters; properties that need the combine to be commutative or to have
 the zero as identity take those laws as hypotheses.

 The wall clock is a parameter too. `Default`'s `now` and `AddStats`'s
 `now` are the readings taken when a ring is created and when a statistic
 is recorded; `clock` is the reading `forward_to` takes to replace an epoch
 target.
 */
module LastDayStats {
  import opened Clock

  datatype LastDayTierStats<T> = LastDayTierStats(bins: seq<T>, updatedAt: int)

  /** Tier name to that tier's ring. A plain container with no logic. */
  type DailyAllTierStats<T> = map<string, LastDayTierStats<T>>

  /** The source's bins are a fixed array of 24 values. */
  predicate Valid<T>(b: LastDayTierStats<T>)
  {
    |b.bins| == HoursPerDay
  }

  /** A fresh ring: every bin holds the zero statistic, stamped with the
      current time. */
  function Default<T>(zero: T, now: int): (r: LastDayTierStats<T>)
    ensures Valid(r)
    ensures r.updatedAt == now
    ensures forall i: HourIndex :: r.bins[i] == zero
  {
    LastDayTierStats(seq(HoursPerDay, _ => zero), now)
  }

  /** The timestamp `forward_to` really advances to: an epoch (zero)
      timestamp stands for "unset" and is replaced by the clock. */
  function Target(t: int, clock: int): (r: int)
    ensures t != 0 ==> r == t
    ensures t == 0 ==> r == clock
  {
    if t == 0 then clock else t
  }

  /** Whether advancing a ring stamped `updatedAt` to `target` discards the
      bin for hour `i`: not at all within an hour, every bin after a day or
      more, and otherwise exactly the hours on the forward arc after the old
      hour up to the new one. */
  predicate Stale(updatedAt: int, target: int, i: HourIndex)
  {
    if target - updatedAt < SecondsPerHour then false
    else if target - updatedAt >= SecondsPerDay then true
    else InArc(Hour(updatedAt), Hour(target), i)
  }

  /** The wrap-around walk: starting at `last`, step one hour forward
      (modulo 24) and zero each visited bin until `idx` has been zeroed.
      The starting bin itself is never touched. */
  function ZeroArc<T>(bins: seq<T>, last: HourIndex, idx: HourIndex, zero: T): (r: seq<T>)
    requires |bins| == HoursPerDay
    ensures |r| == HoursPerDay
    ensures forall i: HourIndex :: r[i] == if InArc(last, idx, i) then zero else bins[i]
    decreases Dist(last, idx)
  {
    if last == idx then bins
    else
      var next := Next(last);
      ZeroArc(bins[next := zero], next, idx, zero)
  }

  /** Number of iterations of the walk from `last` to `idx`: the recursion
      of `ZeroArc` without the bins. `IterationsClearArc` shows it is the
      number of bins the walk clears. */
  function Iterations(last: HourIndex, idx: HourIndex): (n: nat)
    ensures n <= HoursPerDay - 1
    ensures n == (idx - last) % HoursPerDay
    ensures n == 0 <==> last == idx
    decreases Dist(last, idx)
  {
    if last == idx then 0 else 1 + Iterations(Next(last), idx)
  }

  /** The hours the walk from `last` to `idx` clears. */
  function ArcSet(last: HourIndex, idx: HourIndex): set<HourIndex>
  {
    set i: HourIndex | InArc(last, idx, i)
  }

  /** Each iteration of the walk clears one new bin: the loop runs exactly
      as many times as there are bins on the arc it clears. */
  lemma {:induction false} IterationsClearArc(last: HourIndex, idx: HourIndex)
    ensures |ArcSet(last, idx)| == Iterations(last, idx)
    decreases Dist(last, idx)
  {
    if last == idx {
      assert ArcSet(last, idx) == {};
    } else {
      var next := Next(last);
      IterationsClearArc(next, idx);
      assert ArcSet(last, idx) == {next} + ArcSet(next, idx);
      assert next !in ArcSet(next, idx);
    }
  }

  /** What `forward_to` leaves behind: the advanced ring, and the target
      timestamp as written back through its `&mut` argument. */
  datatype Forwarded<T> = Forwarded(stats: LastDayTierStats<T>, target: int)

  /** Advance the ring to time `t`, zeroing the bins that went stale. */
  function ForwardTo<T>(b: LastDayTierStats<T>, t: int, clock: int, zero: T): (r: Forwarded<T>)
    requires Valid(b)
    ensures Valid(r.stats)
    ensures r.target == Target(t, clock)
    // under one whole hour, including any earlier target: nothing changes
    ensures r.target - b.updatedAt < SecondsPerHour ==> r.stats == b
    // a day or more: every bin is cleared
    ensures r.target - b.updatedAt >= SecondsPerDay ==>
              r.stats.updatedAt == r.target && forall i: HourIndex :: r.stats.bins[i] == zero
    // one to 23 whole hours: exactly the arc after the old hour is cleared
    ensures SecondsPerHour <= r.target - b.updatedAt < SecondsPerDay ==>
              r.stats.updatedAt == r.target &&
              forall i: HourIndex ::
                r.stats.bins[i] == if InArc(Hour(b.updatedAt), Hour(r.target), i) then zero else b.bins[i]
    // the timestamp never moves backwards, and moves by at least an hour
    ensures r.stats.updatedAt == b.updatedAt || r.stats.updatedAt >= b.updatedAt + SecondsPerHour
  {
    var t' := Target(t, clock);
    var since := WholeHours(t' - b.updatedAt);
    if since < 1 then
      Forwarded(b, t')
    else
      var idx, lastIdx := Hour(t'), Hour(b.updatedAt);
      if since >= HoursPerDay then
        Forwarded(Default(zero, t'), t')
      else
        Forwarded(LastDayTierStats(ZeroArc(b.bins, lastIdx, idx, zero), t'), t')
  }

  /** Record one statistic at time `now`: advance to `now`, then combine
      `ts` into the bin of the current hour. `clock` is only consulted
      when `now` is the epoch. */
  function AddStats<T>(b: LastDayTierStats<T>, ts: T, now: int, clock: int,
                       zero: T, add: (T, T) -> T): (r: LastDayTierStats<T>)
    requires Valid(b)
    ensures Valid(r)
    ensures var target := Target(now, clock);
            r.updatedAt == (if target - b.updatedAt < SecondsPerHour then b.updatedAt else target)
    ensures var target := Target(now, clock);
            forall i: HourIndex ::
              var kept := if Stale(b.updatedAt, target, i) then zero else b.bins[i];
              r.bins[i] == if i == Hour(target) then add(kept, ts) else kept
  {
    var f := ForwardTo(b, now, clock, zero);
    var nowIdx := Hour(f.target);
    f.stats.(bins := f.stats.bins[nowIdx := add(f.stats.bins[nowIdx], ts)])
  }

  /** Combine two rings of the same tier into a new one. The older ring
      (the receiver `a` on a tie) is first advanced to the newer one's
      timestamp; the bins are then combined index by index, `a`'s side
      first. Neither input changes. */
  function Merge<T>(a: LastDayTierStats<T>, m: LastDayTierStats<T>, clock: int,
                    zero: T, add: (T, T) -> T): (r: LastDayTierStats<T>)
    requires Valid(a) && Valid(m)
    ensures Valid(r)
    ensures r.updatedAt == Target(if a.updatedAt > m.updatedAt then a.updatedAt else m.updatedAt, clock)
    ensures a.updatedAt > m.updatedAt ==>
              forall i: HourIndex ::
                r.bins[i] == add(a.bins[i], if Stale(m.updatedAt, r.updatedAt, i) then zero else m.bins[i])
    ensures a.updatedAt <= m.updatedAt ==>
              forall i: HourIndex ::
                r.bins[i] == add(if Stale(a.updatedAt, r.updatedAt, i) then zero else a.bins[i], m.bins[i])
  {
    var (cl, cm, at) :=
      if a.updatedAt > m.updatedAt then
        var f := ForwardTo(m, a.updatedAt, clock, zero);
        (a, f.stats, f.target)
      else
        var f := ForwardTo(a, m.updatedAt, clock, zero);
        (f.stats, m, f.target);
    LastDayTierStats(seq(HoursPerDay, i requires 0 <= i < HoursPerDay => add(cl.bins[i], cm.bins[i])), at)
  }
}
