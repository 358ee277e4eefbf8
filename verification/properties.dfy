/**
 Properties relating several calls of the last-day ring operations: the
 repeat of a forward, the symmetric description of a merge, merge
 commutativity, and the zero ring as a merge identity.
 */
module LastDayProperties {
  import opened Clock
  import opened LastDayStats

  /** Forwarding again to the timestamp just reached changes nothing. */
  lemma ForwardIdempotent<T>(b: LastDayTierStats<T>, t: int, clock: int, zero: T)
    requires Valid(b)
    ensures var f := ForwardTo(b, t, clock, zero);
            ForwardTo(f.stats, f.target, clock, zero) == f
  {
  }

  /** `updated_at` never goes backwards under `add_stats`, and it moves only
      when at least one whole hour has passed. */
  lemma AddStatsMonotone<T>(b: LastDayTierStats<T>, ts: T, now: int, clock: int,
                            zero: T, add: (T, T) -> T)
    requires Valid(b)
    ensures var r := AddStats(b, ts, now, clock, zero, add);
            r.updatedAt == b.updatedAt || r.updatedAt >= b.updatedAt + SecondsPerHour
  {
  }

  /** Within the hour after `updated_at` a contribution only accumulates in
      the bin of its own hour; that bin need not be the hour of
      `updated_at`, and nothing is zeroed. */
  lemma AddStatsWithinHour<T>(b: LastDayTierStats<T>, ts: T, now: int, clock: int,
                              zero: T, add: (T, T) -> T)
    requires Valid(b)
    requires now != 0 && now - b.updatedAt < SecondsPerHour
    ensures AddStats(b, ts, now, clock, zero, add)
            == b.(bins := b.bins[Hour(now) := add(b.bins[Hour(now)], ts)])
  {
  }

  /** A merge is the same as advancing BOTH rings to the later timestamp and
      combining bin by bin: advancing the newer ring to its own timestamp
      changes nothing. (Not so when the later timestamp is the epoch, which
      the source replaces by the clock.) */
  lemma MergeAligned<T>(a: LastDayTierStats<T>, m: LastDayTierStats<T>, clock: int,
                        zero: T, add: (T, T) -> T)
    requires Valid(a) && Valid(m)
    requires (if a.updatedAt > m.updatedAt then a.updatedAt else m.updatedAt) != 0
    ensures var later := if a.updatedAt > m.updatedAt then a.updatedAt else m.updatedAt;
            var r := Merge(a, m, clock, zero, add);
            r.updatedAt == later &&
            forall i: HourIndex ::
              r.bins[i] == add(ForwardTo(a, later, clock, zero).stats.bins[i],
                               ForwardTo(m, later, clock, zero).stats.bins[i])
  {
  }

  /** With a commutative combine, the order of the two rings does not
      matter: the tie-break takes a different branch but reaches the same
      bins and the same timestamp. The one exception is a tie at the epoch,
      where each order forwards a different ring to the clock (see
      `MergeSameEpoch`). */
  lemma MergeCommutes<T>(a: LastDayTierStats<T>, m: LastDayTierStats<T>, clock: int,
                         zero: T, add: (T, T) -> T)
    requires Valid(a) && Valid(m)
    requires a.updatedAt != m.updatedAt || a.updatedAt != 0
    requires forall x, y :: add(x, y) == add(y, x)
    ensures Merge(a, m, clock, zero, add) == Merge(m, a, clock, zero, add)
  {
  }

  /** Equal, non-epoch timestamps: nothing is zeroed and every bin is the
      combination of the two inputs' bins. */
  lemma MergeSameTime<T>(a: LastDayTierStats<T>, m: LastDayTierStats<T>, clock: int,
                         zero: T, add: (T, T) -> T)
    requires Valid(a) && Valid(m)
    requires a.updatedAt == m.updatedAt != 0
    ensures var r := Merge(a, m, clock, zero, add);
            r.updatedAt == a.updatedAt &&
            forall i: HourIndex :: r.bins[i] == add(a.bins[i], m.bins[i])
  {
  }

  /** Equal epoch timestamps are the exception: the epoch is replaced by
      the clock, so the receiver is advanced to the clock and, a day or more
      later, loses every bin. */
  lemma MergeSameEpoch<T>(a: LastDayTierStats<T>, m: LastDayTierStats<T>, clock: int,
                          zero: T, add: (T, T) -> T)
    requires Valid(a) && Valid(m)
    requires a.updatedAt == m.updatedAt == 0
    requires clock >= SecondsPerDay
    ensures var r := Merge(a, m, clock, zero, add);
            r.updatedAt == clock &&
            forall i: HourIndex :: r.bins[i] == add(zero, m.bins[i])
  {
  }

  /** Merging with a fresh ring of the same timestamp gives back the ring's
      own bins, when the zero is an identity of the combine. */
  lemma MergeDefaultIdentity<T>(b: LastDayTierStats<T>, clock: int,
                                zero: T, add: (T, T) -> T)
    requires Valid(b)
    requires b.updatedAt != 0
    requires forall x :: add(x, zero) == x
    ensures Merge(b, Default(zero, b.updatedAt), clock, zero, add) == b
  {
  }

  /** A merge across a day or more keeps only the newer ring's bins (each
      combined with the zero). */
  lemma MergeFullyStale<T>(a: LastDayTierStats<T>, m: LastDayTierStats<T>, clock: int,
                           zero: T, add: (T, T) -> T)
    requires Valid(a) && Valid(m)
    requires m.updatedAt != 0 && m.updatedAt - a.updatedAt >= SecondsPerDay
    ensures var r := Merge(a, m, clock, zero, add);
            r.updatedAt == m.updatedAt &&
            forall i: HourIndex :: r.bins[i] == add(zero, m.bins[i])
  {
  }

  /** Advancing from hour H to hour H+3 (wrapping) clears exactly the bins
      of H+1, H+2 and H+3, and keeps bin H and bin H-1. */
  lemma ForwardThreeHours<T>(b: LastDayTierStats<T>, t: int, clock: int, zero: T)
    requires Valid(b)
    requires t != 0 && SecondsPerHour <= t - b.updatedAt < SecondsPerDay
    requires Hour(t) == (Hour(b.updatedAt) + 3) % HoursPerDay
    ensures var h := Hour(b.updatedAt);
            var r := ForwardTo(b, t, clock, zero).stats;
            r.updatedAt == t &&
            r.bins[(h + 1) % HoursPerDay] == zero &&
            r.bins[(h + 2) % HoursPerDay] == zero &&
            r.bins[(h + 3) % HoursPerDay] == zero &&
            r.bins[h] == b.bins[h] &&
            r.bins[(h + 23) % HoursPerDay] == b.bins[(h + 23) % HoursPerDay]
  {
  }
}
