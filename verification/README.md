# Last-day tier statistics, in Dafny

A model of `LastDayTierStats`, the per-tier record of the lifecycle subsystem
that keeps a rolling "last day" of tier-transition statistics. The record is a
ring of 24 bins, one per UTC hour of day, plus the timestamp `updated_at` at
which the ring was last advanced. It has three operations:

- `forward_to` advances the ring to a time `t` and zeroes the bins that went
  stale. An epoch `t` is first replaced by the current time. Under one whole
  hour since `updated_at` it does nothing. After 24 whole hours or more it
  clears every bin. Otherwise it walks forward, modulo 24, from the old hour
  of day to the new one and zeroes each bin it visits after the first.
- `add_stats` forwards to the current time, then combines one statistic into
  the bin of the current hour.
- `merge` forwards a copy of the older ring (the receiver on a tie) to the
  newer one's timestamp, then combines the two rings bin by bin.

`DailyAllTierStats`, the map from tier name to ring, is the type alias
`LastDayStats.DailyAllTierStats` and has no operations.

Files:

- `clock.dfy` (module `Clock`): Unix-second timestamps and UTC hour of day.
  `Duration::whole_hours` is modelled as division truncated toward zero. The
  module also defines distances and arcs on the 24-hour clock face, and a
  fixed reference day for concrete timelines.
- `last_day_tier_stats.dfy` (module `LastDayStats`): the ring and its
  operations.
- `properties.dfy` (module `LastDayProperties`): lemmas relating several
  calls.
- `scenarios.dfy` (module `Scenarios`): concrete timelines at hour
  boundaries.
- `hour_boundary.dfy` (module `HourBoundary`): the finding below, with the
  code as written and a corrected forward.

Modelling choices:

- The statistic type `TierStats` is defined outside this file. It is a type
  parameter `T` here. Each operation receives its zero (`TierStats::default()`)
  and its combine (`TierStats::add`) as arguments. Lemmas that need
  commutativity or an identity take those laws as hypotheses.
- Time is an `int` count of Unix seconds. The hour of day is
  `(t / 3600) % 24`, and Dafny's Euclidean division makes this the right
  calendar hour for instants before 1970 too.
- Every read of the wall clock (`now_utc()`) is a parameter holding the value
  it would have returned. The read when a ring is created (line 22) is
  `Default`'s `now`. The read in `add_stats` (line 29) is `AddStats`'s `now`.
  The read that replaces an epoch target in `forward_to` (line 38) is the
  `clock` parameter of `ForwardTo`, `AddStats` and `Merge`.
- Mutation through `&mut self` becomes a function that returns the new ring.
  `forward_to` also writes the replaced epoch back through its `&mut t`
  argument. It therefore returns a `Forwarded` pair: the new ring and the
  target actually used. `add_stats` takes its bin index from that target,
  and `merge` takes the result's timestamp from it.
- Because every operation is a pure function, `merge` cannot change its
  inputs, just as the source only changes its clones.

Behaviour of the code at the edges, which the model keeps:

- The partial walk clears as many bins as the hour-of-day difference, not as
  many as the whole hours elapsed. 10:59 to 12:30 is one elapsed hour but
  clears bins 11 and 12. 00:30 to 00:20 the next day is 23 elapsed hours but
  clears nothing.
- Everything is reset at 24 whole hours or more; 23 h 59 min still walks.
- The stamp `updated_at` stays put for any call less than one whole hour
  later, even one that falls in the next hour of day.
- With a commutative combine, `merge(A, B)` and `merge(B, A)` agree, except
  when both timestamps are the epoch. In that case each order forwards a
  different ring to the clock (`LastDayProperties.MergeSameEpoch`).

## Model

| member | source | states |
|---|---|---|
| `Clock.HourInDay` | ecstore/src/bucket/lifecycle/tier_last_day_stats.rs:46 | The hour of day of a timestamp is the hour slot inside its calendar day: it lies between 0 and 23, and `t` falls in that hour of the day that contains it. |
| `Clock.WholeHours` | ecstore/src/bucket/lifecycle/tier_last_day_stats.rs:41 | Whole hours of a duration, truncated toward zero. The count is at least one exactly when the duration is at least 3600 s, and at least 24 exactly when it is at least 86400 s. It is zero for anything strictly between minus one hour and one hour. |
| `LastDayStats.Default` | ecstore/src/bucket/lifecycle/tier_last_day_stats.rs:18-25 | A fresh ring has exactly 24 bins, all zero, stamped with the current time. |
| `LastDayStats.Target` | ecstore/src/bucket/lifecycle/tier_last_day_stats.rs:37-39 | An epoch target is replaced by the clock reading; any other target is kept. |
| `LastDayStats.ZeroArc` | ecstore/src/bucket/lifecycle/tier_last_day_stats.rs:55-58 | The wrap-around walk keeps 24 bins. It zeroes exactly the hours on the forward arc after the start hour, up to and including the end hour. Every other bin, the start bin included, keeps its value. |
| `LastDayStats.Iterations` | ecstore/src/bucket/lifecycle/tier_last_day_stats.rs:55-58 | The walk's loop runs `(idx - last_idx) mod 24` times, so at most 23 times, and runs zero times exactly when the two hours coincide. |
| `LastDayStats.IterationsClearArc` | ecstore/src/bucket/lifecycle/tier_last_day_stats.rs:55-58 | Each pass of the loop clears one new bin: the number of iterations equals the number of hours on the arc the walk clears. |
| `LastDayStats.ForwardTo` | ecstore/src/bucket/lifecycle/tier_last_day_stats.rs:36-59 | Three cases on the target, after epoch replacement. Less than one hour after `updated_at`, including any earlier time: the ring is unchanged. 24 hours or more: all 24 bins are zero and the stamp is the target. In between: the stamp is the target, and exactly the bins on the arc from the old hour (exclusive) to the new hour (inclusive) are zeroed. The replaced target is returned, and the stamp never moves backwards. |
| `LastDayStats.AddStats` | ecstore/src/bucket/lifecycle/tier_last_day_stats.rs:28-34 | In terms of the input ring: the stamp moves to the target only after one whole hour. Every bin keeps its value unless it went stale, in which case it becomes zero. The bin of the target's hour additionally has the new statistic combined in. |
| `LastDayStats.Merge` | ecstore/src/bucket/lifecycle/tier_last_day_stats.rs:61-79 | The result's stamp is the receiver's if strictly later, otherwise the argument's, after epoch replacement. Each bin is the receiver's bin combined with the argument's bin. Only the older side, or the receiver on a tie, has its stale bins replaced by zero. |
| `LastDayProperties.ForwardIdempotent` | ecstore/src/bucket/lifecycle/tier_last_day_stats.rs:36-59 | Forwarding again to the target just reached changes neither the ring nor the target. |
| `LastDayProperties.AddStatsMonotone` | ecstore/src/bucket/lifecycle/tier_last_day_stats.rs:28-48 | `add_stats` either keeps `updated_at` or moves it forward by at least one hour. |
| `LastDayProperties.AddStatsWithinHour` | ecstore/src/bucket/lifecycle/tier_last_day_stats.rs:28-44 | Less than an hour after `updated_at`, a contribution only accumulates into the bin of its own hour. Nothing is zeroed and the stamp stays. |
| `LastDayProperties.MergeAligned` | ecstore/src/bucket/lifecycle/tier_last_day_stats.rs:61-79 | For a non-epoch later stamp, merging equals forwarding both rings to the later stamp and combining bin by bin. The result carries that stamp. |
| `LastDayProperties.MergeCommutes` | ecstore/src/bucket/lifecycle/tier_last_day_stats.rs:66-76 | With a commutative combine, and unless both stamps are the epoch, swapping the two rings gives the same merged ring. |
| `LastDayProperties.MergeSameTime` | ecstore/src/bucket/lifecycle/tier_last_day_stats.rs:66-76 | Equal non-epoch stamps: no bin is zeroed, and each bin is the combination of the two inputs' bins. |
| `LastDayProperties.MergeSameEpoch` | ecstore/src/bucket/lifecycle/tier_last_day_stats.rs:36-76 | Equal epoch stamps with a clock a day or more later: the receiver is forwarded to the clock and loses every bin. The result is stamped with the clock. |
| `LastDayProperties.MergeDefaultIdentity` | ecstore/src/bucket/lifecycle/tier_last_day_stats.rs:61-79 | If zero is a right identity of the combine, merging a ring with a fresh ring of the same stamp gives back the ring. |
| `LastDayProperties.MergeFullyStale` | ecstore/src/bucket/lifecycle/tier_last_day_stats.rs:50-76 | When the argument is a day or more newer, only its bins survive, each combined with zero. |
| `LastDayProperties.ForwardThreeHours` | ecstore/src/bucket/lifecycle/tier_last_day_stats.rs:46-58 | Going from hour H to hour H+3 (mod 24) zeroes bins H+1, H+2 and H+3. Bins H and H-1 are kept, and the stamp advances. |
| `Scenarios.AddTwoHoursLater` | ecstore/src/bucket/lifecycle/tier_last_day_stats.rs:28-58 | Stamp 10:10 with 5 in bin 10, then 3 added at 12:10: bin 11 becomes 0, bin 12 becomes 3, bin 10 keeps 5, and the stamp is 12:10. |
| `Scenarios.ForwardAcrossTwoHourMarks` | ecstore/src/bucket/lifecycle/tier_last_day_stats.rs:41-58 | 10:59 to 12:30 zeroes bins 11 and 12 and nothing else. |
| `Scenarios.ForwardAlmostADay` | ecstore/src/bucket/lifecycle/tier_last_day_stats.rs:41-58 | 00:30 to 00:20 the next day zeroes nothing but moves the stamp. |
| `Scenarios.AddJustUnderAnHour` | ecstore/src/bucket/lifecycle/tier_last_day_stats.rs:28-44 | 10:30 to 11:29 leaves the ring alone, and the contribution still goes into bin 11. |
| `Scenarios.AddAtEpochUsesClock` | ecstore/src/bucket/lifecycle/tier_last_day_stats.rs:28-39 | An epoch `now` is replaced by the clock, and that clock time picks the bin and the stamp. |
| `HourBoundary.AsWrittenKeepsStaleEvent` | ecstore/src/bucket/lifecycle/tier_last_day_stats.rs:41-44 | Counterexample. The ring is well-kept and the clock does not go backwards, yet right after `add_stats` bin 12 still holds an event more than a day old. |
| `HourBoundary.AsWrittenRun` | ecstore/src/bucket/lifecycle/tier_last_day_stats.rs:28-58 | The same stale state reached from a fresh ring through `add_stats` alone: events yesterday 12:15, today 11:40 and today 12:20 leave yesterday's event in bin 12. An event at 13:30 then clears bin 12 and drops the 12:20 event after 70 minutes. |
| `HourBoundary.ForwardToHourly` | ecstore/src/bucket/lifecycle/tier_last_day_stats.rs:36-59 | Corrected forward that counts hour boundaries crossed. Zero boundaries: unchanged. 24 or more: all zero. Otherwise: exactly the arc is zeroed. |
| `HourBoundary.AddStatsHourly` | ecstore/src/bucket/lifecycle/tier_last_day_stats.rs:28-34 | Corrected `add_stats`, in terms of the input ring. The stamp moves to the target only once an hour boundary has been crossed. Every bin keeps its value unless the boundaries crossed make it stale, in which case it becomes zero. The bin of the target's hour additionally has the new statistic combined in. |
| `HourBoundary.HourlyForwardKeepsLastDay` | ecstore/src/bucket/lifecycle/tier_last_day_stats.rs:41-58 | Corrected forward to a time not before the stamp keeps every event in its own hour's bin, within the last 24 calendar hours. |
| `HourBoundary.HourlyAddStatsKeepsLastDay` | ecstore/src/bucket/lifecycle/tier_last_day_stats.rs:28-58 | Corrected `add_stats` keeps the ring well-kept and files the new event in its own hour's bin. Every event is then within the 24 calendar hours ending at the current hour. |
| `HourBoundary.HourlyAddStatsRetains` | ecstore/src/bucket/lifecycle/tier_last_day_stats.rs:41-58 | Corrected `add_stats` keeps every event that is still within the 24 calendar hours ending at the current hour, in the same bin. Together with `HourlyAddStatsKeepsLastDay`: after the call a bin holds an earlier event exactly when that event is recent. |

## Findings

| source | as written | input that shows it | evidently intended | confidence | as-written member | corrected member |
|---|---|---|---|---|---|---|
| ecstore/src/bucket/lifecycle/tier_last_day_stats.rs:41-44 | Staleness is decided by the elapsed *whole hours* since `updated_at`. A call in the next hour of day, but less than 60 minutes later, clears nothing. | Yesterday at 12:15 an event is recorded into bin 12. The ring is then advanced to 11:40 today. A new event at 12:20 today is combined into bin 12, which still holds yesterday's 12:15 event, 24 h 05 min old. The same test also clears too early: a further event at 13:30 walks from hour 11, because the stamp stayed at 11:40, and clears bin 12, dropping the 12:20 event after 70 minutes. | Each bin holds only contributions from the last 24 calendar hours. Equivalently, a bin is cleared whenever an hour boundary has been crossed since `updated_at`. | medium, not executed | `HourBoundary.AsWrittenKeepsStaleEvent`, `HourBoundary.AsWrittenRun` | `HourBoundary.ForwardToHourly`, `HourBoundary.AddStatsHourly` (properties: `HourBoundary.HourlyAddStatsKeepsLastDay` drops what is stale, `HourBoundary.HourlyAddStatsRetains` keeps what is recent) |

The corrected operations sit next to the model; they do not replace it.
`ForwardTo`, `AddStats` and `Merge` stay faithful to the code as written,
because that is what the system does. The corrected operations reuse the same
epoch substitution and wrap-around walk (`ZeroArc`). Both of their thresholds
count hour boundaries crossed instead of elapsed whole hours: one boundary or
more to advance at all, 24 or more to reset every bin. The reset therefore
differs too: 00:30 to 00:20 the next day crosses 24 boundaries, so the
corrected forward clears every bin, while the code as written clears none
(`Scenarios.ForwardAlmostADay`).

## Left out

- The wall clock (`OffsetDateTime::now_utc`): its reads at lines 22, 29 and
  38 are parameters, as described above. The read by
  `LastDayTierStats::default()` inside `merge` (line 64) is not modelled. Its
  stamp and bins are overwritten before `merge` returns, so it cannot affect
  the result.
- Sub-second precision: timestamps are whole seconds, each instant rounded
  down on its own as `unix_timestamp()` does. The elapsed time that
  `whole_hours` sees at line 41 is the exact difference, so the model's
  elapsed time can differ from it by under one second either way. Example:
  stamps X + 0.6 s and X + 3600.1 s are 3599.5 s apart, so the source does
  nothing; the model sees X and X + 3600, a whole hour, and walks the arc.
  Near 3600 s and 86400 s the model can therefore clear bins where the
  source does not, or the reverse.
- The same rounding at line 66: when both stamps fall in the same whole
  second, the source takes the else branch and stamps the result with the
  argument's timestamp even if the receiver's is later by a fraction of a
  second. The model cannot see that fraction: with equal whole-second stamps
  the two timestamps are equal, so either choice gives the same stamp.
- The range of `OffsetDateTime` and `i64` overflow: timestamps are unbounded
  integers, and every hour is the UTC hour. The source only ever stores
  `now_utc()` values or values derived from them.
- The fields and the `add` of `TierStats` (defined in
  `crate::heal::data_usage_cache`, not part of this model): the statistic is
  opaque, with its zero and combine passed in. `HourBoundary` instantiates
  it as multisets of event timestamps.
- The unused `sha2`/`tracing` imports and the empty test module (lines 1, 6,
  82-83).
- Synchronisation of the tier registry: the file has none.
