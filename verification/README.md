# Verified model of the measurement pipeline of zmq-arena

zmq-arena measures ZeroMQ libraries. An orchestrator runs every cell of a matrix
several times, decides per cell when the replicates agree, reduces them to one
robust record, and a render step archives the records for a dashboard that ranks
the libraries against libzmq. This project models that path in Dafny and proves
what each stage promises, over every input, every run and every pattern of
failures:

- the robust statistics (`Sorting`, `Quantiles`, `Stats`) and what "resists
  outliers" means for them (`Robustness`, `FilterBounds`, `StableVerdict`,
  `Equivariance`);
- the interleaved adaptive replication loop (`ReplicationLoop`), the aggregation
  of a cell (`Records`, `Aggregation`, `AggregateMeaning`,
  `OrderInvariance`), the CPU and memory attribution (`Usage`),
  the names of the record files (`CellIds`), and all of them together
  (`Pipeline`);
- the target wrappers' percentile printers and receive loops (`LatencyRanks`,
  `Receive`);
- the render step and the dashboard: payload-sweep inversions (`Inversions`),
  build identities, archive and manifest (`BuildIds`, `ArchiveRecords`, `Archive`,
  `Manifest`), and the ratio-to-baseline ranking (`Ranking`,
  `TallyMeaning`, `RankingOrder`).

`dafny verify dfyconfig.toml` checks the whole project.

## How the model reads

Code that changes things step by step is imperative here too: `CellAcc` is a
class whose fields the loop updates, the sorts work in place on arrays, the
receive loops run against a connection object, the manifest is an object that is
rewritten. Each such method is proved equal to a function of its inputs or of the
old state, and the theorems are about that function.

`f64` is `real`: there is no rounding and no NaN. Rounding to `u64` is half away
from zero with the saturating cast. What the environment decides is a parameter:
`oracle(cell, attempt)` is the outcome of a replicate, a `Poll` is what one pass
over `/proc` read, `misses` says which non-blocking receives come back empty.

The functions that the methods refine are in turn pinned down without naming them,
in the fields, counts and constants of the source: the median by counting
(`Quantiles.MedianIsMiddle`), the mask and the verdict (`StableVerdict`), every field
of the aggregate (`AggregateMeaning`), the stop of a configured run
(`ReplicationLoop.ConfiguredStop`), the inversion verdict
(`Inversions.VerdictInFields`), the tally (`TallyMeaning`), and what a loaded archive
shows of a cell (`Archive.LoadedStores`, `Archive.LoadedClassifies`).

Three proof devices carry most of the weight. Order statistics are handled by
counting: the i-th smallest sample is at most t exactly when more than i samples
are (`Sorting.RankAtMost`). The replication loop is proved against each cell's own
sequential loop (`Alone`), which in turn equals the first stable prefix of the
cell's outcomes (`AloneIsPrefix`). The ranking accumulates over a set in any
order, which `Ranking.FoldAny` justifies; geometric means are compared without
roots, by raising products to a common power (`RankingOrder.AheadIsGeomean`).

## Where the code and its documentation disagree

The model follows the code. In each case the exact condition is proved.

- orchestrator/src/main.rs:599-600 says that a non-empty cell always keeps a
  replicate, arguing from fewer than three points or a zero deviation. For n
  replicates that holds if and only if n < 3, or n is odd and `mad_k >= 0`, or
  `mad_k * 1.4826 >= 1` (`Aggregation.AggregationSafeAtIff`); over all n only the
  last remains (`Aggregation.AggregationSafeIff`). The default 3.0 satisfies it.
- orchestrator/src/stats.rs:8-9 says spiked replicates are rejected. A far spike
  is kept when there are fewer than three samples or when one value is shared by a
  strict majority, and rejected in every other case (`Robustness.SpikeRejectedIff`).
- scripts/render_results.py:216-218 says the two CPU halves always sum to the
  total. That holds per replicate when anything was sampled or the total is zero
  (`Usage.SplitSums`). Of an aggregated record it is sure if and only if the cell
  has at most two replicates (`Aggregation.MedianSplitAddsUpIff`); from three on
  there is such a cell, with equal rates throughout, that loses the sum.
- orchestrator/src/stats.rs:173-180 calls a cell stable only if its surviving spread
  is tight. A zero median makes the relative spread zero, so a cell most of whose
  replicates moved nothing is stable with any spread. The verdict bounds the spread
  by the target's share of the median if and only if the median is not zero or
  there is no spread (`StableVerdict.StableIsTightIff`).
- scripts/render_results.py:299-309 flags a cell beaten by a larger payload and
  exempts no rate. The code exempts rates that are not positive, and compares with
  every later cell of the sorted sweep, so an equal payload counts too. For a margin
  above -1 the two agree at all positive rates if and only if no sweep holds a
  payload twice (`Inversions.FollowsAtPositiveRatesIff`), and at all rates a wrapper
  can report, zero included, if and only if no sweep holds two cells
  (`Inversions.FollowsDocumentationIff`; both cover the other margins as well). On
  distinct payloads they differ exactly when a cell received nothing and a larger
  payload of its sweep something (`Inversions.StalledCellIff`).
- docs/rankings.html:179-186 and scripts/render_results.py:150-157 take a data path
  as not measured when none of its counters moved. The rates are rounded to three
  digits, so the page also hides a captured cell, exactly when every data-path call
  was made at most once in two million messages
  (`ArchiveRecords.CapturedButHiddenIff`).
- docs/rankings.html:241-244 says noise cannot decide the order. The tie protects the
  comparison with libzmq (`RankingOrder.TiedIsLevel`). In one cell two other libraries
  count alike if and only if both are tied with libzmq or neither is and their
  scores are equal (`RankingOrder.SameRatioIff`), so their noise can rank them
  (`RankingOrder.NoiseRanksRivals`).
- targets/monocoque_target/src/main.rs:300-302 says the clock starts once the
  warmup prefix has drained. With no warmup it starts only after the first
  message, which is nevertheless counted. The messages timed are those reported, on
  every connection, if and only if `warmup > 0` or `messages == 0`
  (`Receive.TimedWindowAlwaysReportedIff`).
- scripts/render_results.py:66-68 says the id changes whenever a version does. For
  one variant and engine, `BuildIds.IdSharedIff` lists all exceptions: a library
  version without a binding against a binding version without a library, equal to
  it; a single version that reads like the joined versions of a binding; no
  version against the version `unknown`; and two bindings whose versions, followed
  by `+engine-`, continue one another (`BuildIds.BindingsCollideIff`).

## Model

| member | source | states |
|---|---|---|
| Sorting.SortInPlace | orchestrator/src/stats.rs:24-25 | sorting in place leaves the array equal to the stable sort of its old contents |
| Sorting.RankAtMost | orchestrator/src/stats.rs:24-33 | the i-th element of the sorted sequence is at most t exactly when more than i elements are at most t |
| Quantiles.ComputeQuantile | orchestrator/src/stats.rs:20-34 | copy, in-place sort, index and interpolate yields the type-7 quantile, 0 for no data, all indices in range |
| Quantiles.ComputeMedian | orchestrator/src/stats.rs:37-39 | the 0.5 quantile computed by the code is the mean of the two middle order statistics |
| Quantiles.MedianIsHalfQuantile | orchestrator/src/stats.rs:36-39 | the 0.5 quantile is the mean of the two middle order statistics for every length, odd or even |
| Quantiles.MedianIsMiddle | orchestrator/src/stats.rs:36-39 | a value is the median exactly when it is the mean of two values found by counting: more than i samples at most, and at most i below, for the two middle positions i |
| Quantiles.QuantileBetweenKnots | orchestrator/src/stats.rs:17-34 | definition 7: at q = (k+f)/(n-1) the quantile is the weighted mean (1-f)*v[k] + f*v[k+1] of neighbouring order statistics |
| Quantiles.QuantileMonotone | orchestrator/src/stats.rs:29-33 | the quantile is monotone in q, within and across interpolation segments, clamping included |
| Quantiles.QuantileInRange | orchestrator/src/stats.rs:20-34 | every quantile lies in every interval holding all the samples |
| Quantiles.QuantilePermutation | orchestrator/src/stats.rs:20-34 | the quantile does not depend on the order of the samples |
| Quantiles.MedianMonotone | orchestrator/src/stats.rs:37-39 | raising samples pointwise never lowers the median |
| Quantiles.QuantileAffine | orchestrator/src/stats.rs:20-34 | quantile(a*x+b, q) is a*quantile(x, q)+b, with 1-q for negative a, exactly when there is a sample or b is 0 |
| Quantiles.MedianAffine | orchestrator/src/stats.rs:37-39 | the median of a non-empty sample commutes with every affine map with a non-zero factor |
| Quantiles.IqrNonNegative | orchestrator/src/stats.rs:54-56 | the interquartile range is never negative |
| Stats.HampelPartition | orchestrator/src/stats.rs:97-109 | one pass pushing into two vectors yields the samples the mask keeps and those it drops, in input order |
| Stats.Split | orchestrator/src/stats.rs:99-108 | the loop's two vectors are the selections of any mask and of its complement |
| Stats.SelectPartitions | orchestrator/src/stats.rs:95-109 | kept and dropped together are the samples, as a multiset: nothing is lost, duplicated or altered |
| Stats.SelectInOrder | orchestrator/src/stats.rs:95-109 | the selection is the samples at the selected positions, in ascending order |
| Stats.SummaryOrdered | orchestrator/src/stats.rs:148-186 | kept and dropped add up to the replicates, spreads are non-negative, and min <= median <= max whenever anything was kept |
| StableVerdict.MaskIff | orchestrator/src/stats.rs:44-93 | with m the middle sample and d the middle distance from it, both by counting: a sample is kept exactly when n < 3, or d is 0, or it is within k*1.4826*d of m |
| StableVerdict.SummaryCounts | orchestrator/src/stats.rs:162-184 | survivors, replicates, rejections and samples are counted as named; min and max are attained extremes of the survivors; without survivors every figure is zero |
| StableVerdict.SummaryCentre | orchestrator/src/stats.rs:149-168 | the median is the middle survivor, mad is 1.4826 times the middle distance from it, iqr the difference of the quartiles |
| StableVerdict.SummaryRelative | orchestrator/src/stats.rs:152-156 | the relative spread times the median's magnitude is the spread, and zero when the median is zero |
| StableVerdict.VerdictIff | orchestrator/src/stats.rs:173-183 | a summary is stable exactly when at least 3 survive, the relative spread is within the target, and the rejected are at most the permitted share of the replicates |
| Robustness.MedianBreakdown | orchestrator/src/stats.rs:3-6 | if a strict majority of the samples lies in [a, b], so does the median, whatever the rest are |
| Robustness.CleanMajorityBoundsMedian | orchestrator/src/stats.rs:3-6 | the same with the clean samples given by position |
| Robustness.BreakdownIsSharp | orchestrator/src/stats.rs:3-6 | exactly one half clean is not enough: the median can exceed any bound |
| Robustness.DeviationBreakdown | orchestrator/src/stats.rs:44-51 | a strict majority within [a, b] keeps the median absolute deviation within [0, b-a] |
| Robustness.MadZeroIffMajorityTied | orchestrator/src/stats.rs:44-51 | the scaled deviation is zero exactly when a strict majority of the samples share one value |
| Robustness.SpikeRejectedIff | orchestrator/src/stats.rs:74-93 | a sample farther than k*1.4826*(b-a) outside an interval with a strict majority is rejected, exactly when n >= 3 and no value has a strict majority |
| Robustness.SpikeSurvivesTiedMajority | orchestrator/src/stats.rs:74-93 | concrete case: four equal samples and a spike, and the spike is kept |
| Robustness.FilterKeepsHalf | orchestrator/src/stats.rs:83-93 | with k*1.4826 >= 1 at least half of the samples (rounded up) survive |
| Robustness.TinyKDropsEverything | orchestrator/src/stats.rs:83-93 | with k*1.4826 < 1 p >= 2 zeros and p twos lose every element |
| Robustness.FilterSafeIff | orchestrator/src/main.rs:592-601 | the filter keeps something of every non-empty sample, and at least half of every sample, if and only if k*1.4826 >= 1 |
| FilterBounds.FilterKeepsSomeIff | orchestrator/src/stats.rs:83-93 | for each number n of samples: something always survives if and only if n < 3, or n is odd and k >= 0, or k*1.4826 >= 1 |
| FilterBounds.FilteredMedianBreakdown | orchestrator/src/stats.rs:148-150 | with a strict majority in [a, b] the median of the survivors is within (b-a)/(k*1.4826) of [a, b] when k*1.4826 >= 1, and within k*1.4826*(b-a) below, however far the others lie |
| FilterBounds.FilterMarginIsSharp | orchestrator/src/stats.rs:83-93 | for every k with k*1.4826 >= 1, every odd n >= 5 and every excess below width/(k*1.4826), some samples reach that excess, so the margin is the least possible |
| FilterBounds.SmallMarginAttained | orchestrator/src/stats.rs:83-93 | for every k with 0 < k*1.4826 < 1 and every odd n >= 7 some samples reach the margin k*1.4826*width itself |
| StableVerdict.StableIsTightIff | orchestrator/src/stats.rs:152-183 | of every stable summary: the spread is at most the target's share of the median if and only if the median is not zero or the spread is |
| StableVerdict.ZeroMedianHidesSpread | orchestrator/src/stats.rs:152-183 | under every policy with non-negative target and fraction, five replicates are called stable with a spread beyond any bound |
| Equivariance.MaskAffine | orchestrator/src/stats.rs:83-93 | the Hampel mask is unchanged by every affine map with a non-zero factor |
| Equivariance.PartitionAffine | orchestrator/src/stats.rs:97-109 | kept and dropped samples are carried along by the map, in order |
| Equivariance.IqrScaled | orchestrator/src/stats.rs:54-56 | rescaling by a scales the interquartile range by abs(a), reflections included |
| Equivariance.StabilityScaleInvariant | orchestrator/src/stats.rs:148-186 | counts, relative spread and the stable verdict do not depend on the unit of the samples |
| Equivariance.SummaryOrderInvariant | orchestrator/src/stats.rs:148-186 | reordering the replicates changes nothing of the summary but the recorded sample list |
| OrderInvariance.AggregateOrderInvariant | orchestrator/src/main.rs:585-642 | reordering the replicates leaves the cell aggregated or not and every measured field of the aggregate as it was; of the stability block only the sample list changes |
| AggregateMeaning.AggregateMeans | orchestrator/src/main.rs:592-642 | every measured field of the aggregate is the middle value, by counting, of that same field over the survivors (rounded for counters), and run id, cell id and entry are those of the first survivor |
| AggregateMeaning.AggregateStability | orchestrator/src/main.rs:586-601 | there is an aggregate exactly when some replicate survives, and it carries the summary of all primary metrics |
| Aggregation.AggregationSafeAtIff | orchestrator/src/main.rs:592-601 | for every kind of cell and every n, `kept[0]` exists for all lists of n replicates if and only if n < 3, or n is odd and mad_k >= 0, or mad_k*1.4826 >= 1 |
| Aggregation.AggregationSafeIff | orchestrator/src/main.rs:592-601 | for every kind of cell, `kept[0]` exists for all non-empty lists of replicates if and only if mad_k*1.4826 >= 1 |
| Aggregation.RoundNearest | orchestrator/src/main.rs:571-574 | the reported integer is within one half of the median, when that fits a u64 |
| Aggregation.AggregationKeepsPercentileOrder | orchestrator/src/main.rs:571-611 | if every replicate has min <= p50 <= p90 <= p99 <= p999 <= max, so does the aggregated record |
| Aggregation.AggregationStaysWithin | orchestrator/src/main.rs:603-641 | every measured field of the aggregate stays within whatever bounds hold that same field of the replicates |
| Aggregation.HeadlineIsStabilityMedian | orchestrator/src/main.rs:563-615 | the reported rate, or the p50, is the stability block's median, or its rounding |
| Aggregation.HeadlineResistsOutliers | orchestrator/src/main.rs:585-615 | with a strict majority of the primary metrics in [a, b] the reported rate is within the filter's margin of [a, b] ((b-a)/(mad_k*1.4826) from 1 on), and the p50 within the rounded bounds |
| Aggregation.AggregationKeepsMbps | orchestrator/src/main.rs:1264-1265 | mbps = msgs/s * payload / 10^6 survives aggregation, though both sides are medians taken separately |
| Aggregation.AggregationKeepsCpuBounds | orchestrator/src/main.rs:635-637 | each end's aggregated CPU time stays between zero and the aggregated total |
| Aggregation.MedianSplitAddsUpIff | scripts/render_results.py:216-220 | for every kind, policy and n: the aggregated CPU halves of all lists of n replicates whose halves add up do so too, if and only if n <= 2 |
| Aggregation.SplitLost | orchestrator/src/main.rs:635-637 | for every n >= 3, n replicates with equal primary metrics and exact halves whose aggregate's halves do not add up |
| ReplicationLoop.CellAcc.constructor | orchestrator/src/main.rs:365-377 | a cell starts with no records, no failures, not done |
| ReplicationLoop.CellAcc.Attempt | orchestrator/src/main.rs:409-435 | the whole new state of a cell after one success or failure and the convergence check |
| ReplicationLoop.Visit | orchestrator/src/main.rs:405-436 | visiting a cell, done or not, advances its own sequential loop by one step and no other cell's |
| ReplicationLoop.Round | orchestrator/src/main.rs:405-436 | one pass advances every cell's own loop by one round; after each visit unfinished cells are within one attempt of each other |
| ReplicationLoop.MeasureAll | orchestrator/src/main.rs:365-437 | for every gate and oracle, the interleaved loop leaves every cell as its own loop run alone for all rounds; the states after every visit of every round are those of the sequential loops and fair; rounds go on exactly while some cell is unfinished, up to the ceiling |
| ReplicationLoop.Run | orchestrator/src/main.rs:389-437 | the same with the stability verdict as the gate; every cell holds the outcomes of its first n attempts, n being the ceiling or the first number at which at least min_replicates succeeded with a stable summary |
| ReplicationLoop.ConfiguredStop | orchestrator/src/main.rs:419-435 | the stop in the configuration's own terms: below the ceiling there are at least min_replicates records and a stable summary, and no shorter prefix has both |
| ReplicationLoop.OtherCellsDoNotMatter | orchestrator/src/main.rs:389-394 | two oracles agreeing on one cell leave it in the same state after every round, whatever they do to the others |
| ReplicationLoop.AloneIsPrefix | orchestrator/src/main.rs:409-435 | a cell holds exactly the outcomes of its first min(rounds, stop) attempts, and is done once it reached its stop |
| ReplicationLoop.StopIsFirst | orchestrator/src/main.rs:419-435 | below the ceiling the stop is a stable prefix, and no shorter prefix is one |
| ReplicationLoop.AloneInvariant | orchestrator/src/main.rs:226-237 | metrics stay aligned with records; successes plus failures never exceed the rounds and equal them while unfinished |
| ReplicationLoop.DoneIsFinal | orchestrator/src/main.rs:405-408 | a finished cell never changes again |
| ReplicationLoop.AllDoneIsFinal | orchestrator/src/main.rs:396-399 | breaking out once no cell is active loses nothing of the remaining rounds |
| ReplicationLoop.SnapshotFair | orchestrator/src/main.rs:389-408 | at every moment two unfinished cells differ by at most one attempt |
| ReplicationLoop.EarlyStopExact | orchestrator/src/main.rs:405-436 | a cell stops before the ceiling if and only if a shorter prefix is stable, then after the first such one, whose last attempt succeeded |
| ReplicationLoop.EarlyStopIsWrittenStable | orchestrator/src/main.rs:405-449 | a cell that stopped early is written, and written as stable; one written as unstable used every attempt |
| ReplicationLoop.FixedCountIsExact | orchestrator/src/main.rs:259-270 | `--replicates n` attempts every cell exactly max(n, 1) times whatever the gate says |
| ReplicationLoop.FixedPolicy | orchestrator/src/main.rs:259-270 | the forced policy changes the two counts and the warmup and keeps the configured gate |
| Pipeline.RecordsAreOutcomes | orchestrator/src/main.rs:409-413 | every accumulated record is the outcome of one of the cell's attempts |
| Pipeline.WrittenPercentilesOrdered | orchestrator/src/main.rs:441-449 | if the outcomes come from the percentile printers, every written record has its percentiles in order |
| Pipeline.WrittenHeadlineResistsOutliers | orchestrator/src/main.rs:441-449 | with mad_k*1.4826 >= 1 a cell with a majority of clean replicates is written, with a rate (or rounded p50) within (b-a)/(mad_k*1.4826) of the clean interval |
| Pipeline.DirtyCellNeverTrusted | orchestrator/src/stats.rs:173-183 | a cell with more than the permitted share rejected uses every attempt, and if written is written as unstable |
| Usage.SplitSums | orchestrator/src/main.rs:549-556 | with non-negative readings both parts lie in [0, total] and add up to the total exactly when something was sampled or the total is zero |
| Usage.SplitKeepsRatio | orchestrator/src/main.rs:541-556 | the parts are in the sampled ratio |
| Usage.FoldPoll | orchestrator/src/main.rs:859-868 | one pass over the processes raises both arrays of maxima in place to those over one more poll |
| Usage.WaitUntilPeak | orchestrator/src/main.rs:846-882 | the loop ends at the first poll at which the child is not running, and reports the maxima over the polls up to there |
| Usage.PeakIsMaximum | orchestrator/src/main.rs:860-862 | a process's peak is at least each of its readings and is one of them, or zero |
| Usage.PeakCpuIsMaximum | orchestrator/src/main.rs:865-867 | the same for its CPU time |
| Usage.ReportedMemoryCoversEveryPoll | orchestrator/src/main.rs:842-856 | the sum of per-process maxima is at least the sum seen at any single poll |
| Usage.AttributionBounded | orchestrator/src/main.rs:549-556 | whatever the polls read, the attribution of a non-negative total is within it, and exact when anything was sampled |
| Usage.UsageMeans | orchestrator/src/main.rs:852-857 | the reported memory is the sum of every process's largest reading; the measured CPU time is the first process's, the others' that of the rest |
| CellIds.PaddedValue | orchestrator/src/main.rs:205-216 | the zero-padded index consists of digits and denotes the index |
| CellIds.IndexDecodes | orchestrator/src/main.rs:205-216 | the number after the last dash of an id is the entry's position |
| CellIds.IdReads | orchestrator/src/main.rs:205-216 | the id is target, transport, kind, payload, peers (0 when none) and position of at least three digits, in this order, in lower case and decimal notation |
| CellIds.CellIdsDistinct | orchestrator/src/main.rs:451 | entries at different positions never share an id or a record file |
| CellIds.VariantsToldApartByIndex | orchestrator/src/main.rs:205-216 | entries differing only in variant share an id exactly when they share the position |
| LatencyRanks.PrintLatency | targets/rust_zmq_target/src/main.rs:244-264 | sorts its slice in place and prints the figures at the Rust ranks of the sorted times, zeros when empty |
| LatencyRanks.RunLatency | targets/libzmq_cpp_target/src/main.cpp:137-158 | one time per measured round trip is collected, and the figures at the libzmq ranks are printed, zeros when there is none |
| LatencyRanks.RanksAdjacent | targets/libzmq_cpp_target/src/main.cpp:151-154 | floor(p(n-1)) <= floor(np) <= floor(p(n-1))+1 <= n, and the Rust cap never binds below p = 1 |
| LatencyRanks.CppReportsSameOrPredecessor | targets/libzmq_cpp_target/src/main.cpp:151-157 | on the same times libzmq reports the same or the next lower order statistic, never a higher value |
| LatencyRanks.SnapshotsOrdered | targets/rust_zmq_target/src/main.rs:249-263 | both printers report min <= p50 <= p90 <= p99 <= p999 <= max |
| LatencyRanks.RustPercentileIsLeast | targets/rust_zmq_target/src/main.rs:250-253 | the Rust percentile is the least time that strictly more than p*n of the times do not exceed |
| LatencyRanks.CppPercentileIsLeast | targets/libzmq_cpp_target/src/main.cpp:151-154 | the libzmq percentile is the least time that strictly more than p*(n-1) of the times do not exceed |
| LatencyRanks.RustSnapshotMeans | targets/rust_zmq_target/src/main.rs:254-263 | the count and all six figures of the Rust line, each by how many times it covers |
| LatencyRanks.CppSnapshotMeans | targets/libzmq_cpp_target/src/main.cpp:155-157 | the count and all six figures of the libzmq line, each by how many times it covers |
| LatencyRanks.NoRoundTrips | targets/rust_zmq_target/src/main.rs:245-248 | without a round trip both lines hold seven zeros |
| Receive.RecvMeasured | targets/monocoque_target/src/main.rs:303-335 | for any number of messages and any pattern of empty polls: consumes min(N, warmup+messages), reports that minus warmup (not below 0), starts the clock at message max(1, warmup) |
| Receive.PullTwoLoops | targets/rust_zmq_target/src/main.rs:165-184 | the two plain loops consume and report the same amounts, with the clock started after the warmup prefix |
| Receive.PullLibzmq | targets/libzmq_cpp_target/src/main.cpp:263-273 | aborts without a line when the connection closes during warmup, otherwise reports min(N-warmup, messages) |
| Receive.DrainRefinesTwoLoops | targets/monocoque_target/src/main.rs:311-330 | run on equal connections the nested drain and the plain loops report the same count |
| Receive.LibzmqAgreesIff | targets/libzmq_cpp_target/src/main.cpp:264-273 | libzmq prints that same count exactly when the warmup prefix arrives in full |
| Receive.TimedWindowIsReportedIff | targets/monocoque_target/src/main.rs:300-332 | the messages timed are the messages reported if and only if there is a warmup, or no block was asked for, or nothing arrives |
| Receive.TimedWindowAlwaysReportedIff | targets/monocoque_target/src/main.rs:300-332 | they are on every connection if and only if warmup > 0 or messages is 0 |
| Receive.PlainWindowIsReported | targets/rust_zmq_target/src/main.rs:166-184 | the plain loops time exactly what they report, always |
| Inversions.Group | scripts/render_results.py:311-319 | the dict maps every key to exactly the swept records of that sweep, in input order |
| Inversions.FlagInversions | scripts/render_results.py:296-327 | for every margin leaves every record as it was but for its flag, which is the verdict in the records' own build, kind, transport, peers, payload and rate |
| Inversions.SameSweepIff | scripts/render_results.py:313-319 | two records share a sweep exactly when both carry a rate of one of the four kinds and agree in build, kind, transport and peers |
| Inversions.VerdictInFields | scripts/render_results.py:312-327 | the specification of the flags, stated in those fields |
| Inversions.SortInSweepOrder | scripts/render_results.py:321 | the stable sort orders a sweep by payload and equal payloads by input position, losing none |
| Inversions.FlagAtPosition | scripts/render_results.py:323-327 | comparing with the later positions of the sorted sweep is comparing with the records that follow in payload order |
| Inversions.DistinctMeansDocumented | scripts/render_results.py:299-309 | with distinct payloads and a margin of at least -1 a record is flagged exactly when its rate is positive and the documentation flags it |
| Inversions.StalledCellIff | scripts/render_results.py:299-326 | on distinct payloads and non-negative rates code and documentation agree if and only if no cell has rate zero with a positive rate at a larger payload of its sweep |
| Inversions.ZeroRateMissed | scripts/render_results.py:326 | any sweep with two payloads has rates at which the smaller, at zero, is beaten and not flagged |
| Inversions.TiedPayloadMisflags | scripts/render_results.py:321-327 | any sweep holding a payload twice has rates at which the code and the documented rule differ |
| Inversions.NegativeThresholdMisflags | scripts/render_results.py:325-327 | any sweep, with a margin below -1, has rates at which its last cell is flagged though nothing beats it |
| Inversions.FollowsAtPositiveRatesIff | scripts/render_results.py:299-327 | at all positive rates the code follows the documented rule if and only if no sweep holds a payload twice (margin above -1), no tie is at the top of a sweep (margin -1), nothing is swept (below) |
| Inversions.FollowsDocumentationIff | scripts/render_results.py:299-327 | at all non-negative rates the code follows the documented rule if and only if no sweep holds two records, or for a margin below -1 none |
| Inversions.FlagDependsOnSweepOnly | scripts/render_results.py:315-319 | with distinct payloads a flag depends neither on input order nor on any other sweep |
| Inversions.TopRateNeverFlagged | scripts/render_results.py:325-327 | a record with the highest rate of its sweep is never flagged |
| Inversions.SecondPassChangesNothing | scripts/render_results.py:296-327 | the detector is idempotent |
| BuildIds.BindingIdInjective | scripts/render_results.py:61-81 | for one variant and engine, ids of bindings whose version has no plus sign determine both versions |
| BuildIds.IdSharedIff | scripts/render_results.py:61-81 | for one variant and engine and any versions, missing ones included: two ids are equal if and only if the known versions are the same or one of the listed confusions applies |
| BuildIds.BindingsCollideIff | scripts/render_results.py:61-81 | for every engine, two distinct binding versions can share an id exactly when one followed by `+engine-` begins the other so followed |
| BuildIds.PlainEngineOverlap | scripts/render_results.py:79-80 | for an engine name without a plus sign that means that one continues the other with `+engine-` |
| BuildIds.EngineVersionSeparates | scripts/render_results.py:73-80 | different engine versions under one binding get different ids; without an engine version the id is the binding's alone |
| BuildIds.DocumentedIds | scripts/render_results.py:61-81 | the identities the documentation gives as examples, and those of a binding alone and of no version |
| BuildIds.VariantKeyMeans | scripts/render_results.py:51-54 | the default keeps the target's name, three variants have names of their own, every other is appended |
| BuildIds.ShapeMeans | scripts/render_results.py:92-105 | variant, engine, io, threading and language: reported unless missing or empty, then the registry, then the defaults |
| BuildIds.StackMeans | scripts/render_results.py:97-112 | versions, library language, implementation, ffi target and concurrency as reported, with their defaults when absent |
| BuildIds.IdMatchesClassification | scripts/render_results.py:93-100 | the id is built from the variant key and from the classified engine and versions |
| Archive.Render | scripts/render_results.py:386-387 | the records list and the builds dict of an archive, from every cell as the orchestrator wrote it |
| Archive.RenderTagged | scripts/render_results.py:386-387 | building both in order yields one record per cell and the last classification per id |
| ArchiveRecords.PerKPositiveIff | scripts/render_results.py:160-166 | a rate per thousand messages survives rounding to three digits if and only if there is more than one call to two million messages |
| ArchiveRecords.PerKNearest | scripts/render_results.py:163-166 | a stored rate is within half a thousandth of the calls per thousand messages |
| ArchiveRecords.EntryStored | scripts/render_results.py:122-135 | kind, transport, payload and peers are the entry's; a latency cell stores its six times and no rate, every other its rate and no times |
| ArchiveRecords.CostStored | scripts/render_results.py:215-241 | CPU times, basis, context switches and memory are the cell's, each zero when missing |
| ArchiveRecords.SyscallsStored | scripts/render_results.py:155-166 | the five counters as measured, captured exactly when a data-path counter is not zero |
| ArchiveRecords.StabilityStored | scripts/render_results.py:168-194 | the replication block is copied with zeros for what it lacks; without one the cell is a single unstable draw; the flag starts out false |
| ArchiveRecords.BasisMeans | scripts/render_results.py:158-162 | the counted messages, or for a timed cell the rate times the duration, truncated |
| ArchiveRecords.IoMeasuredIff | docs/rankings.html:187-191 | the page takes a cell's kernel work as measured if and only if messages flowed and some data-path call was made more than once in two million of them |
| ArchiveRecords.CapturedButHiddenIff | scripts/render_results.py:150-166 | a captured cell with messages is hidden if and only if all its data-path calls are that rare |
| Archive.LoadedIoMeasuredIff | docs/rankings.html:187-191 | the same condition on the orchestrator's cell, through rendering, archive and loading |
| Archive.BuildsHoldClasses | scripts/render_results.py:387 | the builds map has exactly the ids of the cells, each with the classification of a cell with that id |
| Archive.BuildsHoldLast | scripts/render_results.py:387 | of the cells with one id the last gives the classification |
| Archive.FlattenMeans | docs/rankings.html:322-325 | a loaded record shows its own fields first, then its build's, and nothing else; one without a build is left alone |
| Archive.OldArchivesPassThrough | docs/rankings.html:317-321 | an archive without a builds map loads unchanged |
| Archive.LoadedStores | scripts/render_results.py:206-241 | on the loaded archive every cell has every stored field of the cell the orchestrator wrote |
| Archive.LoadedClassifies | docs/rankings.html:319-326 | where ids are consistent it also has its classification as its target reported it, field by field |
| Archive.CellsShaped | scripts/render_results.py:100-112 | stored classifications and measurements have disjoint keys, and neither uses the key `build` |
| Archive.EveryRecordResolves | docs/rankings.html:319-326 | every record's build id resolves, and flattening yields the resolved classification, every measurement, the reference and nothing else |
| Archive.RoundTripIff | docs/rankings.html:319-326 | every cell reads back with its own classification if and only if equal ids carry equal classifications |
| Archive.ArchiveRoundTrip | scripts/render_results.py:384-392 | the same for the archive of a run: ids resolve, and the round trip is exact if and only if ids are consistent |
| Manifest.FileNameInjective | scripts/render_results.py:341 | different dates have different archive files |
| Manifest.DictFaithful | scripts/render_results.py:367 | the dict built from the manifest has each date once, with its last entry |
| Manifest.UpsertCorrect | scripts/render_results.py:367-369 | after a render the dates are unique and ascending, the rendered date has its new entry, every other date what it had |
| Manifest.HistoryFaithful | scripts/render_results.py:358-371 | after any sequence of renders onto any directory: unique ascending dates, every rendered date listed with its file holding the last archive rendered for it, every other date as before, and every file that no render names as before |
| Manifest.HistoryDir.WriteArchive | scripts/render_results.py:330-372 | the method that writes the file and rewrites the manifest performs exactly one such render |
| Ranking.GroupCells | docs/rankings.html:246-252 | the grouped map holds, per cell and library, the last accepted record's score and spread, and nothing else |
| TallyMeaning.SlotMeans | docs/rankings.html:246-252 | a library's entry in a cell is the score and spread of its last record there that is accepted, not inverted and has a positive score |
| Ranking.FoldAny | docs/rankings.html:254-258 | accumulating over a set of cells gives the same result in every iteration order |
| Ranking.GeomeanVsBase | docs/rankings.html:245-259 | the nested loops compute, per library, the product of its ratios to libzmq over the shared cells, their number and the number of ties |
| TallyMeaning.TallyMeans | docs/rankings.html:253-260 | in scores and spreads: the shared cells, the ties (scores within both spreads, in units of libzmq's score, on a gated board only), and the product of the score quotients over the other cells |
| TallyMeaning.ProductMeans | docs/rankings.html:258-260 | the product over a set of cells is any one cell's ratio times the product over the rest, and 1 over none |
| TallyMeaning.CountBaselineCells | docs/rankings.html:263-268 | the number of cells with an accepted record of libzmq that is not inverted |
| Ranking.RankingIndependence | docs/rankings.html:241-259 | a library's result depends only on its own records and libzmq's |
| Ranking.RankingScaleInvariant | docs/rankings.html:241-259 | multiplying every score by one positive factor changes no result |
| Ranking.BaselineIsOne | docs/rankings.html:254-258 | libzmq scores exactly 1 whenever it scores at all |
| Ranking.CellCountBounded | docs/rankings.html:260-268 | no library counts more cells than libzmq has; libzmq reaches the number exactly when each of its cells holds a positive score |
| RankingOrder.AheadIsGeomean | docs/rankings.html:260-261 | comparing products raised to each other's count is comparing the geometric means |
| RankingOrder.RankBoard | docs/rankings.html:245-262 | the board lists every library with its tally exactly once, by descending geometric mean |
| RankingOrder.AheadOfBaselineIff | docs/rankings.html:260-261 | a library is level with libzmq or before it if and only if its product of ratios is at least 1 |
| RankingOrder.RatioMonotone | docs/rankings.html:255-258 | a higher score never has the lower ratio, whichever of the two are tied |
| RankingOrder.TallyMonotone | docs/rankings.html:253-260 | raising some of a library's scores never lowers its product and leaves its number of cells |
| RankingOrder.RaisingKeepsPlace | docs/rankings.html:253-261 | raising some of a library's scores leaves it level with or before every library it was level with or before |
| RankingOrder.TiedIsLevel | docs/rankings.html:241-244 | a library tied with libzmq in every shared cell has product 1 |
| RankingOrder.SameRatioIff | docs/rankings.html:255-258 | in one cell two libraries count alike if and only if both are tied with libzmq, or neither is and their scores are equal |
| RankingOrder.NoiseRanksRivals | docs/rankings.html:241-244 | for every spread w below 1, two libraries within their combined spread of each other and far from libzmq are ranked apart |

## Left out

- Floating point: rounding error, NaN ordering, infinities and overflow of `f64`; `mul_add` is exact.
- Coefficient of variation: it needs a square root, and the gate does not read it.
- Ranking.GeomeanVsBase: keeps the product of ratios and their number; the mean's logarithms and its numeric value are not modelled, its order is (`RankingOrder.RankBoard`). Libraries with equal means may stand in any order.
- Ranking: a board's acceptance and score lambdas (docs/rankings.html:175-239) are parameters, so the theorems hold for every board; the cell key is a record rather than a joined string.
- Receive: overflow of `warmup + messages`, elapsed times, and receive errors that monocoque propagates instead of ending the loop.
- Receive.PullLibzmq: the process abort is the absent result; what it prints to standard error is not modelled.
- Usage.WaitUntilPeak: the clock is the sequence of polls, which ends at the latest when the deadline has passed; killing the child, sleeping and the exit status are not modelled, nor is `u64` overflow of the sum.
- Warmup rounds of the orchestrator: their results are discarded, so they only shift the oracle.
- Process launch, network namespaces, cgroups, counters and `/proc` reads: oracle inputs.
- A record's `meta` copied from the first survivor, progress output and JSON serialisation of records.
- CellIds: `to_lowercase` outside ASCII; only the text before the index could contain such characters.
- Inversions.FlagInversions: the list of dicts is an array of values, and groups hold positions instead of references; a missing `throughput` and an empty one are the same absent rate.
- Archive.Render: the verdicts written into the records' stability blocks between building and archiving are modelled in `Inversions`, not here; a cell's blocks hold the orchestrator's types, and JSON arrays are not modelled.
- Manifest: JSON parsing is the choice between a readable list and none; the manifest's other keys are not modelled.
- Library sorts: modelled by one in-place insertion sort; stable sorting determines the result, and for equal numbers an unstable sort gives the same.
- Other target wrappers, the matrix generator, host admissibility and the rest of the dashboard.
