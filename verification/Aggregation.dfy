/**
  Merging a cell's replicates into one robust record (orchestrator/src/main.rs):
  reject outliers on the primary metric, then take field-wise medians over the
  surviving replicates.
*/
module Aggregation {
  import opened Wrappers
  import opened Sorting
  import opened Quantiles
  import opened Stats
  import opened Robustness
  import opened FilterBounds
  import opened Records

  const U64_MAX: nat := 0xFFFF_FFFF_FFFF_FFFF

  /** Rounding half away from zero followed by the saturating cast to an unsigned 64-bit integer. */
  function RoundToU64(x: real): (n: nat)
    ensures n <= U64_MAX
  {
    if x < 0.0 then 0
    else if (x + 0.5).Floor > U64_MAX then U64_MAX
    else (x + 0.5).Floor
  }

  function Field(records: seq<CellRecord>, f: CellRecord -> real): (xs: seq<real>)
    ensures |xs| == |records|
  {
    seq(|records|, i requires 0 <= i < |records| => f(records[i]))
  }

  function AsReal(f: CellRecord -> nat): CellRecord -> real { r => f(r) as real }

  function MedianF64(records: seq<CellRecord>, f: CellRecord -> real): real {
    Median(Field(records, f))
  }

  function MedianU64(records: seq<CellRecord>, f: CellRecord -> nat): (n: nat)
    ensures n <= U64_MAX
  {
    RoundToU64(Median(Field(records, AsReal(f))))
  }

  // field selectors
  function MessageCount(r: CellRecord): nat { r.latency.count }
  function MinNs(r: CellRecord): nat { r.latency.minNs }
  function MaxNs(r: CellRecord): nat { r.latency.maxNs }
  function P50(r: CellRecord): nat { r.latency.p50Ns }
  function P90(r: CellRecord): nat { r.latency.p90Ns }
  function P99(r: CellRecord): nat { r.latency.p99Ns }
  function P999(r: CellRecord): nat { r.latency.p999Ns }
  function Rate(r: CellRecord): real { r.throughput.msgsPerS }
  function Mbps(r: CellRecord): real { r.throughput.mbps }
  function Cpu(r: CellRecord): real { r.cpuSeconds }
  function CpuSender(r: CellRecord): real { r.cpuSecondsSender }
  function CpuReceiver(r: CellRecord): real { r.cpuSecondsReceiver }
  function EpollCtl(r: CellRecord): nat { r.syscalls.epollCtl }
  function EpollWait(r: CellRecord): nat { r.syscalls.epollWait }
  function SendMsg(r: CellRecord): nat { r.syscalls.sendmsg }
  function RecvMsg(r: CellRecord): nat { r.syscalls.recvmsg }
  function IoUringEnter(r: CellRecord): nat { r.syscalls.ioUringEnter }
  function Voluntary(r: CellRecord): nat { r.sched.voluntary }
  function Involuntary(r: CellRecord): nat { r.sched.involuntary }
  function PeakMemory(r: CellRecord): nat { r.peakMemoryBytes }

  /** The replicates that survive the Hampel filter on the primary metric. */
  function KeptRecords(records: seq<CellRecord>, primary: seq<real>, k: real): (kept: seq<CellRecord>)
    requires |records| == |primary|
  {
    Select(records, HampelMask(primary, k), true)
  }

  function MergeLatency(kept: seq<CellRecord>): LatencySnapshot {
    LatencySnapshot(
      MedianU64(kept, MessageCount), MedianU64(kept, MinNs), MedianU64(kept, MaxNs),
      MedianU64(kept, P50), MedianU64(kept, P90), MedianU64(kept, P99), MedianU64(kept, P999))
  }

  function MergeThroughput(kept: seq<CellRecord>): ThroughputFigures {
    ThroughputFigures(MedianF64(kept, Rate), MedianF64(kept, Mbps))
  }

  function MergeSyscalls(kept: seq<CellRecord>): SyscallCounters {
    SyscallCounters(
      MedianU64(kept, EpollCtl),
      MedianU64(kept, EpollWait),
      MedianU64(kept, SendMsg),
      MedianU64(kept, RecvMsg),
      MedianU64(kept, IoUringEnter))
  }

  function MergeSched(kept: seq<CellRecord>): SchedCounters {
    SchedCounters(
      MedianU64(kept, Voluntary),
      MedianU64(kept, Involuntary))
  }

  /** Field-wise medians of the kept records, identified like the first of them. */
  function Merge(kept: seq<CellRecord>, stability: Stability): CellRecord
    requires |kept| > 0
  {
    CellRecord(
      kept[0].runId, kept[0].cellId, kept[0].entry,
      MergeLatency(kept), MergeThroughput(kept),
      MedianF64(kept, Cpu), MedianF64(kept, CpuSender), MedianF64(kept, CpuReceiver),
      MergeSyscalls(kept), MergeSched(kept), MedianU64(kept, PeakMemory), Some(stability))
  }

  /** The aggregated record; `None` where the source indexes an empty list of survivors and panics. */
  function AggregateCell(records: seq<CellRecord>, primary: seq<real>, rep: Replication): (r: Option<CellRecord>)
    requires |records| == |primary|
  {
    var kept := KeptRecords(records, primary, rep.madK);
    if |kept| == 0 then None
    else Some(Merge(kept, Summarize(primary, rep.madK, rep.targetRelIqr, rep.maxOutlierFrac)))
  }

  // ---------- definedness ----------

  lemma KeptTogether(records: seq<CellRecord>, primary: seq<real>, k: real)
    requires |records| == |primary|
    ensures |KeptRecords(records, primary, k)| == |Kept(primary, k)|
  {
    SelectCount(records, HampelMask(primary, k));
    SelectCount(primary, HampelMask(primary, k));
  }

  /** Aggregating a cell with these records finds a representative replicate. */
  ghost predicate Aggregates(kind: Kind, rep: Replication, records: seq<CellRecord>) {
    AggregateCell(records, Primaries(kind, records), rep).Some?
  }

  lemma AggregatesWhenKept(kind: Kind, rep: Replication, records: seq<CellRecord>)
    requires |records| > 0 && KeepsSome(|records|, rep.madK)
    ensures Aggregates(kind, rep, records)
  {
    KeepsSomeOf(Primaries(kind, records), rep.madK);
    KeptTogether(records, Primaries(kind, records), rep.madK);
  }

  /**
    Aggregating every cell with `n` replicates is safe if and only if there are
    fewer than three, or their number is odd and mad_k not negative, or
    mad_k * 1.4826 is at least 1: the comment beside the indexing argues from fewer
    than three samples or a zero deviation only. `r` is any record, to vary.
  */
  lemma AggregationSafeAtIff(kind: Kind, rep: Replication, r: CellRecord, n: nat)
    ensures KeepsSome(n, rep.madK) <==>
            forall records: seq<CellRecord> | |records| == n && n > 0 :: Aggregates(kind, rep, records)
  {
    if KeepsSome(n, rep.madK) {
      forall records: seq<CellRecord> | |records| == n && n > 0 ensures Aggregates(kind, rep, records) {
        AggregatesWhenKept(kind, rep, records);
      }
    } else {
      var records := AllDroppedCell(kind, rep, r, n);
    }
  }

  /** Over all numbers of replicates: if and only if mad_k * 1.4826 is at least 1. */
  lemma AggregationSafeIff(kind: Kind, rep: Replication, r: CellRecord)
    ensures rep.madK * MAD_SCALE >= 1.0 <==>
            forall records: seq<CellRecord> | |records| > 0 :: Aggregates(kind, rep, records)
  {
    if rep.madK * MAD_SCALE >= 1.0 {
      forall records: seq<CellRecord> | |records| > 0 ensures Aggregates(kind, rep, records) {
        AggregatesWhenKept(kind, rep, records);
      }
    } else {
      var records := AllDroppedCell(kind, rep, r, 4);
    }
  }

  /** The record with the given primary metric. */
  function WithPrimary(kind: Kind, r: CellRecord, metric: nat): (r': CellRecord)
    ensures PrimaryMetric(kind, r') == metric as real
  {
    if kind.Latency? then r.(latency := r.latency.(p50Ns := metric))
    else r.(throughput := r.throughput.(msgsPerS := metric as real))
  }

  /** The small whole number that a sample is. */
  function Whole(x: real): nat { if x == 0.0 then 0 else if x == 1.0 then 1 else 2 }

  function WithPrimaries(kind: Kind, r: CellRecord, xs: seq<real>): (records: seq<CellRecord>)
    ensures |records| == |xs|
  {
    seq(|xs|, i requires 0 <= i < |xs| => WithPrimary(kind, r, Whole(xs[i])))
  }

  lemma PrimariesGiven(kind: Kind, r: CellRecord, xs: seq<real>)
    requires forall i | 0 <= i < |xs| :: xs[i] == 0.0 || xs[i] == 1.0 || xs[i] == 2.0
    ensures Primaries(kind, WithPrimaries(kind, r, xs)) == xs
  {
    var ps := Primaries(kind, WithPrimaries(kind, r, xs));
    forall i: nat | i < |xs| ensures ps[i] == xs[i] {
      assert ps[i] == PrimaryMetric(kind, WithPrimary(kind, r, Whole(xs[i])));
      assert Whole(xs[i]) as real == xs[i];
    }
  }

  /** Replicates of a cell that measure 0, 1 or 2 and are all dropped. */
  lemma AllDroppedCell(kind: Kind, rep: Replication, r: CellRecord, n: nat) returns (records: seq<CellRecord>)
    requires !KeepsSome(n, rep.madK)
    ensures |records| == n && !Aggregates(kind, rep, records)
  {
    var xs := AllDropped(n, rep.madK);
    records := WithPrimaries(kind, r, xs);
    PrimariesGiven(kind, r, xs);
    KeptTogether(records, xs, rep.madK);
  }

  lemma SelectedAmong(records: seq<CellRecord>, mask: seq<bool>)
    requires |mask| == |records|
    ensures forall r | r in Select(records, mask, true) :: r in records
  {
    var kept := Select(records, mask, true);
    forall r | r in kept ensures r in records {
      var j :| 0 <= j < |kept| && kept[j] == r;
      var i := SelectedFrom(records, mask, true, j);
    }
  }

  // ---------- order of the percentiles ----------

  lemma RoundMonotone(x: real, y: real)
    requires x <= y
    ensures RoundToU64(x) <= RoundToU64(y)
  {
  }

  lemma MedianU64Monotone(records: seq<CellRecord>, f: CellRecord -> nat, g: CellRecord -> nat)
    requires forall i | 0 <= i < |records| :: f(records[i]) <= g(records[i])
    ensures MedianU64(records, f) <= MedianU64(records, g)
  {
    MedianMonotone(Field(records, AsReal(f)), Field(records, AsReal(g)));
    RoundMonotone(Median(Field(records, AsReal(f))), Median(Field(records, AsReal(g))));
  }

  lemma MergeKeepsOrder(kept: seq<CellRecord>)
    requires forall r | r in kept :: PercentilesOrdered(r.latency)
    ensures PercentilesOrdered(MergeLatency(kept))
  {
    MedianU64Monotone(kept, MinNs, P50);
    MedianU64Monotone(kept, P50, P90);
    MedianU64Monotone(kept, P90, P99);
    MedianU64Monotone(kept, P99, P999);
    MedianU64Monotone(kept, P999, MaxNs);
  }

  /** If every replicate reports its percentiles in order, so does the aggregated record. */
  lemma AggregationKeepsPercentileOrder(records: seq<CellRecord>, primary: seq<real>, rep: Replication)
    requires |records| == |primary|
    requires forall r | r in records :: PercentilesOrdered(r.latency)
    ensures var r := AggregateCell(records, primary, rep);
            r.Some? ==> PercentilesOrdered(r.value.latency)
  {
    SelectedAmong(records, HampelMask(primary, rep.madK));
    MergeKeepsOrder(KeptRecords(records, primary, rep.madK));
  }

  // ---------- the box of the replicates ----------

  ghost predicate LatencyWithin(lo: LatencySnapshot, l: LatencySnapshot, hi: LatencySnapshot) {
    && lo.count <= l.count <= hi.count && lo.minNs <= l.minNs <= hi.minNs && lo.maxNs <= l.maxNs <= hi.maxNs
    && lo.p50Ns <= l.p50Ns <= hi.p50Ns && lo.p90Ns <= l.p90Ns <= hi.p90Ns
    && lo.p99Ns <= l.p99Ns <= hi.p99Ns && lo.p999Ns <= l.p999Ns <= hi.p999Ns
  }

  ghost predicate SyscallsWithin(lo: SyscallCounters, s: SyscallCounters, hi: SyscallCounters) {
    && lo.epollCtl <= s.epollCtl <= hi.epollCtl && lo.epollWait <= s.epollWait <= hi.epollWait
    && lo.sendmsg <= s.sendmsg <= hi.sendmsg && lo.recvmsg <= s.recvmsg <= hi.recvmsg
    && lo.ioUringEnter <= s.ioUringEnter <= hi.ioUringEnter
  }

  ghost predicate RestWithin(lo: CellRecord, r: CellRecord, hi: CellRecord) {
    && lo.throughput.msgsPerS <= r.throughput.msgsPerS <= hi.throughput.msgsPerS
    && lo.throughput.mbps <= r.throughput.mbps <= hi.throughput.mbps
    && lo.cpuSeconds <= r.cpuSeconds <= hi.cpuSeconds
    && lo.cpuSecondsSender <= r.cpuSecondsSender <= hi.cpuSecondsSender
    && lo.cpuSecondsReceiver <= r.cpuSecondsReceiver <= hi.cpuSecondsReceiver
    && lo.sched.voluntary <= r.sched.voluntary <= hi.sched.voluntary
    && lo.sched.involuntary <= r.sched.involuntary <= hi.sched.involuntary
    && lo.peakMemoryBytes <= r.peakMemoryBytes <= hi.peakMemoryBytes
  }

  /** Every measured field of `r` lies between the same field of `lo` and of `hi`. */
  ghost predicate Within(lo: CellRecord, r: CellRecord, hi: CellRecord) {
    && LatencyWithin(lo.latency, r.latency, hi.latency)
    && SyscallsWithin(lo.syscalls, r.syscalls, hi.syscalls)
    && RestWithin(lo, r, hi)
  }

  /** The counters of `r` fit an unsigned 64-bit integer. */
  ghost predicate FitsU64(r: CellRecord) {
    && r.latency.count <= U64_MAX && r.latency.minNs <= U64_MAX && r.latency.maxNs <= U64_MAX
    && r.latency.p50Ns <= U64_MAX && r.latency.p90Ns <= U64_MAX && r.latency.p99Ns <= U64_MAX
    && r.latency.p999Ns <= U64_MAX
    && r.syscalls.epollCtl <= U64_MAX && r.syscalls.epollWait <= U64_MAX && r.syscalls.sendmsg <= U64_MAX
    && r.syscalls.recvmsg <= U64_MAX && r.syscalls.ioUringEnter <= U64_MAX
    && r.sched.voluntary <= U64_MAX && r.sched.involuntary <= U64_MAX && r.peakMemoryBytes <= U64_MAX
  }

  lemma MedianU64Within(records: seq<CellRecord>, f: CellRecord -> nat, lo: nat, hi: nat)
    requires |records| > 0 && hi <= U64_MAX && forall r | r in records :: lo <= f(r) <= hi
    ensures lo <= MedianU64(records, f) <= hi
  {
    var xs := Field(records, AsReal(f));
    forall i | 0 <= i < |xs| ensures lo as real <= xs[i] <= hi as real {
      assert records[i] in records;
    }
    MedianInRange(xs, lo as real, hi as real);
    RoundWithin(Median(xs), lo, hi);
  }

  lemma RoundWithin(x: real, lo: nat, hi: nat)
    requires lo as real <= x <= hi as real && hi <= U64_MAX
    ensures lo <= RoundToU64(x) <= hi
  {
  }

  lemma MedianF64Within(records: seq<CellRecord>, f: CellRecord -> real, lo: real, hi: real)
    requires |records| > 0 && forall r | r in records :: lo <= f(r) <= hi
    ensures lo <= MedianF64(records, f) <= hi
  {
    var xs := Field(records, f);
    forall i | 0 <= i < |xs| ensures lo <= xs[i] <= hi {
      assert records[i] in records;
    }
    MedianInRange(xs, lo, hi);
  }

  lemma MergedLatencyWithin(kept: seq<CellRecord>, lo: LatencySnapshot, hi: CellRecord)
    requires |kept| > 0 && FitsU64(hi) && forall r | r in kept :: LatencyWithin(lo, r.latency, hi.latency)
    ensures LatencyWithin(lo, MergeLatency(kept), hi.latency)
  {
    var h := hi.latency;
    MedianU64Within(kept, MessageCount, lo.count, h.count);
    MedianU64Within(kept, MinNs, lo.minNs, h.minNs);
    MedianU64Within(kept, MaxNs, lo.maxNs, h.maxNs);
    MedianU64Within(kept, P50, lo.p50Ns, h.p50Ns);
    MedianU64Within(kept, P90, lo.p90Ns, h.p90Ns);
    MedianU64Within(kept, P99, lo.p99Ns, h.p99Ns);
    MedianU64Within(kept, P999, lo.p999Ns, h.p999Ns);
  }

  lemma MergedSyscallsWithin(kept: seq<CellRecord>, lo: SyscallCounters, hi: CellRecord)
    requires |kept| > 0 && FitsU64(hi) && forall r | r in kept :: SyscallsWithin(lo, r.syscalls, hi.syscalls)
    ensures SyscallsWithin(lo, MergeSyscalls(kept), hi.syscalls)
  {
    var h := hi.syscalls;
    MedianU64Within(kept, EpollCtl, lo.epollCtl, h.epollCtl);
    MedianU64Within(kept, EpollWait, lo.epollWait, h.epollWait);
    MedianU64Within(kept, SendMsg, lo.sendmsg, h.sendmsg);
    MedianU64Within(kept, RecvMsg, lo.recvmsg, h.recvmsg);
    MedianU64Within(kept, IoUringEnter, lo.ioUringEnter, h.ioUringEnter);
  }

  lemma MergedRestWithin(kept: seq<CellRecord>, stability: Stability, lo: CellRecord, hi: CellRecord)
    requires |kept| > 0 && FitsU64(hi) && forall r | r in kept :: RestWithin(lo, r, hi)
    ensures RestWithin(lo, Merge(kept, stability), hi)
  {
    MedianF64Within(kept, Rate, Rate(lo), Rate(hi));
    MedianF64Within(kept, Mbps, Mbps(lo), Mbps(hi));
    MedianF64Within(kept, Cpu, Cpu(lo), Cpu(hi));
    MedianF64Within(kept, CpuSender, CpuSender(lo), CpuSender(hi));
    MedianF64Within(kept, CpuReceiver, CpuReceiver(lo), CpuReceiver(hi));
    MedianU64Within(kept, Voluntary, Voluntary(lo), Voluntary(hi));
    MedianU64Within(kept, Involuntary, Involuntary(lo), Involuntary(hi));
    MedianU64Within(kept, PeakMemory, PeakMemory(lo), PeakMemory(hi));
  }

  /**
    Field by field, the aggregated record stays within whatever bounds hold the
    replicates; in particular identical replicates aggregate to themselves.
  */
  lemma AggregationStaysWithin(records: seq<CellRecord>, primary: seq<real>, rep: Replication, lo: CellRecord, hi: CellRecord)
    requires |records| == |primary| && FitsU64(hi) && forall r | r in records :: Within(lo, r, hi)
    ensures var r := AggregateCell(records, primary, rep);
            r.Some? ==> Within(lo, r.value, hi)
  {
    var kept := KeptRecords(records, primary, rep.madK);
    SelectedAmong(records, HampelMask(primary, rep.madK));
    if |kept| > 0 {
      var stability := Summarize(primary, rep.madK, rep.targetRelIqr, rep.maxOutlierFrac);
      MergedWithin(kept, stability, lo, hi);
    }
  }

  lemma MergedWithin(kept: seq<CellRecord>, stability: Stability, lo: CellRecord, hi: CellRecord)
    requires |kept| > 0 && FitsU64(hi) && forall r | r in kept :: Within(lo, r, hi)
    ensures Within(lo, Merge(kept, stability), hi)
  {
    MergedLatencyWithin(kept, lo.latency, hi);
    MergedSyscallsWithin(kept, lo.syscalls, hi);
    MergedRestWithin(kept, stability, lo, hi);
  }

  /** Rounding reports the nearest integer, when it fits. */
  lemma RoundNearest(x: real)
    requires 0.0 <= x <= U64_MAX as real
    ensures x - 0.5 <= RoundToU64(x) as real <= x + 0.5
  {
  }

  // ---------- the headline figure ----------

  lemma PrimariesCons(kind: Kind, r: CellRecord, rest: seq<CellRecord>)
    ensures Primaries(kind, [r] + rest) == [PrimaryMetric(kind, r)] + Primaries(kind, rest)
  {
  }

  lemma {:induction false} SelectPrimaries(kind: Kind, records: seq<CellRecord>, mask: seq<bool>)
    requires |mask| == |records|
    ensures Select(Primaries(kind, records), mask, true) == Primaries(kind, Select(records, mask, true))
  {
    if |records| > 0 {
      var r, tail := records[0], records[1..];
      SelectPrimaries(kind, tail, mask[1..]);
      assert records == [r] + tail;
      PrimariesCons(kind, r, tail);
      assert Primaries(kind, records)[1..] == Primaries(kind, tail);
      if mask[0] {
        PrimariesCons(kind, r, Select(tail, mask[1..], true));
      }
    }
  }

  /** The reported rate (or the rounded p50) is the median the stability block reports. */
  lemma HeadlineIsStabilityMedian(kind: Kind, records: seq<CellRecord>, rep: Replication)
    ensures var r := AggregateCell(records, Primaries(kind, records), rep);
            r.Some? ==>
              && r.value.stability.Some?
              && var m := r.value.stability.value.median;
                 if kind.Latency? then r.value.latency.p50Ns == RoundToU64(m) else r.value.throughput.msgsPerS == m
  {
    var primary := Primaries(kind, records);
    var kept := KeptRecords(records, primary, rep.madK);
    SelectPrimaries(kind, records, HampelMask(primary, rep.madK));
    assert Kept(primary, rep.madK) == Primaries(kind, kept);
    assert Primaries(kind, kept) == Field(kept, if kind.Latency? then AsReal(P50) else Rate);
  }

  /** The headline figure of the record lies between `lo` and `hi`, which latency rounds. */
  ghost predicate HeadlineWithin(kind: Kind, r: CellRecord, lo: real, hi: real) {
    if kind.Latency? then RoundToU64(lo) <= r.latency.p50Ns <= RoundToU64(hi)
    else lo <= r.throughput.msgsPerS <= hi
  }

  /**
    However far the other replicates lie: with a strict majority of the primary
    metrics in [a, b], the headline figure is within the filter's margin of [a, b].
  */
  lemma HeadlineResistsOutliers(kind: Kind, records: seq<CellRecord>, rep: Replication, a: real, b: real, margin: real)
    requires rep.madK >= 0.0 && IsMargin(rep.madK, b - a, margin)
    requires Majority(Primaries(kind, records), In(a, b))
    ensures var r := AggregateCell(records, Primaries(kind, records), rep);
            r.Some? ==> HeadlineWithin(kind, r.value, a - margin, b + margin)
  {
    FilteredMedianWithin(Primaries(kind, records), rep.madK, a, b, margin);
    HeadlineFollowsMedian(kind, records, rep, a - margin, b + margin);
  }

  lemma HeadlineFollowsMedian(kind: Kind, records: seq<CellRecord>, rep: Replication, lo: real, hi: real)
    requires var kept := Kept(Primaries(kind, records), rep.madK); |kept| > 0 ==> lo <= Median(kept) <= hi
    ensures var r := AggregateCell(records, Primaries(kind, records), rep);
            r.Some? ==> HeadlineWithin(kind, r.value, lo, hi)
  {
    HeadlineIsStabilityMedian(kind, records, rep);
    KeptTogether(records, Primaries(kind, records), rep.madK);
  }

  lemma FilteredMedianWithin(primary: seq<real>, k: real, a: real, b: real, margin: real)
    requires k >= 0.0 && IsMargin(k, b - a, margin) && Majority(primary, In(a, b))
    ensures |Kept(primary, k)| > 0 ==> a - margin <= Median(Kept(primary, k)) <= b + margin
  {
    if |Kept(primary, k)| > 0 {
      FilteredMedianBreakdown(primary, k, a, b, margin);
    }
  }

  // ---------- derived fields ----------

  /** The record's mbps is its rate times the payload, in megabytes. */
  ghost predicate MbpsConsistent(r: CellRecord, payload: nat) {
    Megabytes(Rate(r), Mbps(r), payload)
  }

  ghost predicate Megabytes(rate: real, mbps: real, payload: nat) {
    mbps == rate * payload as real / 1000000.0
  }

  lemma ZeroMedian(xs: seq<real>)
    requires forall i | 0 <= i < |xs| :: xs[i] == 0.0
    ensures Median(xs) == 0.0
  {
    if |xs| > 0 {
      MedianInRange(xs, 0.0, 0.0);
    }
  }

  lemma MedianOfMultiples(rates: seq<real>, mbps: seq<real>, factor: real, rate: real)
    requires |rates| == |mbps| > 0 && factor >= 0.0 && rate == Median(rates)
    requires forall i | 0 <= i < |rates| :: mbps[i] == factor * rates[i]
    ensures Median(mbps) == factor * rate
  {
    if factor == 0.0 {
      ZeroMedian(mbps);
    } else {
      forall i: nat | i < |rates| ensures mbps[i] == Affine(rates, factor, 0.0)[i] {
        AffineAt(rates, factor, 0.0, i, rates[i]);
      }
      assert mbps == Affine(rates, factor, 0.0);
      MedianAffine(rates, factor, 0.0, rate);
    }
  }

  lemma MbpsFactor(rate: real, mbps: real, payload: nat, factor: real)
    requires factor == payload as real / 1000000.0
    ensures Megabytes(rate, mbps, payload) <==> mbps == factor * rate
  {
  }

  lemma MergedMbps(kept: seq<CellRecord>, payload: nat, rate: real)
    requires |kept| > 0 && rate == MedianF64(kept, Rate)
    requires forall r | r in kept :: MbpsConsistent(r, payload)
    ensures Megabytes(rate, MedianF64(kept, Mbps), payload)
  {
    var factor := payload as real / 1000000.0;
    var rates, mbps := Field(kept, Rate), Field(kept, Mbps);
    forall i | 0 <= i < |kept| ensures mbps[i] == factor * rates[i] {
      assert MbpsConsistent(kept[i], payload);
      MbpsFactor(rates[i], mbps[i], payload, factor);
    }
    MedianOfMultiples(rates, mbps, factor, rate);
    MbpsFactor(rate, Median(mbps), payload, factor);
  }

  lemma MergedFigures(records: seq<CellRecord>, primary: seq<real>, rep: Replication)
    requires |records| == |primary| && |KeptRecords(records, primary, rep.madK)| > 0
    ensures var kept, r := KeptRecords(records, primary, rep.madK), AggregateCell(records, primary, rep);
            r.Some? && Rate(r.value) == MedianF64(kept, Rate) && Mbps(r.value) == MedianF64(kept, Mbps)
  {
  }

  /** Aggregation keeps mbps equal to msgs/s times payload over 10^6. */
  lemma AggregationKeepsMbps(records: seq<CellRecord>, primary: seq<real>, rep: Replication, payload: nat)
    requires |records| == |primary|
    requires forall r | r in records :: MbpsConsistent(r, payload)
    ensures var r := AggregateCell(records, primary, rep);
            r.Some? ==> MbpsConsistent(r.value, payload)
  {
    var kept := KeptRecords(records, primary, rep.madK);
    SelectedAmong(records, HampelMask(primary, rep.madK));
    if |kept| > 0 {
      MergedMbps(kept, payload, MedianF64(kept, Rate));
      MergedFigures(records, primary, rep);
    }
  }

  /** Each end's CPU time is between zero and the total. */
  ghost predicate CpuPartsBounded(r: CellRecord) {
    && 0.0 <= r.cpuSecondsSender <= r.cpuSeconds
    && 0.0 <= r.cpuSecondsReceiver <= r.cpuSeconds
  }

  lemma MergedCpuParts(kept: seq<CellRecord>)
    requires |kept| > 0 && forall r | r in kept :: CpuPartsBounded(r)
    ensures 0.0 <= MedianF64(kept, CpuSender) <= MedianF64(kept, Cpu)
    ensures 0.0 <= MedianF64(kept, CpuReceiver) <= MedianF64(kept, Cpu)
  {
    var totals, senders, receivers := Field(kept, Cpu), Field(kept, CpuSender), Field(kept, CpuReceiver);
    forall i | 0 <= i < |kept|
      ensures 0.0 <= senders[i] <= totals[i] && 0.0 <= receivers[i] <= totals[i]
    {
      assert CpuPartsBounded(kept[i]);
    }
    MedianMonotone(senders, totals);
    MedianMonotone(receivers, totals);
    MedianInRange(senders, 0.0, Maximum(senders));
    MedianInRange(receivers, 0.0, Maximum(receivers));
  }

  lemma AggregationKeepsCpuBounds(records: seq<CellRecord>, primary: seq<real>, rep: Replication)
    requires |records| == |primary| && forall r | r in records :: CpuPartsBounded(r)
    ensures var r := AggregateCell(records, primary, rep);
            r.Some? ==> CpuPartsBounded(r.value)
  {
    var kept := KeptRecords(records, primary, rep.madK);
    SelectedAmong(records, HampelMask(primary, rep.madK));
    if |kept| > 0 {
      MergedCpuParts(kept);
    }
  }

  // ---------- medians and sums ----------

  function Sums(xs: seq<real>, ys: seq<real>): (zs: seq<real>)
    requires |xs| == |ys|
    ensures |zs| == |xs|
  {
    seq(|xs|, i requires 0 <= i < |xs| => xs[i] + ys[i])
  }

  ghost predicate NonNegative(xs: seq<real>) { forall i | 0 <= i < |xs| :: xs[i] >= 0.0 }

  /** The medians of two aligned columns add up to the median of their row sums. */
  ghost predicate MediansAdd(xs: seq<real>, ys: seq<real>)
    requires |xs| == |ys|
  {
    Median(xs) + Median(ys) == Median(Sums(xs, ys))
  }

  lemma MedianOfOne(xs: seq<real>)
    requires |xs| == 1
    ensures Median(xs) == xs[0]
  {
    MedianInRange(xs, xs[0], xs[0]);
  }

  lemma MedianOfTwo(xs: seq<real>)
    requires |xs| == 2
    ensures Median(xs) == (xs[0] + xs[1]) / 2.0
  {
    assert xs[1..][1..] == [];
    assert Sorted(xs[1..]) == [xs[1]];
    assert Sorted(xs) == Insert(xs[0], [xs[1]], Leq);
  }

  /** Rows (1, 0), as many rows (0, 1) and at most half the rows (0, 0): the column medians are 0, that of the sums is not. */
  lemma MedianOfSumsExceeds(n: nat) returns (xs: seq<real>, ys: seq<real>)
    requires n >= 3
    ensures |xs| == |ys| == n && NonNegative(xs) && NonNegative(ys)
    ensures !MediansAdd(xs, ys)
  {
    var p := (n - 1) / 2;
    var r := n - 2 * p;
    xs, ys := ThreeBlocks(p, 1.0, p, 0.0, r, 0.0), ThreeBlocks(p, 0.0, p, 1.0, r, 0.0);
    var zs := ThreeBlocks(p, 1.0, p, 1.0, r, 0.0);
    assert Sums(xs, ys) == zs;
    CountThree(p, 1.0, p, 0.0, r, 0.0, In(0.0, 0.0));
    CountThree(p, 0.0, p, 1.0, r, 0.0, In(0.0, 0.0));
    MedianBreakdown(xs, 0.0, 0.0);
    MedianBreakdown(ys, 0.0, 0.0);
    CountThree(p, 1.0, p, 1.0, r, 0.0, Under(1.0));
    PositiveMedian(zs, 1.0);
  }

  lemma PositiveMedian(zs: seq<real>, c: real)
    requires |zs| > 0 && c > 0.0 && NonNegative(zs) && 2 * Count(zs, Under(c)) <= |zs|
    ensures Median(zs) > 0.0
  {
    Rank(zs, c, |zs| / 2);
    SortedElement(zs, Leq, (|zs| - 1) / 2);
  }

  /** Of up to two rows each median is a mean, and means add up. */
  lemma FewMediansAdd(xs: seq<real>, ys: seq<real>)
    requires |xs| == |ys| <= 2
    ensures MediansAdd(xs, ys)
  {
    if |xs| == 1 {
      MedianOfOne(xs);
      MedianOfOne(ys);
      MedianOfOne(Sums(xs, ys));
    } else if |xs| == 2 {
      MedianOfTwo(xs);
      MedianOfTwo(ys);
      MedianOfTwo(Sums(xs, ys));
    }
  }

  /** The two CPU halves add up to the total. */
  ghost predicate SplitAdds(r: CellRecord) { r.cpuSecondsSender + r.cpuSecondsReceiver == r.cpuSeconds }

  /** Replicates whose CPU halves are as `split_cpu` leaves them. */
  ghost predicate AllSplit(records: seq<CellRecord>) {
    forall r | r in records :: CpuPartsBounded(r) && SplitAdds(r)
  }

  /** If the cell is aggregated at all, the halves of the aggregate add up. */
  ghost predicate SplitSurvives(kind: Kind, rep: Replication, records: seq<CellRecord>) {
    var r := AggregateCell(records, Primaries(kind, records), rep);
    r.Some? ==> SplitAdds(r.value)
  }

  lemma SplitColumns(records: seq<CellRecord>)
    requires forall r | r in records :: SplitAdds(r)
    ensures Field(records, Cpu) == Sums(Field(records, CpuSender), Field(records, CpuReceiver))
  {
    var totals, sums := Field(records, Cpu), Sums(Field(records, CpuSender), Field(records, CpuReceiver));
    forall i: nat | i < |records| ensures totals[i] == sums[i] {
      assert SplitAdds(records[i]);
    }
  }

  lemma MergedSplit(records: seq<CellRecord>, primary: seq<real>, rep: Replication)
    requires |records| == |primary| && |KeptRecords(records, primary, rep.madK)| > 0
    ensures var kept, r := KeptRecords(records, primary, rep.madK), AggregateCell(records, primary, rep);
            && r.Some? && r.value.cpuSeconds == MedianF64(kept, Cpu)
            && r.value.cpuSecondsSender == MedianF64(kept, CpuSender)
            && r.value.cpuSecondsReceiver == MedianF64(kept, CpuReceiver)
  {
  }

  lemma AllKeptSplit(kind: Kind, rep: Replication, records: seq<CellRecord>, xs: seq<real>, ys: seq<real>)
    requires |records| > 0 && KeptRecords(records, Primaries(kind, records), rep.madK) == records
    requires xs == Field(records, CpuSender) && ys == Field(records, CpuReceiver) && Field(records, Cpu) == Sums(xs, ys)
    ensures SplitSurvives(kind, rep, records) <==> MediansAdd(xs, ys)
  {
    MergedSplit(records, Primaries(kind, records), rep);
  }

  /** Two replicates at most are all kept, and their medians are means. */
  lemma FewKeepSplit(kind: Kind, rep: Replication, records: seq<CellRecord>)
    requires |records| <= 2 && AllSplit(records)
    ensures SplitSurvives(kind, rep, records)
  {
    if |records| > 0 {
      var xs, ys := Field(records, CpuSender), Field(records, CpuReceiver);
      KeepAll(records, HampelMask(Primaries(kind, records), rep.madK));
      SplitColumns(records);
      FewMediansAdd(xs, ys);
      AllKeptSplit(kind, rep, records, xs, ys);
    }
  }

  /** Replicates alike in everything but the CPU time of their two ends. */
  function WithCpu(r: CellRecord, xs: seq<real>, ys: seq<real>): (records: seq<CellRecord>)
    requires |xs| == |ys|
    ensures |records| == |xs|
  {
    seq(|xs|, i requires 0 <= i < |xs| =>
      r.(cpuSeconds := xs[i] + ys[i], cpuSecondsSender := xs[i], cpuSecondsReceiver := ys[i]))
  }

  lemma WithCpuColumns(r: CellRecord, xs: seq<real>, ys: seq<real>)
    requires |xs| == |ys|
    ensures var records := WithCpu(r, xs, ys);
            && Field(records, CpuSender) == xs && Field(records, CpuReceiver) == ys && Field(records, Cpu) == Sums(xs, ys)
            && (forall r' | r' in records :: SplitAdds(r'))
            && (NonNegative(xs) && NonNegative(ys) ==> AllSplit(records))
  {
    var records := WithCpu(r, xs, ys);
    assert Field(records, CpuSender) == xs;
    assert Field(records, CpuReceiver) == ys;
    assert Field(records, Cpu) == Sums(xs, ys);
  }

  lemma AlikeAllKept(kind: Kind, r: CellRecord, xs: seq<real>, ys: seq<real>, k: real)
    requires |xs| == |ys| > 0
    ensures var records := WithCpu(r, xs, ys);
            && (forall i | 0 <= i < |xs| :: PrimaryMetric(kind, records[i]) == PrimaryMetric(kind, r))
            && KeptRecords(records, Primaries(kind, records), k) == records
  {
    var records, v := WithCpu(r, xs, ys), PrimaryMetric(kind, r);
    var primary := Primaries(kind, records);
    CountAll(primary, Equals(v));
    MadZeroIffMajorityTied(primary);
    KeepAll(records, HampelMask(primary, k));
  }

  /** From three replicates on, a cell that measured its rate alike every time can lose the sum of its CPU halves. */
  lemma SplitLost(kind: Kind, rep: Replication, r: CellRecord, n: nat) returns (records: seq<CellRecord>)
    requires n >= 3
    ensures |records| == n && AllSplit(records)
    ensures forall i | 0 <= i < n :: PrimaryMetric(kind, records[i]) == PrimaryMetric(kind, r)
    ensures !SplitSurvives(kind, rep, records)
  {
    var xs, ys := MedianOfSumsExceeds(n);
    records := WithCpu(r, xs, ys);
    WithCpuColumns(r, xs, ys);
    AlikeAllKept(kind, r, xs, ys, rep.madK);
    AllKeptSplit(kind, rep, records, xs, ys);
  }

  /**
    The two CPU halves add up to the total in every replicate, but are sure to
    add up in the aggregated record only when there are at most two replicates.
  */
  lemma MedianSplitAddsUpIff(kind: Kind, rep: Replication, r: CellRecord, n: nat)
    ensures n <= 2 <==>
            forall records: seq<CellRecord> | |records| == n && AllSplit(records) :: SplitSurvives(kind, rep, records)
  {
    if n <= 2 {
      forall records: seq<CellRecord> | |records| == n && AllSplit(records) ensures SplitSurvives(kind, rep, records) {
        FewKeepSplit(kind, rep, records);
      }
    } else {
      var records := SplitLost(kind, rep, r, n);
    }
  }
}
