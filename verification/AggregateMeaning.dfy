/**
  The aggregated record field by field (`aggregate_cell` in
  orchestrator/src/main.rs): each figure is the middle value of that same figure over
  the surviving records, found by counting, and the record is identified like the
  first survivor.
*/
module AggregateMeaning {
  import opened Wrappers
  import opened Sorting
  import opened Quantiles
  import opened Stats
  import opened Records
  import opened Aggregation

  function Column(kept: seq<CellRecord>, f: CellRecord -> real): (xs: seq<real>)
    ensures |xs| == |kept| && forall i | 0 <= i < |kept| :: xs[i] == f(kept[i])
  {
    seq(|kept|, i requires 0 <= i < |kept| => f(kept[i]))
  }

  /** `x` is the middle value of the figure `f`. */
  ghost predicate MiddleOf(kept: seq<CellRecord>, f: CellRecord -> real, x: real) { IsMiddle(Column(kept, f), x) }

  /** `n` is `m` rounded half up and held within an unsigned 64-bit integer. */
  ghost predicate IsRounded(m: real, n: nat) {
    if m < 0.0 then n == 0
    else if m >= 0xFFFF_FFFF_FFFF_FFFF as real then n == 0xFFFF_FFFF_FFFF_FFFF
    else n as real - 0.5 <= m < n as real + 0.5
  }

  /** `n` is the rounded middle value of the counter `f`. */
  ghost predicate RoundedMiddleOf(kept: seq<CellRecord>, f: CellRecord -> nat, n: nat) {
    exists m :: MiddleOf(kept, Real(f), m) && IsRounded(m, n)
  }

  function Real(f: CellRecord -> nat): CellRecord -> real { (r: CellRecord) => f(r) as real }

  lemma RoundingMeans(m: real)
    ensures IsRounded(m, RoundToU64(m))
  {
  }

  lemma FigureIsMiddle(kept: seq<CellRecord>, f: CellRecord -> real, g: CellRecord -> real)
    requires |kept| > 0 && forall r :: f(r) == g(r)
    ensures MiddleOf(kept, g, MedianF64(kept, f))
  {
    assert Column(kept, g) == Field(kept, f);
    MedianIsMiddle(Column(kept, g), MedianF64(kept, f));
  }

  lemma CounterIsMiddle(kept: seq<CellRecord>, f: CellRecord -> nat, g: CellRecord -> nat)
    requires |kept| > 0 && forall r :: f(r) == g(r)
    ensures RoundedMiddleOf(kept, g, MedianU64(kept, f))
  {
    var m := MedianF64(kept, AsReal(f));
    FigureIsMiddle(kept, AsReal(f), Real(g));
    RoundingMeans(m);
  }

  ghost predicate LatencyIsMiddle(kept: seq<CellRecord>, l: LatencySnapshot) {
    && RoundedMiddleOf(kept, (r: CellRecord) => r.latency.count, l.count)
    && RoundedMiddleOf(kept, (r: CellRecord) => r.latency.minNs, l.minNs)
    && RoundedMiddleOf(kept, (r: CellRecord) => r.latency.maxNs, l.maxNs)
    && RoundedMiddleOf(kept, (r: CellRecord) => r.latency.p50Ns, l.p50Ns)
    && RoundedMiddleOf(kept, (r: CellRecord) => r.latency.p90Ns, l.p90Ns)
    && RoundedMiddleOf(kept, (r: CellRecord) => r.latency.p99Ns, l.p99Ns)
    && RoundedMiddleOf(kept, (r: CellRecord) => r.latency.p999Ns, l.p999Ns)
  }

  lemma LatencyMeans(kept: seq<CellRecord>)
    requires |kept| > 0
    ensures LatencyIsMiddle(kept, MergeLatency(kept))
  {
    CounterIsMiddle(kept, MessageCount, (r: CellRecord) => r.latency.count);
    CounterIsMiddle(kept, MinNs, (r: CellRecord) => r.latency.minNs);
    CounterIsMiddle(kept, MaxNs, (r: CellRecord) => r.latency.maxNs);
    CounterIsMiddle(kept, P50, (r: CellRecord) => r.latency.p50Ns);
    CounterIsMiddle(kept, P90, (r: CellRecord) => r.latency.p90Ns);
    CounterIsMiddle(kept, P99, (r: CellRecord) => r.latency.p99Ns);
    CounterIsMiddle(kept, P999, (r: CellRecord) => r.latency.p999Ns);
  }

  ghost predicate CountersAreMiddle(kept: seq<CellRecord>, a: CellRecord) {
    && RoundedMiddleOf(kept, (r: CellRecord) => r.syscalls.epollCtl, a.syscalls.epollCtl)
    && RoundedMiddleOf(kept, (r: CellRecord) => r.syscalls.epollWait, a.syscalls.epollWait)
    && RoundedMiddleOf(kept, (r: CellRecord) => r.syscalls.sendmsg, a.syscalls.sendmsg)
    && RoundedMiddleOf(kept, (r: CellRecord) => r.syscalls.recvmsg, a.syscalls.recvmsg)
    && RoundedMiddleOf(kept, (r: CellRecord) => r.syscalls.ioUringEnter, a.syscalls.ioUringEnter)
    && RoundedMiddleOf(kept, (r: CellRecord) => r.sched.voluntary, a.sched.voluntary)
    && RoundedMiddleOf(kept, (r: CellRecord) => r.sched.involuntary, a.sched.involuntary)
    && RoundedMiddleOf(kept, (r: CellRecord) => r.peakMemoryBytes, a.peakMemoryBytes)
  }

  lemma CountersMean(kept: seq<CellRecord>, stability: Stability)
    requires |kept| > 0
    ensures CountersAreMiddle(kept, Merge(kept, stability))
  {
    CounterIsMiddle(kept, EpollCtl, (r: CellRecord) => r.syscalls.epollCtl);
    CounterIsMiddle(kept, EpollWait, (r: CellRecord) => r.syscalls.epollWait);
    CounterIsMiddle(kept, SendMsg, (r: CellRecord) => r.syscalls.sendmsg);
    CounterIsMiddle(kept, RecvMsg, (r: CellRecord) => r.syscalls.recvmsg);
    CounterIsMiddle(kept, IoUringEnter, (r: CellRecord) => r.syscalls.ioUringEnter);
    CounterIsMiddle(kept, Voluntary, (r: CellRecord) => r.sched.voluntary);
    CounterIsMiddle(kept, Involuntary, (r: CellRecord) => r.sched.involuntary);
    CounterIsMiddle(kept, PeakMemory, (r: CellRecord) => r.peakMemoryBytes);
  }

  ghost predicate FiguresAreMiddle(kept: seq<CellRecord>, a: CellRecord) {
    && MiddleOf(kept, (r: CellRecord) => r.throughput.msgsPerS, a.throughput.msgsPerS)
    && MiddleOf(kept, (r: CellRecord) => r.throughput.mbps, a.throughput.mbps)
    && MiddleOf(kept, (r: CellRecord) => r.cpuSeconds, a.cpuSeconds)
    && MiddleOf(kept, (r: CellRecord) => r.cpuSecondsSender, a.cpuSecondsSender)
    && MiddleOf(kept, (r: CellRecord) => r.cpuSecondsReceiver, a.cpuSecondsReceiver)
  }

  lemma FiguresMean(kept: seq<CellRecord>, stability: Stability)
    requires |kept| > 0
    ensures FiguresAreMiddle(kept, Merge(kept, stability))
  {
    FigureIsMiddle(kept, Rate, (r: CellRecord) => r.throughput.msgsPerS);
    FigureIsMiddle(kept, Mbps, (r: CellRecord) => r.throughput.mbps);
    FigureIsMiddle(kept, Cpu, (r: CellRecord) => r.cpuSeconds);
    FigureIsMiddle(kept, CpuSender, (r: CellRecord) => r.cpuSecondsSender);
    FigureIsMiddle(kept, CpuReceiver, (r: CellRecord) => r.cpuSecondsReceiver);
  }

  /** `a` is the figure-wise middle of the records, and identified like the first of them. */
  ghost predicate IsMiddleRecord(kept: seq<CellRecord>, a: CellRecord)
    requires |kept| > 0
  {
    && a.runId == kept[0].runId && a.cellId == kept[0].cellId && a.entry == kept[0].entry
    && LatencyIsMiddle(kept, a.latency) && FiguresAreMiddle(kept, a) && CountersAreMiddle(kept, a)
  }

  lemma MergeMeans(kept: seq<CellRecord>, stability: Stability)
    requires |kept| > 0
    ensures IsMiddleRecord(kept, Merge(kept, stability))
  {
    LatencyMeans(kept);
    FiguresMean(kept, stability);
    CountersMean(kept, stability);
  }

  /** The records at the given positions. */
  function At(records: seq<CellRecord>, at: seq<nat>): (kept: seq<CellRecord>)
    requires forall j | 0 <= j < |at| :: at[j] < |records|
    ensures |kept| == |at| && forall j | 0 <= j < |at| :: kept[j] == records[at[j]]
  {
    seq(|at|, j requires 0 <= j < |at| => records[at[j]])
  }

  lemma SurvivorsAt(records: seq<CellRecord>, mask: seq<bool>)
    requires |mask| == |records|
    ensures At(records, Positions(mask, true, |mask|)) == Select(records, mask, true)
  {
    SelectInOrder(records, mask, true, |records|);
    assert records[..|records|] == records && mask[..|records|] == mask;
  }

  /** `a` merges the records that the mask keeps. */
  ghost predicate Merges(records: seq<CellRecord>, mask: seq<bool>, a: CellRecord) {
    && |mask| == |records|
    && exists st: Stability :: |Select(records, mask, true)| > 0 && a == Merge(Select(records, mask, true), st)
  }

  lemma AggregateMerges(records: seq<CellRecord>, primary: seq<real>, rep: Replication, a: CellRecord, mask: seq<bool>)
    requires |records| == |primary| && AggregateCell(records, primary, rep) == Some(a) && mask == HampelMask(primary, rep.madK)
    ensures Merges(records, mask, a)
  {
    var st := Summarize(primary, rep.madK, rep.targetRelIqr, rep.maxOutlierFrac);
    assert a == Merge(Select(records, mask, true), st);
  }

  /** `a` is the figure-wise middle of the survivors, which stand at the kept positions in ascending order. */
  ghost predicate IsMiddleOfKept(records: seq<CellRecord>, mask: seq<bool>, a: CellRecord)
    requires |mask| == |records|
  {
    var at := Positions(mask, true, |mask|);
    |at| > 0 && IsMiddleRecord(At(records, at), a)
  }

  lemma MergesMeans(records: seq<CellRecord>, mask: seq<bool>, a: CellRecord)
    requires |mask| == |records| && Merges(records, mask, a)
    ensures IsMiddleOfKept(records, mask, a)
  {
    var st: Stability :| |Select(records, mask, true)| > 0 && a == Merge(Select(records, mask, true), st);
    SurvivorsAt(records, mask);
    MergeMeans(Select(records, mask, true), st);
  }

  /**
    The aggregated record: with the survivors standing at the positions that the
    Hampel mask keeps, in ascending order, every figure is the middle of that same
    figure over them, and the record is identified like the first of them.
  */
  lemma AggregateMeans(records: seq<CellRecord>, primary: seq<real>, rep: Replication, a: CellRecord, mask: seq<bool>)
    requires |records| == |primary| && AggregateCell(records, primary, rep) == Some(a) && mask == HampelMask(primary, rep.madK)
    ensures IsMiddleOfKept(records, mask, a)
  {
    AggregateMerges(records, primary, rep, a, mask);
    MergesMeans(records, mask, a);
  }

  /** There is an aggregated record exactly when a replicate survives, and it carries the summary of all of them. */
  lemma AggregateStability(records: seq<CellRecord>, primary: seq<real>, rep: Replication)
    requires |records| == |primary|
    ensures var a := AggregateCell(records, primary, rep);
            && (a.Some? <==> exists i :: 0 <= i < |primary| && HampelMask(primary, rep.madK)[i])
            && (a.Some? ==> a.value.stability == Some(Summarize(primary, rep.madK, rep.targetRelIqr, rep.maxOutlierFrac)))
  {
    SelectCount(records, HampelMask(primary, rep.madK));
    CountPositive(HampelMask(primary, rep.madK), IsTrue());
  }
}
