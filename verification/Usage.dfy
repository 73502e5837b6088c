/**
  Attribution of CPU time and memory to the processes of a cell
  (orchestrator/src/main.rs): the poll loop that keeps per-process maxima, and
  the split of the exact CPU total in the sampled ratio.
*/
module Usage {
  import opened Numbers
  import opened Wrappers

  // ---------- the CPU split ----------

  function SplitCpu(total: real, measured: real, others: real): (real, real) {
    var sampled := measured + others;
    if sampled <= 0.0 then (0.0, 0.0)
    else
      var share := measured / sampled;
      (total * share, total * (1.0 - share))
  }

  lemma ShareInUnit(x: real, y: real)
    requires x >= 0.0 && y >= 0.0 && x + y > 0.0
    ensures 0.0 <= x / (x + y) <= 1.0
    ensures (1.0 - x / (x + y)) * (x + y) == y
  {
    var w := x + y;
    var s := x / w;
    assert s * w == x;
    if s < 0.0 {
      PositiveProduct(-s, w);
    }
    if s > 1.0 {
      PositiveProduct(s - 1.0, w);
    }
  }

  lemma PartBounds(total: real, share: real)
    requires total >= 0.0 && 0.0 <= share <= 1.0
    ensures 0.0 <= total * share <= total
    ensures total * share + total * (1.0 - share) == total
  {
    assert total * (1.0 - share) >= 0.0;
  }

  /** The two parts lie between zero and the total, and make up the total exactly when anything was sampled. */
  lemma SplitSums(total: real, measured: real, others: real)
    requires total >= 0.0 && measured >= 0.0 && others >= 0.0
    ensures var (a, b) := SplitCpu(total, measured, others);
            && 0.0 <= a <= total && 0.0 <= b <= total
            && (a + b == total <==> measured + others > 0.0 || total == 0.0)
  {
    if measured + others > 0.0 {
      var share := measured / (measured + others);
      ShareInUnit(measured, others);
      PartBounds(total, share);
      PartBounds(total, 1.0 - share);
    }
  }

  /** The parts stand in the sampled ratio. */
  lemma SplitKeepsRatio(total: real, measured: real, others: real)
    requires measured >= 0.0 && others >= 0.0
    ensures var (a, b) := SplitCpu(total, measured, others); a * others == b * measured
  {
    if measured + others > 0.0 {
      var sampled := measured + others;
      var share := measured / sampled;
      ShareInUnit(measured, others);
      Proportional(total, share, sampled, measured, others);
    }
  }

  lemma Proportional(t: real, s: real, w: real, x: real, y: real)
    requires s * w == x && (1.0 - s) * w == y
    ensures (t * s) * y == (t * (1.0 - s)) * x
  {
    var u := 1.0 - s;
    assert (t * s) * (u * w) == (t * u) * (s * w);
  }

  // ---------- the poll loop ----------

  /** How the measured child was found after a poll. */
  datatype ChildState = Exited | Running | PastDeadline | WaitFailed

  /** One pass over the processes: their readings, where readable, and then the child. */
  datatype Poll = Poll(rss: seq<Option<nat>>, cpu: seq<Option<real>>, child: ChildState)

  datatype CellUsage = CellUsage(rssTotal: nat, cpuMeasured: real, cpuOthers: real)

  function ReadingOr(r: Option<nat>, d: nat): nat { match r case Some(v) => v case None => d }

  /** The largest resident set size read for process `i` in the first `m` polls. */
  function PeakRss(polls: seq<Poll>, m: nat, i: nat): nat
    requires m <= |polls| && forall p | p in polls :: i < |p.rss|
  {
    if m == 0 then 0
    else
      var r := polls[m - 1].rss[i];
      var before := PeakRss(polls, m - 1, i);
      if r.Some? then MaxNat(before, r.value) else before
  }

  function PeakCpu(polls: seq<Poll>, m: nat, i: nat): real
    requires m <= |polls| && forall p | p in polls :: i < |p.cpu|
  {
    if m == 0 then 0.0
    else
      var r := polls[m - 1].cpu[i];
      var before := PeakCpu(polls, m - 1, i);
      if r.Some? then MaxReal(before, r.value) else before
  }

  function Sum(xs: seq<nat>): nat {
    if |xs| == 0 then 0 else xs[0] + Sum(xs[1..])
  }

  function SumReal(xs: seq<real>): real {
    if |xs| == 0 then 0.0 else xs[0] + SumReal(xs[1..])
  }

  ghost predicate PollsFor(polls: seq<Poll>, n: nat) {
    forall p | p in polls :: |p.rss| == n && |p.cpu| == n
  }

  function Peaks(polls: seq<Poll>, m: nat, n: nat): (ps: seq<nat>)
    requires m <= |polls| && PollsFor(polls, n)
    ensures |ps| == n
  {
    seq(n, i requires 0 <= i < n => PeakRss(polls, m, i))
  }

  function Cpus(polls: seq<Poll>, m: nat, n: nat): (cs: seq<real>)
    requires m <= |polls| && PollsFor(polls, n)
    ensures |cs| == n
  {
    seq(n, i requires 0 <= i < n => PeakCpu(polls, m, i))
  }

  /** What the readings of one poll add up to, unreadable processes counting zero. */
  function PollTotal(p: Poll): nat { Sum(Readings(p)) }

  function Readings(p: Poll): (rs: seq<nat>)
    ensures |rs| == |p.rss|
  {
    seq(|p.rss|, i requires 0 <= i < |p.rss| => ReadingOr(p.rss[i], 0))
  }

  method TotalPeaks(peaks: array<nat>) returns (total: nat)
    ensures total == Sum(peaks[..])
  {
    total := 0;
    var i := peaks.Length;
    while i > 0
      invariant 0 <= i <= peaks.Length && total == Sum(peaks[i..])
    {
      i := i - 1;
      assert peaks[i..][1..] == peaks[i + 1..];
      total := total + peaks[i];
    }
    assert peaks[0..] == peaks[..];
  }

  /** Folds one poll into the per-process maxima, in place. */
  method FoldPoll(polls: seq<Poll>, m: nat, peaks: array<nat>, cpus: array<real>)
    requires m < |polls| && PollsFor(polls, peaks.Length) && cpus.Length == peaks.Length
    requires peaks[..] == Peaks(polls, m, peaks.Length) && cpus[..] == Cpus(polls, m, peaks.Length)
    modifies peaks, cpus
    ensures peaks[..] == Peaks(polls, m + 1, peaks.Length) && cpus[..] == Cpus(polls, m + 1, peaks.Length)
  {
    for i := 0 to peaks.Length
      invariant forall j | 0 <= j < peaks.Length :: peaks[j] == PeakRss(polls, if j < i then m + 1 else m, j)
      invariant forall j | 0 <= j < peaks.Length :: cpus[j] == PeakCpu(polls, if j < i then m + 1 else m, j)
    {
      var rss := polls[m].rss[i];
      if rss.Some? {
        peaks[i] := MaxNat(peaks[i], rss.value);
      }
      var cpu := polls[m].cpu[i];
      if cpu.Some? {
        cpus[i] := MaxReal(cpus[i], cpu.value);
      }
    }
  }

  /** What the loop reports once it has folded the first `m` polls. */
  function UsageAfter(polls: seq<Poll>, m: nat, n: nat): CellUsage
    requires m <= |polls| && n > 0 && PollsFor(polls, n)
  {
    CellUsage(Sum(Peaks(polls, m, n)), Cpus(polls, m, n)[0], SumReal(Cpus(polls, m, n)[1..]))
  }

  /**
    Polls until the child is no longer running. The first process is the measured
    child; `polls` is what successive passes see, ending at the latest when the
    deadline has passed.
  */
  method WaitUntilPeak(n: nat, polls: seq<Poll>) returns (exited: bool, usage: CellUsage, m: nat)
    requires n > 0 && PollsFor(polls, n)
    requires exists p :: p in polls && !p.child.Running?
    ensures 0 < m <= |polls| && !polls[m - 1].child.Running?
    ensures forall j | 0 <= j < m - 1 :: polls[j].child.Running?
    ensures exited <==> polls[m - 1].child.Exited?
    ensures usage == UsageAfter(polls, m, n)
  {
    var peaks := new nat[n](_ => 0);
    var cpus := new real[n](_ => 0.0);
    ghost var last :| 0 <= last < |polls| && !polls[last].child.Running?;
    m := 0;
    while m == 0 || polls[m - 1].child.Running?
      invariant 0 <= m <= last + 1
      invariant forall j | 0 <= j < m - 1 :: polls[j].child.Running?
      invariant peaks[..] == Peaks(polls, m, n) && cpus[..] == Cpus(polls, m, n)
      decreases |polls| - m
    {
      FoldPoll(polls, m, peaks, cpus);
      m := m + 1;
    }
    var rssTotal := TotalPeaks(peaks);
    usage := CellUsage(rssTotal, cpus[0], SumReal(cpus[1..]));
    exited := polls[m - 1].child.Exited?;
  }

  /** A peak is at least every reading folded into it, and is itself such a reading unless there was none. */
  lemma {:induction false} PeakIsMaximum(polls: seq<Poll>, m: nat, i: nat)
    requires m <= |polls| && forall p | p in polls :: i < |p.rss|
    ensures forall j | 0 <= j < m :: ReadingOr(polls[j].rss[i], 0) <= PeakRss(polls, m, i)
    ensures PeakRss(polls, m, i) == 0 || exists j :: 0 <= j < m && polls[j].rss[i] == Some(PeakRss(polls, m, i))
  {
    if m > 0 {
      PeakIsMaximum(polls, m - 1, i);
    }
  }

  lemma {:induction false} SumMonotone(xs: seq<nat>, ys: seq<nat>)
    requires |xs| == |ys| && forall i | 0 <= i < |xs| :: xs[i] <= ys[i]
    ensures Sum(xs) <= Sum(ys)
  {
    if |xs| > 0 {
      SumMonotone(xs[1..], ys[1..]);
    }
  }

  /** The reported memory, a sum of per-process maxima, covers the total seen at every single poll. */
  lemma ReportedMemoryCoversEveryPoll(polls: seq<Poll>, m: nat, n: nat, j: nat)
    requires j < m <= |polls| && n > 0 && PollsFor(polls, n)
    ensures PollTotal(polls[j]) <= UsageAfter(polls, m, n).rssTotal
  {
    assert polls[j] in polls;
    var readings := Readings(polls[j]);
    forall i: nat | i < n ensures readings[i] <= Peaks(polls, m, n)[i] {
      PeakIsMaximum(polls, m, i);
    }
    SumMonotone(readings, Peaks(polls, m, n));
  }

  /** The same for CPU time; without a reading it stays at zero, and it is never negative. */
  lemma {:induction false} PeakCpuIsMaximum(polls: seq<Poll>, m: nat, i: nat)
    requires m <= |polls| && forall p | p in polls :: i < |p.cpu|
    ensures PeakCpu(polls, m, i) >= 0.0
    ensures forall j | 0 <= j < m && polls[j].cpu[i].Some? :: polls[j].cpu[i].value <= PeakCpu(polls, m, i)
    ensures PeakCpu(polls, m, i) == 0.0 || exists j :: 0 <= j < m && polls[j].cpu[i] == Some(PeakCpu(polls, m, i))
  {
    if m > 0 {
      PeakCpuIsMaximum(polls, m - 1, i);
    }
  }

  lemma {:induction false} SumRealNonNegative(xs: seq<real>)
    requires forall i | 0 <= i < |xs| :: xs[i] >= 0.0
    ensures SumReal(xs) >= 0.0
  {
    if |xs| > 0 {
      SumRealNonNegative(xs[1..]);
    }
  }

  /** `v` is the largest reading of process `i` in the first `m` polls, zero when there is none above it. */
  ghost predicate IsPeakRss(polls: seq<Poll>, m: nat, i: nat, v: nat)
    requires m <= |polls| && forall p | p in polls :: i < |p.rss|
  {
    && (forall j | 0 <= j < m && polls[j].rss[i].Some? :: polls[j].rss[i].value <= v)
    && (v == 0 || exists j :: 0 <= j < m && polls[j].rss[i] == Some(v))
  }

  ghost predicate IsPeakCpu(polls: seq<Poll>, m: nat, i: nat, v: real)
    requires m <= |polls| && forall p | p in polls :: i < |p.cpu|
  {
    && v >= 0.0
    && (forall j | 0 <= j < m && polls[j].cpu[i].Some? :: polls[j].cpu[i].value <= v)
    && (v == 0.0 || exists j :: 0 <= j < m && polls[j].cpu[i] == Some(v))
  }

  lemma PeakRssIs(polls: seq<Poll>, m: nat, i: nat, v: nat)
    requires m <= |polls| && (forall p | p in polls :: i < |p.rss|) && IsPeakRss(polls, m, i, v)
    ensures v == PeakRss(polls, m, i)
  {
    PeakIsMaximum(polls, m, i);
  }

  lemma PeakCpuIs(polls: seq<Poll>, m: nat, i: nat, v: real)
    requires m <= |polls| && (forall p | p in polls :: i < |p.cpu|) && IsPeakCpu(polls, m, i, v)
    ensures v == PeakCpu(polls, m, i)
  {
    PeakCpuIsMaximum(polls, m, i);
  }

  /**
    What the loop reports, given the largest readings of every process: their sum as
    memory, the CPU time of the first process as the measured one's, and that of the
    rest together as the others'.
  */
  lemma UsageMeans(polls: seq<Poll>, m: nat, n: nat, rss: seq<nat>, cpu: seq<real>)
    requires m <= |polls| && n > 0 && PollsFor(polls, n) && |rss| == |cpu| == n
    requires forall i: nat | i < n :: IsPeakRss(polls, m, i, rss[i]) && IsPeakCpu(polls, m, i, cpu[i])
    ensures var u := UsageAfter(polls, m, n);
            u.rssTotal == Sum(rss) && u.cpuMeasured == cpu[0] && u.cpuMeasured + u.cpuOthers == SumReal(cpu)
  {
    forall i: nat | i < n ensures rss[i] == Peaks(polls, m, n)[i] && cpu[i] == Cpus(polls, m, n)[i] {
      PeakRssIs(polls, m, i, rss[i]);
      PeakCpuIs(polls, m, i, cpu[i]);
    }
    assert rss == Peaks(polls, m, n);
    assert cpu == Cpus(polls, m, n);
  }

  /** Whatever the polls read, the attribution of a non-negative total to the two ends is within it. */
  lemma AttributionBounded(polls: seq<Poll>, m: nat, n: nat, total: real)
    requires m <= |polls| && n > 0 && PollsFor(polls, n) && total >= 0.0
    ensures var u := UsageAfter(polls, m, n);
            var (a, b) := SplitCpu(total, u.cpuMeasured, u.cpuOthers);
            && 0.0 <= a <= total && 0.0 <= b <= total
            && (a + b == total <==> u.cpuMeasured + u.cpuOthers > 0.0 || total == 0.0)
  {
    var cs := Cpus(polls, m, n);
    forall i: nat | i < n ensures cs[i] >= 0.0 {
      PeakCpuIsMaximum(polls, m, i);
    }
    SumRealNonNegative(cs[1..]);
    SplitSums(total, cs[0], SumReal(cs[1..]));
  }
}
