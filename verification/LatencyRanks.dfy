/**
  The two percentile printers of the target wrappers: the Rust one
  (`print_latency`, rank floor(n*p)) and the libzmq one (`run_latency`, rank
  floor(p*(n-1))), over round-trip times in nanoseconds.
*/
module LatencyRanks {
  import opened Sorting
  import opened Stats
  import opened Records

  predicate NatLeq(x: nat, y: nat) { x <= y }

  function SortedTimes(ts: seq<nat>): seq<nat> { Sort(ts, NatLeq) }

  function UpToNat(t: nat): nat -> bool { (x: nat) => x <= t }

  /** Rank of percentile `p` in the Rust wrapper. */
  function RustRank(n: nat, p: real): (i: nat)
    requires n > 0 && 0.0 <= p
    ensures i < n
  {
    var idx := (n as real * p).Floor;
    if idx < n - 1 then idx else n - 1
  }

  /** Rank of percentile `p` in the libzmq wrapper. */
  function CppRank(n: nat, p: real): (i: nat)
    requires n > 0 && 0.0 <= p < 1.0
    ensures i < n
  {
    ScaledIndex(n, p);
    (p * (n - 1) as real).Floor
  }

  lemma ScaledIndex(n: nat, p: real)
    requires n > 0 && 0.0 <= p < 1.0
    ensures 0.0 <= p * (n - 1) as real <= (n - 1) as real
    ensures n as real * p == p * (n - 1) as real + p
    ensures 0.0 <= n as real * p < n as real
  {
    assert p * (n - 1) as real >= 0.0;
    assert (1.0 - p) * (n - 1) as real >= 0.0;
    assert (1.0 - p) * n as real > 0.0;
  }

  const EMPTY: LatencySnapshot := LatencySnapshot(0, 0, 0, 0, 0, 0, 0)

  function RustSnapshot(ts: seq<nat>): LatencySnapshot {
    if |ts| == 0 then EMPTY
    else
      var v, n := SortedTimes(ts), |ts|;
      LatencySnapshot(n, v[0], v[n - 1],
        v[RustRank(n, 0.50)], v[RustRank(n, 0.90)], v[RustRank(n, 0.99)], v[RustRank(n, 0.999)])
  }

  function CppSnapshot(ts: seq<nat>): LatencySnapshot {
    if |ts| == 0 then EMPTY
    else
      var v, n := SortedTimes(ts), |ts|;
      LatencySnapshot(n, v[0], v[n - 1],
        v[CppRank(n, 0.50)], v[CppRank(n, 0.90)], v[CppRank(n, 0.99)], v[CppRank(n, 0.999)])
  }

  /** The Rust printer: sorts its slice in place and reads the ranks off it. */
  method PrintLatency(rtts: array<nat>) returns (line: LatencySnapshot)
    modifies rtts
    ensures line == RustSnapshot(old(rtts[..]))
    ensures rtts[..] == SortedTimes(old(rtts[..]))
  {
    SortInPlace(rtts, NatLeq);
    var n := rtts.Length;
    if n == 0 {
      return EMPTY;
    }
    ghost var v := rtts[..];
    line := LatencySnapshot(n, rtts[0], rtts[n - 1],
      rtts[RustRank(n, 0.50)], rtts[RustRank(n, 0.90)], rtts[RustRank(n, 0.99)], rtts[RustRank(n, 0.999)]);
  }

  /** The first `n` round-trip times. */
  function RoundTrips(n: nat, rtt: nat -> nat): (ts: seq<nat>)
    ensures |ts| == n
  {
    seq(n, (i: nat) requires i < n => rtt(i))
  }

  /** The libzmq client: pushes one time per measured round trip, sorts, and reads the ranks. */
  method RunLatency(messages: nat, rtt: nat -> nat) returns (line: LatencySnapshot)
    ensures line == CppSnapshot(RoundTrips(messages, rtt))
  {
    var lat: seq<nat> := [];
    for n := 0 to messages
      invariant lat == RoundTrips(n, rtt)
    {
      lat := lat + [rtt(n)];
    }
    if |lat| == 0 {
      return EMPTY;
    }
    var v := new nat[|lat|](i requires 0 <= i < |lat| => lat[i]);
    assert v[..] == lat;
    SortInPlace(v, NatLeq);
    var n := v.Length;
    line := LatencySnapshot(n, v[0], v[n - 1],
      v[CppRank(n, 0.50)], v[CppRank(n, 0.90)], v[CppRank(n, 0.99)], v[CppRank(n, 0.999)]);
  }

  lemma TimesSorted(ts: seq<nat>)
    ensures |SortedTimes(ts)| == |ts|
    ensures forall i, j | 0 <= i <= j < |ts| :: SortedTimes(ts)[i] <= SortedTimes(ts)[j]
  {
    SortSorted(ts, NatLeq);
    forall i, j | 0 <= i <= j < |ts| ensures SortedTimes(ts)[i] <= SortedTimes(ts)[j] {
      assert i < j ==> NatLeq(Sort(ts, NatLeq)[i], Sort(ts, NatLeq)[j]);
    }
  }

  /** The i-th smallest time is at most `t` exactly when more than `i` times are. */
  lemma TimeRank(ts: seq<nat>, t: nat, i: nat)
    requires i < |ts|
    ensures SortedTimes(ts)[i] <= t <==> Count(ts, UpToNat(t)) > i
  {
    RankAtMost(ts, NatLeq, t, i);
    forall x: nat ensures AtMost(NatLeq, t)(x) == UpToNat(t)(x) {
      assert AtMost(NatLeq, t)(x) == NatLeq(x, t);
    }
    CountMonotone(ts, AtMost(NatLeq, t), ts, UpToNat(t));
    CountMonotone(ts, UpToNat(t), ts, AtMost(NatLeq, t));
  }

  // ---------- the two formulas ----------

  /** The cap in the Rust formula never binds below p = 1, and the libzmq rank is the same or one lower. */
  lemma RanksAdjacent(n: nat, p: real)
    requires n > 0 && 0.0 <= p < 1.0
    ensures RustRank(n, p) == (n as real * p).Floor
    ensures CppRank(n, p) <= RustRank(n, p) <= CppRank(n, p) + 1 <= n
  {
    ScaledIndex(n, p);
  }

  lemma RankMonotone(n: nat, p: real, q: real)
    requires n > 0 && 0.0 <= p <= q < 1.0
    ensures RustRank(n, p) <= RustRank(n, q) && CppRank(n, p) <= CppRank(n, q)
  {
    var x, x' := n as real * p, n as real * q;
    var y, y' := p * (n - 1) as real, q * (n - 1) as real;
    RankIs(n, p, x, y);
    RankIs(n, q, x', y');
    ScaleMonotone(n as real, p, q, x, x');
    ScaleMonotone((n - 1) as real, p, q, y, y');
  }

  lemma RankIs(n: nat, p: real, x: real, y: real)
    requires n > 0 && 0.0 <= p < 1.0 && x == n as real * p && y == p * (n - 1) as real
    ensures RustRank(n, p) == x.Floor && CppRank(n, p) == y.Floor
  {
    RanksAdjacent(n, p);
  }

  lemma ScaleMonotone(n: real, p: real, q: real, x: real, y: real)
    requires p <= q && n >= 0.0 && x == n * p && y == n * q
    ensures x.Floor <= y.Floor
  {
    assert n * (q - p) >= 0.0;
    assert x <= y;
  }

  /** Both printers report their percentiles in order, between the extremes. */
  lemma SnapshotsOrdered(ts: seq<nat>)
    ensures PercentilesOrdered(RustSnapshot(ts)) && PercentilesOrdered(CppSnapshot(ts))
  {
    if |ts| > 0 {
      TimesSorted(ts);
      RankMonotone(|ts|, 0.50, 0.90);
      RankMonotone(|ts|, 0.90, 0.99);
      RankMonotone(|ts|, 0.99, 0.999);
    }
  }

  /** On the same times libzmq never reports a higher percentile, and otherwise the next lower order statistic. */
  lemma CppReportsSameOrPredecessor(ts: seq<nat>, p: real)
    requires |ts| > 0 && 0.0 <= p < 1.0
    ensures var v, i, j := SortedTimes(ts), CppRank(|ts|, p), RustRank(|ts|, p);
            v[i] <= v[j] && (j == i || j == i + 1)
  {
    RanksAdjacent(|ts|, p);
    TimesSorted(ts);
  }

  /** `v` is the least time that strictly more than `x` of the times do not exceed. */
  ghost predicate IsLeast(ts: seq<nat>, x: real, v: nat) {
    forall t: nat :: v <= t <==> Count(ts, UpToNat(t)) as real > x
  }

  lemma LeastAtRank(ts: seq<nat>, i: nat, x: real)
    requires i < |ts| && x >= 0.0 && i == x.Floor
    ensures IsLeast(ts, x, SortedTimes(ts)[i])
  {
    forall t: nat ensures SortedTimes(ts)[i] <= t <==> Count(ts, UpToNat(t)) as real > x {
      TimeRank(ts, t, i);
    }
  }

  /** The Rust percentile p is the least time that strictly more than p*n of the n times do not exceed. */
  lemma RustPercentileIsLeast(ts: seq<nat>, p: real, x: real)
    requires |ts| > 0 && 0.0 <= p < 1.0 && x == |ts| as real * p
    ensures IsLeast(ts, x, SortedTimes(ts)[RustRank(|ts|, p)])
  {
    RanksAdjacent(|ts|, p);
    ScaledIndex(|ts|, p);
    LeastAtRank(ts, RustRank(|ts|, p), x);
  }

  /** The libzmq percentile p is the least time that strictly more than p*(n-1) of the n times do not exceed. */
  lemma CppPercentileIsLeast(ts: seq<nat>, p: real, x: real)
    requires |ts| > 0 && 0.0 <= p < 1.0 && x == p * (|ts| - 1) as real
    ensures IsLeast(ts, x, SortedTimes(ts)[CppRank(|ts|, p)])
  {
    ScaledIndex(|ts|, p);
    LeastAtRank(ts, CppRank(|ts|, p), x);
  }

  lemma ExtremesAreLeast(ts: seq<nat>)
    requires |ts| > 0
    ensures IsLeast(ts, 0.0, SortedTimes(ts)[0]) && IsLeast(ts, (|ts| - 1) as real, SortedTimes(ts)[|ts| - 1])
  {
    LeastAtRank(ts, 0, 0.0);
    LeastAtRank(ts, |ts| - 1, (|ts| - 1) as real);
  }

  /** What every figure of the Rust line means, in terms of how many times it covers. */
  lemma RustSnapshotMeans(ts: seq<nat>)
    requires |ts| > 0
    ensures var s, n := RustSnapshot(ts), |ts| as real;
            && s.count == |ts| && IsLeast(ts, 0.0, s.minNs) && IsLeast(ts, n - 1.0, s.maxNs)
            && IsLeast(ts, 0.50 * n, s.p50Ns) && IsLeast(ts, 0.90 * n, s.p90Ns)
            && IsLeast(ts, 0.99 * n, s.p99Ns) && IsLeast(ts, 0.999 * n, s.p999Ns)
  {
    var n := |ts| as real;
    ExtremesAreLeast(ts);
    RustPercentileIsLeast(ts, 0.50, 0.50 * n);
    RustPercentileIsLeast(ts, 0.90, 0.90 * n);
    RustPercentileIsLeast(ts, 0.99, 0.99 * n);
    RustPercentileIsLeast(ts, 0.999, 0.999 * n);
  }

  /** The same for the libzmq line, whose percentiles count over n - 1. */
  lemma CppSnapshotMeans(ts: seq<nat>)
    requires |ts| > 0
    ensures var s, m := CppSnapshot(ts), (|ts| - 1) as real;
            && s.count == |ts| && IsLeast(ts, 0.0, s.minNs) && IsLeast(ts, m, s.maxNs)
            && IsLeast(ts, 0.50 * m, s.p50Ns) && IsLeast(ts, 0.90 * m, s.p90Ns)
            && IsLeast(ts, 0.99 * m, s.p99Ns) && IsLeast(ts, 0.999 * m, s.p999Ns)
  {
    var m := (|ts| - 1) as real;
    ExtremesAreLeast(ts);
    CppPercentileIsLeast(ts, 0.50, 0.50 * m);
    CppPercentileIsLeast(ts, 0.90, 0.90 * m);
    CppPercentileIsLeast(ts, 0.99, 0.99 * m);
    CppPercentileIsLeast(ts, 0.999, 0.999 * m);
  }

  /** Without a round trip both lines hold seven zeros. */
  lemma NoRoundTrips()
    ensures RustSnapshot([]) == CppSnapshot([]) == LatencySnapshot(0, 0, 0, 0, 0, 0, 0)
  {
  }
}
