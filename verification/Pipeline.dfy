/**
  From measurement to written record: what the loop, the percentile printers and
  the aggregation guarantee together, over every sequence of outcomes.
*/
module Pipeline {
  import opened Wrappers
  import opened Sorting
  import opened Quantiles
  import opened Stats
  import opened Robustness
  import opened FilterBounds
  import opened StableVerdict
  import opened Records
  import opened Aggregation
  import opened ReplicationLoop
  import LatencyRanks

  /** Every record in the accumulator is the outcome of some attempt. */
  lemma {:induction false} RecordsAreOutcomes(stream: Stream, m: nat)
    ensures forall r | r in Successes(stream, m) :: exists a: nat :: a < m && stream(a) == Some(r)
  {
    if m > 0 {
      RecordsAreOutcomes(stream, m - 1);
      forall r | r in Successes(stream, m) ensures exists a: nat :: a < m && stream(a) == Some(r) {
        if r in Successes(stream, m - 1) {
          var a: nat :| a < m - 1 && stream(a) == Some(r);
        } else {
          assert stream(m - 1) == Some(r);
        }
      }
    }
  }

  lemma FinalRecordsAreOutcomes(kind: Kind, pol: Policy, stream: Stream, s: CellState)
    requires s == Alone(kind, pol, stream, pol.maxReplicates)
    ensures s.primary == Primaries(kind, s.records)
    ensures forall r | r in s.records :: exists a: nat :: stream(a) == Some(r)
  {
    AloneInvariant(kind, pol, stream, pol.maxReplicates);
    if pol.maxReplicates > 0 {
      AloneIsPrefix(kind, pol, stream, pol.maxReplicates);
      RecordsAreOutcomes(stream, StopAt(kind, pol, stream));
    }
  }

  /** The outcome's latency figures are what one of the two printers reports for some round-trip times. */
  ghost predicate Printed(r: CellRecord) {
    exists ts: seq<nat> :: r.latency == LatencyRanks.RustSnapshot(ts) || r.latency == LatencyRanks.CppSnapshot(ts)
  }

  /** If every outcome's figures come from a printer, the written record's percentiles are in order. */
  lemma WrittenPercentilesOrdered(kind: Kind, pol: Policy, rep: Replication, stream: Stream, s: CellState)
    requires s == Alone(kind, pol, stream, pol.maxReplicates)
    requires forall a: nat :: stream(a).Some? ==> Printed(stream(a).value)
    ensures |s.records| == |s.primary|
    ensures var r := WrittenRecord(s, rep); r.Some? ==> PercentilesOrdered(r.value.latency)
  {
    FinalRecordsAreOutcomes(kind, pol, stream, s);
    forall r | r in s.records ensures PercentilesOrdered(r.latency) {
      var a: nat :| stream(a) == Some(r);
      var ts: seq<nat> :| r.latency == LatencyRanks.RustSnapshot(ts) || r.latency == LatencyRanks.CppSnapshot(ts);
      LatencyRanks.SnapshotsOrdered(ts);
    }
    AggregationKeepsPercentileOrder(s.records, s.primary, rep);
  }

  /**
    With the default mad_k, or any with mad_k*1.4826 >= 1, a cell with a majority
    of clean replicates is always written, and with a headline figure within
    1/(mad_k*1.4826) of their width, however its other replicates turned out.
  */
  lemma WrittenHeadlineResistsOutliers(kind: Kind, pol: Policy, rep: Replication, stream: Stream, s: CellState,
                                       a: real, b: real, margin: real)
    requires s == Alone(kind, pol, stream, pol.maxReplicates)
    requires rep.madK * MAD_SCALE >= 1.0 && margin * (rep.madK * MAD_SCALE) == b - a
    requires Majority(s.primary, In(a, b))
    ensures |s.records| == |s.primary|
    ensures var r := WrittenRecord(s, rep);
            r.Some? && HeadlineWithin(kind, r.value, a - margin, b + margin)
  {
    FinalRecordsAreOutcomes(kind, pol, stream, s);
    AlwaysWritten(s, rep);
    HeadlineResistsOutliers(kind, s.records, rep, a, b, margin);
  }

  lemma AlwaysWritten(s: CellState, rep: Replication)
    requires |s.records| == |s.primary| && |s.records| > 0 && rep.madK * MAD_SCALE >= 1.0
    ensures WrittenRecord(s, rep).Some?
  {
    KeptTogether(s.records, s.primary, rep.madK);
    FilterKeepsHalf(s.primary, rep.madK);
  }

  lemma DirtyIsUnstable(primary: seq<real>, rep: Replication, dropped: nat, total: nat)
    requires dropped == |Dropped(primary, rep.madK)| && total == |primary| && TooMany(dropped, total, rep.maxOutlierFrac)
    ensures !Converged(primary, rep)
  {
    var s := Summarize(primary, rep.madK, rep.targetRelIqr, rep.maxOutlierFrac);
    SummaryDrops(primary, rep.madK, rep.targetRelIqr, rep.maxOutlierFrac, s);
    TooManyIsUnstable(s, rep.targetRelIqr, rep.maxOutlierFrac);
  }

  /**
    A cell of which the filter rejects more than the permitted share is not stopped
    early: it uses every attempt, and if it is written, it is written as unstable.
  */
  lemma DirtyCellNeverTrusted(kind: Kind, rep: Replication, stream: Stream, pol: Policy, s: CellState)
    requires rep.maxReplicates > 0 && pol == PolicyOf(rep) && s == Alone(kind, pol, stream, rep.maxReplicates)
    requires TooMany(|Dropped(s.primary, rep.madK)|, |s.primary|, rep.maxOutlierFrac)
    ensures |s.records| == |s.primary|
    ensures |s.records| + s.failures == rep.maxReplicates
    ensures var r := WrittenRecord(s, rep); r.Some? ==> r.value.stability.Some? && !r.value.stability.value.stable
  {
    DirtyIsUnstable(s.primary, rep, |Dropped(s.primary, rep.madK)|, |s.primary|);
    UnstableNeverTrusted(kind, rep, stream, pol, s);
  }

  lemma UnstableNeverTrusted(kind: Kind, rep: Replication, stream: Stream, pol: Policy, s: CellState)
    requires rep.maxReplicates > 0 && pol == PolicyOf(rep) && s == Alone(kind, pol, stream, rep.maxReplicates)
    requires !Converged(s.primary, rep)
    ensures |s.records| == |s.primary|
    ensures |s.records| + s.failures == rep.maxReplicates
    ensures var r := WrittenRecord(s, rep); r.Some? ==> r.value.stability.Some? && !r.value.stability.value.stable
  {
    ConfiguredStop(kind, rep, stream, pol, s);
    WrittenStability(s, rep, |KeptRecords(s.records, s.primary, rep.madK)|);
  }
}
