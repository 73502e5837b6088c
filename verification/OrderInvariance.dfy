/**
  The order in which a cell's replicates ran does not matter to its aggregated
  record (orchestrator/src/main.rs): reordered replicates give the same figures.
*/
module OrderInvariance {
  import opened Wrappers
  import opened Sorting
  import opened Quantiles
  import opened Stats
  import opened Records
  import opened Aggregation
  import opened Equivariance

  /** The median of a field sees only the multiset of the records. */
  lemma FieldRank(records: seq<CellRecord>, f: CellRecord -> real, t: real, i: nat)
    requires i < |records|
    ensures Sorted(Field(records, f))[i] <= t <==> Count(records, (r: CellRecord) => f(r) <= t) > i
  {
    var p := (r: CellRecord) => f(r) <= t;
    CountMonotone(records, p, Field(records, f), UpTo(t));
    CountMonotone(Field(records, f), UpTo(t), records, p);
    Rank(Field(records, f), t, i);
  }

  lemma FieldRankPermutation(records: seq<CellRecord>, records': seq<CellRecord>, f: CellRecord -> real, t: real, i: nat)
    requires multiset(records) == multiset(records') && i < |records| == |records'|
    ensures Sorted(Field(records, f))[i] <= t <==> Sorted(Field(records', f))[i] <= t
  {
    FieldRank(records, f, t, i);
    FieldRank(records', f, t, i);
    CountPermutation(records, records', (r: CellRecord) => f(r) <= t);
  }

  lemma FieldPermutation(records: seq<CellRecord>, records': seq<CellRecord>, f: CellRecord -> real)
    requires multiset(records) == multiset(records')
    ensures Sorted(Field(records, f)) == Sorted(Field(records', f))
    ensures MedianF64(records, f) == MedianF64(records', f)
  {
    assert |records| == |multiset(records)| == |records'|;
    var v, v' := Sorted(Field(records, f)), Sorted(Field(records', f));
    forall i: nat | i < |records| ensures v[i] == v'[i] {
      FieldRankPermutation(records, records', f, v[i], i);
      FieldRankPermutation(records, records', f, v'[i], i);
    }
  }

  lemma CounterPermutation(records: seq<CellRecord>, records': seq<CellRecord>, f: CellRecord -> nat)
    requires multiset(records) == multiset(records')
    ensures MedianU64(records, f) == MedianU64(records', f)
  {
    FieldPermutation(records, records', AsReal(f));
  }

  /** Every merged figure sees only the multiset of the surviving records. */
  lemma MergePermutation(kept: seq<CellRecord>, kept': seq<CellRecord>, s: Stability)
    requires multiset(kept) == multiset(kept') && |kept| > 0 && |kept'| > 0
    ensures SameFigures(Merge(kept, s), Merge(kept', s))
  {
    LatencyPermutation(kept, kept');
    CountersPermutation(kept, kept');
    FieldPermutation(kept, kept', Rate);
    FieldPermutation(kept, kept', Mbps);
    FieldPermutation(kept, kept', Cpu);
    FieldPermutation(kept, kept', CpuSender);
    FieldPermutation(kept, kept', CpuReceiver);
  }

  lemma LatencyPermutation(kept: seq<CellRecord>, kept': seq<CellRecord>)
    requires multiset(kept) == multiset(kept')
    ensures MergeLatency(kept) == MergeLatency(kept')
  {
    CounterPermutation(kept, kept', MessageCount);
    CounterPermutation(kept, kept', MinNs);
    CounterPermutation(kept, kept', MaxNs);
    CounterPermutation(kept, kept', P50);
    CounterPermutation(kept, kept', P90);
    CounterPermutation(kept, kept', P99);
    CounterPermutation(kept, kept', P999);
  }

  lemma CountersPermutation(kept: seq<CellRecord>, kept': seq<CellRecord>)
    requires multiset(kept) == multiset(kept')
    ensures MergeSyscalls(kept) == MergeSyscalls(kept') && MergeSched(kept) == MergeSched(kept')
    ensures MedianU64(kept, PeakMemory) == MedianU64(kept', PeakMemory)
  {
    CounterPermutation(kept, kept', EpollCtl);
    CounterPermutation(kept, kept', EpollWait);
    CounterPermutation(kept, kept', SendMsg);
    CounterPermutation(kept, kept', RecvMsg);
    CounterPermutation(kept, kept', IoUringEnter);
    CounterPermutation(kept, kept', Voluntary);
    CounterPermutation(kept, kept', Involuntary);
    CounterPermutation(kept, kept', PeakMemory);
  }

  /** The records agree in everything measured; only whose they are and their stability block may differ. */
  ghost predicate SameFigures(r: CellRecord, r': CellRecord) {
    r' == r.(runId := r'.runId, cellId := r'.cellId, entry := r'.entry, stability := r'.stability)
  }

  // ---------- the survivors ----------

  lemma PrimariesPermutation(kind: Kind, records: seq<CellRecord>, records': seq<CellRecord>)
    requires multiset(records) == multiset(records')
    ensures multiset(Primaries(kind, records)) == multiset(Primaries(kind, records'))
  {
    forall v: real ensures multiset(Primaries(kind, records))[v] == multiset(Primaries(kind, records'))[v] {
      PrimaryMultiplicity(kind, records, v);
      PrimaryMultiplicity(kind, records', v);
      CountPermutation(records, records', HasPrimary(kind, v));
    }
  }

  function HasPrimary(kind: Kind, v: real): CellRecord -> bool { (r: CellRecord) => PrimaryMetric(kind, r) == v }

  lemma {:induction false} PrimaryMultiplicity(kind: Kind, records: seq<CellRecord>, v: real)
    ensures multiset(Primaries(kind, records))[v] == Count(records, HasPrimary(kind, v))
  {
    if |records| > 0 {
      PrimaryMultiplicity(kind, records[1..], v);
      PrimariesCons(kind, records[0], records[1..]);
      assert records == [records[0]] + records[1..];
    }
  }

  function NearPrimary(kind: Kind, all: bool, m: real, bound: real): CellRecord -> bool {
    (r: CellRecord) => Near(all, m, bound)(PrimaryMetric(kind, r))
  }

  /** Reordered replicates keep the same survivors. */
  lemma SurvivorsPermutation(kind: Kind, records: seq<CellRecord>, records': seq<CellRecord>, k: real)
    requires multiset(records) == multiset(records')
    ensures multiset(KeptRecords(records, Primaries(kind, records), k)) ==
            multiset(KeptRecords(records', Primaries(kind, records'), k))
  {
    var ps, ps' := Primaries(kind, records), Primaries(kind, records');
    PrimariesPermutation(kind, records, records');
    SpreadPermutation(ps, ps');
    SurvivorsAre(records, ps, Median(ps), Mad(ps), k);
    SurvivorsAre(records', ps', Median(ps), Mad(ps), k);
    SurvivorsAround(kind, records, records', Median(ps), Mad(ps), k);
  }

  lemma SurvivorsAre(records: seq<CellRecord>, primary: seq<real>, m: real, s: real, k: real)
    requires |records| == |primary| && m == Median(primary) && s == Mad(primary)
    ensures KeptRecords(records, primary, k) == Select(records, MaskAround(primary, m, s, k), true)
  {
  }

  lemma SurvivorsAround(kind: Kind, records: seq<CellRecord>, records': seq<CellRecord>, m: real, s: real, k: real)
    requires multiset(records) == multiset(records')
    ensures multiset(Select(records, MaskAround(Primaries(kind, records), m, s, k), true)) ==
            multiset(Select(records', MaskAround(Primaries(kind, records'), m, s, k), true))
  {
    assert |records| == |multiset(records)| == |records'|;
    var all, bound := |records| < 3 || s == 0.0, k * s;
    MaskIsNear(Primaries(kind, records), m, s, k, Near(all, m, bound));
    MaskIsNear(Primaries(kind, records'), m, s, k, Near(all, m, bound));
    SelectPermutation(records, records', MaskAround(Primaries(kind, records), m, s, k),
                      MaskAround(Primaries(kind, records'), m, s, k), NearPrimary(kind, all, m, bound));
  }

  /**
    Reordering a cell's replicates leaves it aggregated or not, and every measured
    field of the aggregate as it was; of the stability block only the list of
    samples changes.
  */
  lemma AggregateOrderInvariant(kind: Kind, records: seq<CellRecord>, records': seq<CellRecord>, rep: Replication)
    requires multiset(records) == multiset(records')
    ensures var r, r' := AggregateCell(records, Primaries(kind, records), rep), AggregateCell(records', Primaries(kind, records'), rep);
            && (r.Some? <==> r'.Some?)
            && (r.Some? ==>
                  && SameFigures(r.value, r'.value)
                  && r.value.stability.Some?
                  && r'.value.stability == Some(r.value.stability.value.(samples := Primaries(kind, records'))))
  {
    var ps, ps' := Primaries(kind, records), Primaries(kind, records');
    var kept, kept' := KeptRecords(records, ps, rep.madK), KeptRecords(records', ps', rep.madK);
    SurvivorsPermutation(kind, records, records', rep.madK);
    PrimariesPermutation(kind, records, records');
    SummaryOrderInvariant(ps, ps', rep.madK, rep.targetRelIqr, rep.maxOutlierFrac);
    assert |kept| == |multiset(kept)| == |kept'|;
    if |kept| > 0 {
      AggregatesOf(records, ps, rep, kept);
      AggregatesOf(records', ps', rep, kept');
      MergePermutation(kept, kept', Summarize(ps, rep.madK, rep.targetRelIqr, rep.maxOutlierFrac));
    }
  }

  lemma AggregatesOf(records: seq<CellRecord>, primary: seq<real>, rep: Replication, kept: seq<CellRecord>)
    requires |records| == |primary| && kept == KeptRecords(records, primary, rep.madK) && |kept| > 0
    ensures AggregateCell(records, primary, rep) ==
            Some(Merge(kept, Summarize(primary, rep.madK, rep.targetRelIqr, rep.maxOutlierFrac)))
  {
  }
}
