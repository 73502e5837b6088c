/**
  The Hampel mask and the summary (orchestrator/src/stats.rs) in terms of counts and
  the published constants, and what a stable verdict says of the spread.
*/
module StableVerdict {
  import opened Sorting
  import opened Quantiles
  import opened Stats
  import opened Robustness
  import opened FilterBounds

  // ---------- the mask and the summary, field by field ----------

  /** The distances of the samples from `m`. */
  function Distances(xs: seq<real>, m: real): (ds: seq<real>)
    ensures |ds| == |xs|
  {
    seq(|xs|, i requires 0 <= i < |xs| => if xs[i] < m then m - xs[i] else xs[i] - m)
  }

  lemma DistancesAreDeviations(xs: seq<real>, m: real)
    ensures Distances(xs, m) == Deviations(xs, m)
  {
  }

  /**
    The Hampel rule: with `m` the middle sample and `d` the middle distance from it,
    a sample is kept when there are fewer than three, when `d` is zero, or when it
    lies within k * 1.4826 * d of `m`.
  */
  lemma MaskIff(xs: seq<real>, k: real, m: real, d: real, bound: real, i: nat)
    requires i < |xs| && IsMiddle(xs, m) && IsMiddle(Distances(xs, m), d) && bound == k * (1.4826 * d)
    ensures HampelMask(xs, k)[i] <==> |xs| < 3 || d == 0.0 || Distances(xs, m)[i] <= bound
  {
    MedianIsMiddle(xs, m);
    DistancesAreDeviations(xs, m);
    MedianIsMiddle(Distances(xs, m), d);
    MaskIffScaled(xs, k, m, d, 1.4826 * d, bound, i);
  }

  lemma MaskIffScaled(xs: seq<real>, k: real, m: real, d: real, scale: real, bound: real, i: nat)
    requires i < |xs| && scale == 1.4826 * d && bound == k * scale
    ensures MaskAround(xs, m, scale, k)[i] <==> |xs| < 3 || d == 0.0 || Distances(xs, m)[i] <= bound
  {
  }

  /** `s` is the summary of the samples, and `kept` their survivors. */
  ghost predicate Summarizes(s: Stability, samples: seq<real>, kept: seq<real>, k: real, target: real, frac: real) {
    s == Summarize(samples, k, target, frac) && kept == Kept(samples, k)
  }

  /** Every count, the extremes and the recorded samples. */
  lemma SummaryCounts(s: Stability, samples: seq<real>, kept: seq<real>, k: real, target: real, frac: real)
    requires Summarizes(s, samples, kept, k, target, frac)
    ensures s.n == |kept| && s.replicates == |samples| && s.outliersDropped == |samples| - |kept| && s.samples == samples
    ensures kept != [] ==> s.min in kept && s.max in kept && forall x | x in kept :: s.min <= x <= s.max
    ensures kept == [] ==> s.min == s.max == s.median == s.mad == s.iqr == s.relIqr == 0.0
  {
    SelectCount(samples, HampelMask(samples, k));
  }

  /** The median, the scaled deviation and the quartile range, of the survivors. */
  lemma SummaryCentre(s: Stability, samples: seq<real>, kept: seq<real>, k: real, target: real, frac: real, d: real)
    requires Summarizes(s, samples, kept, k, target, frac) && kept != [] && IsMiddle(Distances(kept, s.median), d)
    ensures IsMiddle(kept, s.median)
    ensures s.mad == 1.4826 * d
    ensures s.iqr == Quantile(kept, 3.0 / 4.0) - Quantile(kept, 1.0 / 4.0)
  {
    MedianIsMiddle(kept, s.median);
    DistancesAreDeviations(kept, s.median);
    MedianIsMiddle(Distances(kept, s.median), d);
  }

  /** The relative spread times the median is the spread, up to signs; without a median it is zero. */
  lemma SummaryRelative(s: Stability, samples: seq<real>, kept: seq<real>, k: real, target: real, frac: real)
    requires Summarizes(s, samples, kept, k, target, frac)
    ensures s.relIqr >= 0.0
    ensures if s.median == 0.0 then s.relIqr == 0.0 else s.relIqr * Abs(s.median) == s.iqr
  {
    KeptOrdered(kept);
    RelativeTimes(s.iqr, s.median, s.relIqr);
  }

  lemma RelativeTimes(iqr: real, median: real, r: real)
    requires iqr >= 0.0 && r == Relative(iqr, median)
    ensures if median == 0.0 then r == 0.0 else r * Abs(median) == iqr
  {
    if median != 0.0 {
      var x := iqr / median;
      assert x * median == iqr;
    }
  }

  /** `s` summarises some samples under the target and the permitted share of rejections. */
  ghost predicate IsSummary(s: Stability, target: real, frac: real) {
    exists samples: seq<real>, k: real :: s == Summarize(samples, k, target, frac)
  }

  /**
    The verdict on the summary's own fields: at least three survivors, a relative
    spread within the target, and no more than the permitted share rejected.
  */
  lemma VerdictIff(s: Stability, target: real, frac: real)
    requires IsSummary(s, target, frac)
    ensures s.stable <==>
              && s.n >= 3 && s.relIqr <= target
              && s.replicates > 0 && s.outliersDropped as real <= frac * s.replicates as real
  {
    VerdictFields(s, target, frac);
    GateIff(s, target, frac);
  }

  lemma VerdictFields(s: Stability, target: real, frac: real)
    requires IsSummary(s, target, frac)
    ensures s.stable == IsStable(s.n, s.relIqr, s.outliersDropped, s.replicates, target, frac)
  {
  }

  lemma GateIff(s: Stability, target: real, frac: real)
    requires s.stable == IsStable(s.n, s.relIqr, s.outliersDropped, s.replicates, target, frac)
    ensures s.stable <==>
              && s.n >= 3 && s.relIqr <= target
              && s.replicates > 0 && s.outliersDropped as real <= frac * s.replicates as real
  {
    if s.replicates > 0 {
      ShareIff(s.outliersDropped as real, s.replicates as real, frac);
    }
  }

  /** More than the permitted share. */
  ghost predicate TooMany(dropped: nat, total: nat, frac: real) { dropped as real > frac * total as real }

  lemma TooManyIsUnstable(s: Stability, target: real, frac: real)
    requires IsSummary(s, target, frac) && TooMany(s.outliersDropped, s.replicates, frac)
    ensures !s.stable
  {
    VerdictIff(s, target, frac);
  }

  lemma SummaryDrops(samples: seq<real>, k: real, target: real, frac: real, s: Stability)
    requires s == Summarize(samples, k, target, frac)
    ensures s.outliersDropped == |Dropped(samples, k)| && s.replicates == |samples| && IsSummary(s, target, frac)
  {
  }

  lemma ShareIff(x: real, y: real, frac: real)
    requires y > 0.0
    ensures x / y <= frac <==> x <= frac * y
  {
    var q := x / y;
    assert q * y == x;
    if q <= frac {
      assert (frac - q) * y >= 0.0;
    } else {
      assert (q - frac) * y > 0.0;
    }
  }

  // ---------- what the verdict says of the spread ----------

  /** The spread is at most the target's share of the median. */
  ghost predicate Tight(s: Stability, target: real) { s.iqr <= target * Abs(s.median) }

  lemma QuotientBound(iqr: real, median: real, target: real, r: real)
    requires median != 0.0 && iqr >= 0.0 && r == Abs(iqr / median) && r <= target
    ensures iqr <= target * Abs(median)
  {
    var x := iqr / median;
    assert iqr == x * median;
    assert r * Abs(median) == iqr;
    assert (target - r) * Abs(median) >= 0.0;
  }

  lemma TightIff(s: Stability, target: real)
    requires s.iqr >= 0.0 && s.relIqr == Relative(s.iqr, s.median) <= target
    ensures Tight(s, target) <==> s.median != 0.0 || s.iqr == 0.0
  {
    if s.median != 0.0 {
      QuotientBound(s.iqr, s.median, target, s.relIqr);
    } else {
      assert target * Abs(s.median) == 0.0;
    }
  }

  lemma StableRelative(s: Stability, target: real, frac: real)
    requires IsSummary(s, target, frac) && s.stable
    ensures s.iqr >= 0.0 && s.relIqr == Relative(s.iqr, s.median) && s.relIqr <= target
  {
    var samples: seq<real>, k: real :| s == Summarize(samples, k, target, frac);
    KeptOrdered(Kept(samples, k));
  }

  /**
    A stable verdict bounds the surviving spread by the target's share of the
    median exactly when the median is not zero, or there is no spread at all: a zero
    median makes the relative spread zero whatever the spread is.
  */
  lemma StableIsTightIff(s: Stability, target: real, frac: real)
    requires IsSummary(s, target, frac) && s.stable
    ensures Tight(s, target) <==> s.median != 0.0 || s.iqr == 0.0
  {
    StableRelative(s, target, frac);
    TightIff(s, target);
  }

  lemma SortedByCounts(xs: seq<real>, i: nat, v: real)
    requires i < |xs| && Count(xs, UpTo(v)) > i && Count(xs, Under(v)) <= i
    ensures Sorted(xs)[i] == v
  {
    Rank(xs, v, i);
  }

  /** Three replicates that moved nothing and two that did. */
  function MostlyZero(c: real): (xs: seq<real>)
    ensures |xs| == 5
  {
    ThreeBlocks(3, 0.0, 2, c, 0, c)
  }

  lemma MostlyZeroSpread(c: real)
    requires c > 0.0
    ensures Median(MostlyZero(c)) == 0.0 && Iqr(MostlyZero(c)) == c
  {
    var xs := MostlyZero(c);
    ThreeBlocksMedian(3, 0.0, 2, c, 0, c, 0.0);
    CountThree(3, 0.0, 2, c, 0, c, UpTo(0.0));
    CountThree(3, 0.0, 2, c, 0, c, Under(0.0));
    CountThree(3, 0.0, 2, c, 0, c, UpTo(c));
    CountThree(3, 0.0, 2, c, 0, c, Under(c));
    SortedByCounts(xs, 1, 0.0);
    SortedByCounts(xs, 3, c);
    QuantileBetweenKnots(xs, 1, 0.0, 0.25);
    QuantileBetweenKnots(xs, 3, 0.0, 0.75);
  }

  /** Under every policy a cell can be called stable with a spread beyond any bound, three of its five replicates being zero. */
  lemma ZeroMedianHidesSpread(k: real, target: real, frac: real, bound: real) returns (xs: seq<real>)
    requires target >= 0.0 && frac >= 0.0
    ensures |xs| == 5 && Summarize(xs, k, target, frac).stable && Summarize(xs, k, target, frac).iqr > bound
  {
    var c := Abs(bound) + 1.0;
    xs := MostlyZero(c);
    MostlyZeroSpread(c);
    CountThree(3, 0.0, 2, c, 0, c, Equals(0.0));
    MadZeroIffMajorityTied(xs);
    KeepAll(xs, HampelMask(xs, k));
    SelectCount(xs, HampelMask(xs, k));
  }
}
