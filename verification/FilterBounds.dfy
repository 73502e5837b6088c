/**
  What remains after the Hampel filter: the exact bound on the median of the
  survivors, and for which numbers of samples the filter can drop them all.
*/
module FilterBounds {
  import opened Numbers
  import opened Sorting
  import opened Quantiles
  import opened Stats
  import opened Robustness

  // ---------- counting survivors ----------

  lemma {:induction false} SelectedCount<T>(xs: seq<T>, mask: seq<bool>, keep: T -> bool, p: T -> bool, both: T -> bool)
    requires |mask| == |xs| && forall i | 0 <= i < |xs| :: mask[i] == keep(xs[i])
    requires forall i | 0 <= i < |xs| :: both(xs[i]) == (keep(xs[i]) && p(xs[i]))
    ensures Count(Select(xs, mask, true), p) == Count(xs, both)
  {
    if |xs| > 0 {
      SelectedCount(xs[1..], mask[1..], keep, p, both);
      CountAppend(if mask[0] then [xs[0]] else [], Select(xs[1..], mask[1..], true), p);
    }
  }

  /** When every sample with `p` survives, the survivors hold all of them. */
  lemma {:induction false} AllSurvive<T>(xs: seq<T>, mask: seq<bool>, p: T -> bool)
    requires |mask| == |xs| && forall i | 0 <= i < |xs| && p(xs[i]) :: mask[i]
    ensures Count(Select(xs, mask, true), p) == Count(xs, p)
  {
    if |xs| > 0 {
      AllSurvive(xs[1..], mask[1..], p);
      CountAppend(if mask[0] then [xs[0]] else [], Select(xs[1..], mask[1..], true), p);
    }
  }

  lemma {:induction false} SomeDropped<T>(xs: seq<T>, mask: seq<bool>, i: nat)
    requires |mask| == |xs| && i < |xs| && !mask[i]
    ensures |Select(xs, mask, true)| < |xs|
  {
    if i > 0 {
      SomeDropped(xs[1..], mask[1..], i - 1);
    }
  }

  // ---------- the median of the survivors ----------

  /**
    How far the survivors' median may leave an interval of the given width that
    holds a strict majority: with c = k*1.4826, at most width/c if c is at least 1,
    and c*width below.
  */
  ghost predicate IsMargin(k: real, width: real, margin: real) {
    if k * MAD_SCALE >= 1.0 then margin * (k * MAD_SCALE) == width else margin == k * MAD_SCALE * width
  }

  /** At least half of the samples are within the median deviation of the centre. */
  lemma NearCount(xs: seq<real>, m: real, d: real, lo: real, hi: real)
    requires |xs| > 0 && d == Median(Deviations(xs, m)) && lo == m - d && hi == m + d
    ensures 2 * Count(xs, In(lo, hi)) >= |xs|
  {
    HalfWithinMedian(Deviations(xs, m), d);
    NearIsWithin(xs, m, d, lo, hi);
  }

  lemma NearIsWithin(xs: seq<real>, m: real, d: real, lo: real, hi: real)
    requires lo == m - d && hi == m + d
    ensures Count(Deviations(xs, m), UpTo(d)) <= Count(xs, In(lo, hi))
  {
    forall j: nat | j < |xs| && UpTo(d)(Deviations(xs, m)[j]) ensures In(lo, hi)(xs[j]) {
      assert Abs(xs[j] - m) <= d;
    }
    CountMonotone(Deviations(xs, m), UpTo(d), xs, In(lo, hi));
  }

  /** When a sample is dropped and all those of one half survive, they outnumber the other survivors. */
  lemma HalfOutnumbers(xs: seq<real>, near: real -> bool, i: nat, mask: seq<bool>)
    requires i < |xs| == |mask| && !mask[i] && 2 * Count(xs, near) >= |xs|
    requires forall j | 0 <= j < |xs| && near(xs[j]) :: mask[j]
    ensures Majority(Select(xs, mask, true), near)
  {
    AllSurvive(xs, mask, near);
    SomeDropped(xs, mask, i);
  }

  lemma SurvivorsNearMedian(xs: seq<real>, m: real, d: real, lo: real, hi: real, i: nat, mask: seq<bool>)
    requires i < |xs| == |mask| && !mask[i] && d == Median(Deviations(xs, m)) && lo == m - d && hi == m + d
    requires forall j | 0 <= j < |xs| && lo <= xs[j] <= hi :: mask[j]
    ensures lo <= Median(Select(xs, mask, true)) <= hi
  {
    NearCount(xs, m, d, lo, hi);
    HalfOutnumbers(xs, In(lo, hi), i, mask);
    MedianBreakdown(Select(xs, mask, true), lo, hi);
  }

  lemma NearSurvive(xs: seq<real>, m: real, d: real, k: real, scale: real, mask: seq<bool>)
    requires d <= k * scale && mask == MaskAround(xs, m, scale, k)
    ensures forall j | 0 <= j < |xs| && m - d <= xs[j] <= m + d :: mask[j]
  {
    var bound := k * scale;
    forall j: nat | j < |xs| && m - d <= xs[j] <= m + d ensures mask[j] {
      assert Abs(xs[j] - m) <= bound;
    }
  }

  /** A dropped sample is farther from the centre than the threshold. */
  lemma DroppedIsFar(xs: seq<real>, m: real, k: real, scale: real, mask: seq<bool>, i: nat)
    requires mask == MaskAround(xs, m, scale, k) && i < |xs| && !mask[i]
    ensures k * scale < Abs(xs[i] - m)
  {
  }

  lemma ThresholdCoversDeviation(k: real, d: real, scale: real)
    requires k * MAD_SCALE >= 1.0 && d >= 0.0 && scale == MAD_SCALE * d
    ensures d <= k * scale
  {
    assert (k * MAD_SCALE - 1.0) * d >= 0.0;
  }

  lemma DeviationBelowMargin(k: real, d: real, scale: real, width: real, margin: real)
    requires k * MAD_SCALE >= 1.0 && margin * (k * MAD_SCALE) == width && scale == MAD_SCALE * d && k * scale < width
    ensures d < margin
  {
    var c := k * MAD_SCALE;
    ScaleOrder(c, margin, d);
  }

  lemma MarginNonNegative(k: real, width: real, margin: real)
    requires k * MAD_SCALE >= 1.0 && width >= 0.0 && margin * (k * MAD_SCALE) == width
    ensures margin >= 0.0
  {
    var c := k * MAD_SCALE;
    ScaleOrder(c, 0.0, margin);
  }

  /** Either every clean sample survives, or the survivors' median is within the deviation of the samples' own. */
  lemma MedianNearClean(xs: seq<real>, m: real, d: real, k: real, scale: real, a: real, b: real, margin: real, mask: seq<bool>)
    requires k * MAD_SCALE >= 1.0 && margin * (k * MAD_SCALE) == b - a && scale == MAD_SCALE * d
    requires Majority(xs, In(a, b)) && a <= m <= b && d >= 0.0 && d == Median(Deviations(xs, m))
    requires mask == MaskAround(xs, m, scale, k)
    ensures a - margin <= Median(Select(xs, mask, true)) <= b + margin
  {
    if i: nat :| i < |xs| && In(a, b)(xs[i]) && !mask[i] {
      DroppedIsFar(xs, m, k, scale, mask, i);
      DeviationBelowMargin(k, d, scale, b - a, margin);
      ThresholdCoversDeviation(k, d, scale);
      NearSurvive(xs, m, d, k, scale, mask);
      SurvivorsNearMedian(xs, m, d, m - d, m + d, i, mask);
    } else {
      MarginNonNegative(k, b - a, margin);
      CleanSurvive(xs, a, b, mask);
    }
  }

  lemma CleanSurvive(xs: seq<real>, a: real, b: real, mask: seq<bool>)
    requires |mask| == |xs| && Majority(xs, In(a, b))
    requires forall i | 0 <= i < |xs| && In(a, b)(xs[i]) :: mask[i]
    ensures a <= Median(Select(xs, mask, true)) <= b
  {
    AllSurvive(xs, mask, In(a, b));
    MedianBreakdown(Select(xs, mask, true), a, b);
  }

  /**
    Breakdown bound of filter and median together: with a strict majority of the
    samples in [a, b], the median of whatever the filter keeps is within the margin
    of [a, b], however far the other samples lie.
  */
  lemma FilteredMedianBreakdown(xs: seq<real>, k: real, a: real, b: real, margin: real)
    requires k >= 0.0 && Majority(xs, In(a, b)) && |Kept(xs, k)| > 0
    requires IsMargin(k, b - a, margin)
    ensures a - margin <= Median(Kept(xs, k)) <= b + margin
  {
    MedianBreakdown(xs, a, b);
    DeviationBreakdown(xs, a, b);
    if k * MAD_SCALE >= 1.0 {
      MedianNearClean(xs, Median(xs), MedianDeviation(xs), k, Mad(xs), a, b, margin, HampelMask(xs, k));
    } else {
      MedianWithinThreshold(xs, Median(xs), MedianDeviation(xs), k, Mad(xs), a, b, margin);
    }
  }

  lemma MedianWithinThreshold(xs: seq<real>, m: real, d: real, k: real, scale: real, a: real, b: real, margin: real)
    requires k >= 0.0 && margin == k * MAD_SCALE * (b - a) && 0.0 <= d <= b - a && scale == MAD_SCALE * d
    requires a <= m <= b && m == Median(xs) && |Select(xs, MaskAround(xs, m, scale, k), true)| > 0
    ensures a - margin <= Median(Select(xs, MaskAround(xs, m, scale, k), true)) <= b + margin
  {
    MarginCovers(k, d, b - a, margin);
    KeptMedianWithin(xs, m, scale, k, a, b, margin, Select(xs, MaskAround(xs, m, scale, k), true));
  }

  lemma KeptMedianWithin(xs: seq<real>, m: real, scale: real, k: real, a: real, b: real, margin: real, kept: seq<real>)
    requires a <= m <= b && m == Median(xs)
    requires 0.0 <= margin && k * scale <= margin
    requires kept == Select(xs, MaskAround(xs, m, scale, k), true) && |kept| > 0
    ensures a - margin <= Median(kept) <= b + margin
  {
    if |xs| < 3 || scale == 0.0 {
      KeepAll(xs, MaskAround(xs, m, scale, k));
    } else {
      KeptWithin(xs, m, scale, k, a - margin, b + margin);
      MedianInRange(kept, a - margin, b + margin);
    }
  }

  lemma KeptWithin(xs: seq<real>, m: real, scale: real, k: real, lo: real, hi: real)
    requires lo <= m - k * scale && m + k * scale <= hi && |xs| >= 3 && scale != 0.0
    ensures var kept := Select(xs, MaskAround(xs, m, scale, k), true);
            forall j | 0 <= j < |kept| :: lo <= kept[j] <= hi
  {
    var mask := MaskAround(xs, m, scale, k);
    var kept := Select(xs, mask, true);
    forall j | 0 <= j < |kept| ensures lo <= kept[j] <= hi {
      var i := SelectedFrom(xs, mask, true, j);
      assert Abs(xs[i] - m) <= k * scale;
    }
  }

  lemma {:induction false} KeepAll<T>(xs: seq<T>, mask: seq<bool>)
    requires |mask| == |xs| && forall i | 0 <= i < |xs| :: mask[i]
    ensures Select(xs, mask, true) == xs
  {
    if |xs| > 0 {
      KeepAll(xs[1..], mask[1..]);
    }
  }

  // ---------- the margin is the best possible ----------

  /** The value that half of the samples do not exceed and half do not stay below. */
  lemma MedianByCounts(xs: seq<real>, v: real)
    requires |xs| > 0 && Count(xs, UpTo(v)) > |xs| / 2 && Count(xs, Under(v)) <= (|xs| - 1) / 2
    ensures Median(xs) == v
  {
    Rank(xs, v, |xs| / 2);
    Rank(xs, v, (|xs| - 1) / 2);
    SortedIsSorted(xs);
  }

  lemma ThreeBlocksMedian(m: nat, x: real, n: nat, y: real, o: nat, z: real, v: real)
    requires var size := m + n + o;
             && size > 0
             && (if x <= v then m else 0) + (if y <= v then n else 0) + (if z <= v then o else 0) > size / 2
             && (if x < v then m else 0) + (if y < v then n else 0) + (if z < v then o else 0) <= (size - 1) / 2
    ensures Median(ThreeBlocks(m, x, n, y, o, z)) == v
  {
    CountThree(m, x, n, y, o, z, UpTo(v));
    CountThree(m, x, n, y, o, z, Under(v));
    MedianByCounts(ThreeBlocks(m, x, n, y, o, z), v);
  }

  /** One sample at the clean end, `q` at the other, and `q` just beyond. */
  function Straddling(q: nat, width: real, excess: real): (xs: seq<real>)
    ensures |xs| == 2 * q + 1
  {
    ThreeBlocks(1, width, q, 0.0, q, width + excess)
  }

  lemma StraddlingDeviation(q: nat, width: real, excess: real)
    requires q >= 2 && 0.0 < excess < width
    ensures Median(Straddling(q, width, excess)) == width
    ensures MedianDeviation(Straddling(q, width, excess)) == excess
  {
    var xs := Straddling(q, width, excess);
    ThreeBlocksMedian(1, width, q, 0.0, q, width + excess, width);
    assert Deviations(xs, width) == ThreeBlocks(1, 0.0, q, width, q, excess);
    ThreeBlocksMedian(1, 0.0, q, width, q, excess, excess);
  }

  /**
    No smaller margin will do: for every k with k*1.4826 >= 1, every odd number of
    samples from five on and every excess below width/(k*1.4826), some samples have
    a strict majority in [0, width] and a filtered median that much above it.
  */
  lemma FilterMarginIsSharp(k: real, q: nat, width: real, excess: real) returns (xs: seq<real>)
    requires k * MAD_SCALE >= 1.0 && q >= 2 && 0.0 < excess && excess * (k * MAD_SCALE) < width
    ensures |xs| == 2 * q + 1 && Majority(xs, In(0.0, width))
    ensures |Kept(xs, k)| > 0 && Median(Kept(xs, k)) == width + excess
  {
    xs := Straddling(q, width, excess);
    ThresholdCoversDeviation(k, excess, MAD_SCALE * excess);
    StraddlingDeviation(q, width, excess);
    CountThree(1, width, q, 0.0, q, width + excess, In(0.0, width));
    StraddlingKept(q, width, excess, k, MAD_SCALE * excess);
  }

  lemma StraddlingKept(q: nat, width: real, excess: real, k: real, scale: real)
    requires q >= 2 && 0.0 < excess < width && scale != 0.0 && excess <= k * scale < width
    ensures var xs := Straddling(q, width, excess);
            var kept := Select(xs, MaskAround(xs, width, scale, k), true);
            |kept| > 0 && Median(kept) == width + excess
  {
    var xs := Straddling(q, width, excess);
    var mask := MaskAround(xs, width, scale, k);
    var kept := Select(xs, mask, true);
    var keep: real -> bool := x => x >= width;
    var always: real -> bool := x => true;
    var lower: real -> bool := x => width <= x < width + excess;
    var upper: real -> bool := x => width <= x <= width + excess;
    StraddlingMask(q, width, excess, k, scale, keep);
    SelectedCount(xs, mask, keep, always, keep);
    SelectedCount(xs, mask, keep, Under(width + excess), lower);
    SelectedCount(xs, mask, keep, UpTo(width + excess), upper);
    CountThree(1, width, q, 0.0, q, width + excess, keep);
    CountThree(1, width, q, 0.0, q, width + excess, lower);
    CountThree(1, width, q, 0.0, q, width + excess, upper);
    CountAll(kept, always);
    MedianByCounts(kept, width + excess);
  }

  lemma StraddlingMask(q: nat, width: real, excess: real, k: real, scale: real, keep: real -> bool)
    requires q >= 2 && 0.0 < excess < width && scale != 0.0 && excess <= k * scale < width
    requires forall x :: keep(x) == (x >= width)
    ensures var xs := Straddling(q, width, excess);
            forall i | 0 <= i < |xs| :: MaskAround(xs, width, scale, k)[i] == keep(xs[i])
  {
    var xs := Straddling(q, width, excess);
    assert forall i | 0 <= i < |xs| :: xs[i] == width || xs[i] == 0.0 || xs[i] == width + excess;
  }

  /** One sample at the clean end, `q` at the other, `q - 1` just beyond, and one far away. */
  function Outlying(q: nat, width: real, excess: real): (xs: seq<real>)
    requires q > 0
    ensures |xs| == 2 * q + 1
  {
    ThreeBlocks(1, width, q, 0.0, q - 1, width + excess) + Constant(1, 3.0 * width)
  }

  lemma CountFour(m: nat, x: real, n: nat, y: real, o: nat, z: real, l: nat, u: real, p: real -> bool)
    ensures Count(ThreeBlocks(m, x, n, y, o, z) + Constant(l, u), p) ==
            (if p(x) then m else 0) + (if p(y) then n else 0) + (if p(z) then o else 0) + (if p(u) then l else 0)
  {
    CountAppend(ThreeBlocks(m, x, n, y, o, z), Constant(l, u), p);
    CountThree(m, x, n, y, o, z, p);
    CountConstant(l, u, p);
  }

  lemma OutlyingDeviation(q: nat, width: real, excess: real)
    requires q >= 3 && 0.0 < excess < width
    ensures Median(Outlying(q, width, excess)) == width
    ensures MedianDeviation(Outlying(q, width, excess)) == width
  {
    var xs := Outlying(q, width, excess);
    CountFour(1, width, q, 0.0, q - 1, width + excess, 1, 3.0 * width, UpTo(width));
    CountFour(1, width, q, 0.0, q - 1, width + excess, 1, 3.0 * width, Under(width));
    MedianByCounts(xs, width);
    var ds := ThreeBlocks(1, 0.0, q, width, q - 1, excess) + Constant(1, 2.0 * width);
    assert Deviations(xs, width) == ds;
    CountFour(1, 0.0, q, width, q - 1, excess, 1, 2.0 * width, UpTo(width));
    CountFour(1, 0.0, q, width, q - 1, excess, 1, 2.0 * width, Under(width));
    MedianByCounts(ds, width);
  }

  lemma MaskIs(xs: seq<real>, m: real, scale: real, k: real, bound: real, keep: real -> bool)
    requires |xs| >= 3 && scale != 0.0 && bound == k * scale
    requires forall i | 0 <= i < |xs| :: keep(xs[i]) == (Abs(xs[i] - m) <= bound)
    ensures forall i | 0 <= i < |xs| :: MaskAround(xs, m, scale, k)[i] == keep(xs[i])
  {
  }

  lemma OutlyingMask(q: nat, width: real, excess: real, keep: real -> bool)
    requires q >= 3 && 0.0 < excess < width
    requires forall x :: keep(x) == (width <= x <= width + excess)
    ensures var xs := Outlying(q, width, excess);
            forall i | 0 <= i < |xs| :: keep(xs[i]) == (Abs(xs[i] - width) <= excess)
  {
    var xs := Outlying(q, width, excess);
    forall i | 0 <= i < |xs| ensures xs[i] == width || xs[i] == 0.0 || xs[i] == width + excess || xs[i] == 3.0 * width {
      if i < 2 * q {
        assert xs[i] == ThreeBlocks(1, width, q, 0.0, q - 1, width + excess)[i];
      }
    }
  }

  lemma OutlyingKept(q: nat, width: real, excess: real, k: real, scale: real)
    requires q >= 3 && 0.0 < excess < width && scale != 0.0 && k * scale == excess
    ensures var xs := Outlying(q, width, excess);
            var kept := Select(xs, MaskAround(xs, width, scale, k), true);
            |kept| > 0 && Median(kept) == width + excess
  {
    var xs := Outlying(q, width, excess);
    var mask := MaskAround(xs, width, scale, k);
    var kept := Select(xs, mask, true);
    var keep: real -> bool := x => width <= x <= width + excess;
    var always: real -> bool := x => true;
    var lower: real -> bool := x => width <= x < width + excess;
    OutlyingMask(q, width, excess, keep);
    MaskIs(xs, width, scale, k, excess, keep);
    SelectedCount(xs, mask, keep, always, keep);
    SelectedCount(xs, mask, keep, Under(width + excess), lower);
    SelectedCount(xs, mask, keep, UpTo(width + excess), keep);
    CountFour(1, width, q, 0.0, q - 1, width + excess, 1, 3.0 * width, keep);
    CountFour(1, width, q, 0.0, q - 1, width + excess, 1, 3.0 * width, lower);
    CountAll(kept, always);
    MedianByCounts(kept, width + excess);
  }

  lemma ProperFraction(c: real, d: real, width: real, excess: real)
    requires 0.0 < c && 0.0 < d && c + d == 1.0 && width > 0.0 && excess == c * width
    ensures 0.0 < excess < width
  {
    var rest := d * width;
    assert rest > 0.0;
    assert excess + rest == width;
  }

  /** Below the threshold the margin is attained: for every k with 0 < k*1.4826 < 1 and every odd number of samples from seven on. */
  lemma SmallMarginAttained(k: real, q: nat, width: real, margin: real) returns (xs: seq<real>)
    requires 0.0 < k * MAD_SCALE < 1.0 && q >= 3 && width > 0.0 && IsMargin(k, width, margin)
    ensures |xs| == 2 * q + 1 && Majority(xs, In(0.0, width))
    ensures |Kept(xs, k)| > 0 && Median(Kept(xs, k)) == width + margin
  {
    ProperFraction(k * MAD_SCALE, 1.0 - k * MAD_SCALE, width, margin);
    xs := Outlying(q, width, margin);
    OutlyingDeviation(q, width, margin);
    CountFour(1, width, q, 0.0, q - 1, width + margin, 1, 3.0 * width, In(0.0, width));
    OutlyingKept(q, width, margin, k, MAD_SCALE * width);
  }

  // ---------- when everything can be dropped ----------

  /** Whether the filter keeps something of every `n` samples: too few to filter, a middle sample, or a large enough `k`. */
  predicate KeepsSome(n: nat, k: real) { n < 3 || (n % 2 == 1 && k >= 0.0) || k * MAD_SCALE >= 1.0 }

  lemma MiddleSampleKept(xs: seq<real>, k: real)
    requires |xs| % 2 == 1 && k >= 0.0
    ensures |Kept(xs, k)| > 0
  {
    var m, d := Median(xs), MedianDeviation(xs);
    DeviationsNonNegative(xs);
    SortedElement(xs, Leq, |xs| / 2);
    var i :| 0 <= i < |xs| && xs[i] == m;
    ZeroDistanceKept(xs, m, MAD_SCALE * d, k, i);
    CountPositive(HampelMask(xs, k), IsTrue());
    SelectCount(xs, HampelMask(xs, k));
  }

  lemma ZeroDistanceKept(xs: seq<real>, m: real, scale: real, k: real, i: nat)
    requires i < |xs| && xs[i] == m && k >= 0.0 && scale >= 0.0
    ensures MaskAround(xs, m, scale, k)[i]
  {
    assert k * scale >= 0.0;
  }

  lemma NegativeKDropsEverything(k: real, q: nat)
    requires k < 0.0 && q >= 1
    ensures |Kept(ThreeBlocks(1, 1.0, q, 0.0, q, 2.0), k)| == 0
  {
    var xs := ThreeBlocks(1, 1.0, q, 0.0, q, 2.0);
    ThreeBlocksMedian(1, 1.0, q, 0.0, q, 2.0, 1.0);
    assert Deviations(xs, 1.0) == ThreeBlocks(1, 0.0, q, 1.0, q, 1.0);
    ThreeBlocksMedian(1, 0.0, q, 1.0, q, 1.0, 1.0);
    SelectCount(xs, HampelMask(xs, k));
    CountPositive(HampelMask(xs, k), IsTrue());
  }

  /** Where the condition fails, `n` samples of the values 0, 1 and 2 are dropped one and all. */
  lemma AllDropped(n: nat, k: real) returns (xs: seq<real>)
    requires !KeepsSome(n, k)
    ensures |xs| == n && |Kept(xs, k)| == 0
    ensures forall i | 0 <= i < n :: xs[i] == 0.0 || xs[i] == 1.0 || xs[i] == 2.0
  {
    if n % 2 == 0 {
      xs := TwoBlocks(n / 2, 0.0, 2.0);
      TinyKDropsEverything(k, n / 2);
    } else {
      xs := ThreeBlocks(1, 1.0, n / 2, 0.0, n / 2, 2.0);
      NegativeKDropsEverything(k, n / 2);
    }
  }

  /** For each number of samples: the filter keeps something of all of them exactly under the condition above. */
  lemma FilterKeepsSomeIff(n: nat, k: real)
    ensures KeepsSome(n, k) <==> forall xs: seq<real> | |xs| == n && n > 0 :: |Kept(xs, k)| > 0
  {
    if KeepsSome(n, k) {
      forall xs: seq<real> | |xs| == n && n > 0 ensures |Kept(xs, k)| > 0 {
        KeepsSomeOf(xs, k);
      }
    } else {
      var xs := AllDropped(n, k);
    }
  }

  lemma KeepsSomeOf(xs: seq<real>, k: real)
    requires |xs| > 0 && KeepsSome(|xs|, k)
    ensures |Kept(xs, k)| > 0
  {
    if |xs| < 3 {
      KeepAll(xs, HampelMask(xs, k));
    } else if k * MAD_SCALE >= 1.0 {
      FilterKeepsHalf(xs, k);
    } else {
      MiddleSampleKept(xs, k);
    }
  }
}
