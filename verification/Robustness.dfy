/**
  What "resists outliers" means for the estimators of stats.rs: the breakdown
  point of the median, when the Hampel filter rejects a spike and when it cannot,
  and how much it may reject.
*/
module Robustness {
  import opened Sorting
  import opened Quantiles
  import opened Stats

  function In(a: real, b: real): real -> bool { x => a <= x <= b }

  function Equals(v: real): real -> bool { x => x == v }

  /** Strictly more than half of the samples satisfy `p`. */
  ghost predicate Majority(xs: seq<real>, p: real -> bool) { 2 * Count(xs, p) > |xs| }

  // ---------- breakdown point of the median ----------

  /** If a strict majority of the samples lies in [a, b], so does the median, whatever the rest are. */
  lemma MedianBreakdown(xs: seq<real>, a: real, b: real)
    requires Majority(xs, In(a, b))
    ensures a <= Median(xs) <= b
  {
    var n := |xs|;
    var c := Count(xs, In(a, b));
    var outside: real -> bool := x => !(a <= x <= b);
    CountComplement(xs, In(a, b), outside);
    CountMonotone(xs, In(a, b), xs, UpTo(b));
    CountMonotone(xs, Under(a), xs, outside);
    Rank(xs, a, (n - 1) / 2);
    Rank(xs, b, n / 2);
    SortedIsSorted(xs);
  }

  /** Clean samples given by position: their range bounds the median when they are the majority. */
  lemma CleanMajorityBoundsMedian(xs: seq<real>, clean: seq<bool>, a: real, b: real)
    requires |clean| == |xs| && 2 * Count(clean, IsTrue()) > |xs|
    requires forall i | 0 <= i < |xs| && clean[i] :: a <= xs[i] <= b
    ensures a <= Median(xs) <= b
  {
    CountMonotone(clean, IsTrue(), xs, In(a, b));
    MedianBreakdown(xs, a, b);
  }

  lemma {:induction false} CountConstant(n: nat, v: real, p: real -> bool)
    ensures Count(Constant(n, v), p) == if p(v) then n else 0
  {
    if n > 0 {
      assert Constant(n, v)[1..] == Constant(n - 1, v);
      CountConstant(n - 1, v, p);
    }
  }

  function Constant(n: nat, v: real): (r: seq<real>)
    ensures |r| == n
  {
    seq(n, i requires 0 <= i < n => v)
  }

  function TwoBlocks(m: nat, lo: real, hi: real): seq<real> { Constant(m, lo) + Constant(m, hi) }

  lemma CountTwoBlocks(m: nat, lo: real, hi: real, p: real -> bool)
    ensures Count(TwoBlocks(m, lo, hi), p) == (if p(lo) then m else 0) + (if p(hi) then m else 0)
  {
    CountAppend(Constant(m, lo), Constant(m, hi), p);
    CountConstant(m, lo, p);
    CountConstant(m, hi, p);
  }

  function ThreeBlocks(m: nat, x: real, n: nat, y: real, o: nat, z: real): seq<real> {
    Constant(m, x) + (Constant(n, y) + Constant(o, z))
  }

  lemma CountThree(m: nat, x: real, n: nat, y: real, o: nat, z: real, p: real -> bool)
    ensures Count(ThreeBlocks(m, x, n, y, o, z), p) ==
            (if p(x) then m else 0) + (if p(y) then n else 0) + (if p(z) then o else 0)
  {
    CountAppend(Constant(m, x), Constant(n, y) + Constant(o, z), p);
    CountAppend(Constant(n, y), Constant(o, z), p);
    CountConstant(m, x, p);
    CountConstant(n, y, p);
    CountConstant(o, z, p);
  }

  lemma TwoBlocksMedian(m: nat, lo: real, hi: real)
    requires m > 0 && lo < hi
    ensures Median(TwoBlocks(m, lo, hi)) == (lo + hi) / 2.0
  {
    var xs := TwoBlocks(m, lo, hi);
    CountTwoBlocks(m, lo, hi, UpTo(lo));
    CountTwoBlocks(m, lo, hi, Under(lo));
    CountTwoBlocks(m, lo, hi, UpTo(hi));
    CountTwoBlocks(m, lo, hi, Under(hi));
    Rank(xs, lo, m - 1);
    Rank(xs, hi, m);
  }

  /** One half exactly is not enough: `m` clean zeros among `2m` samples leave the median unbounded. */
  lemma BreakdownIsSharp(m: nat, bound: real) returns (xs: seq<real>)
    requires m > 0
    ensures |xs| == 2 * m && Count(xs, In(0.0, 0.0)) == m
    ensures Median(xs) > bound
  {
    var c := 2.0 * Abs(bound) + 2.0;
    xs := TwoBlocks(m, 0.0, c);
    CountTwoBlocks(m, 0.0, c, In(0.0, 0.0));
    TwoBlocksMedian(m, 0.0, c);
  }

  // ---------- the median absolute deviation ----------

  lemma DeviationsNonNegative(xs: seq<real>)
    requires |xs| > 0
    ensures MedianDeviation(xs) >= 0.0
  {
    var ds := Deviations(xs, Median(xs));
    MedianInRange(ds, 0.0, Maximum(ds));
  }

  /** A strict majority within [a, b] bounds the deviation by the width of [a, b]. */
  lemma DeviationBreakdown(xs: seq<real>, a: real, b: real)
    requires Majority(xs, In(a, b))
    ensures 0.0 <= MedianDeviation(xs) <= b - a
  {
    MedianBreakdown(xs, a, b);
    var ds := Deviations(xs, Median(xs));
    CountMonotone(xs, In(a, b), ds, In(0.0, b - a));
    MedianBreakdown(ds, 0.0, b - a);
  }

  lemma ZeroMedianOfNonNegative(ds: seq<real>)
    requires |ds| > 0 && forall i | 0 <= i < |ds| :: ds[i] >= 0.0
    ensures Median(ds) == 0.0 ==> 2 * Count(ds, UpTo(0.0)) > |ds|
  {
    var n := |ds|;
    SortedIsSorted(ds);
    var low := Sorted(ds)[(n - 1) / 2];
    SortedElement(ds, Leq, (n - 1) / 2);
    Rank(ds, 0.0, n / 2);
  }

  /** The deviation is zero exactly when a strict majority of the samples share one value. */
  lemma MadZeroIffMajorityTied(xs: seq<real>)
    requires |xs| > 0
    ensures Mad(xs) == 0.0 <==> exists v :: Majority(xs, Equals(v))
  {
    if v :| Majority(xs, Equals(v)) {
      CountMonotone(xs, Equals(v), xs, In(v, v));
      DeviationBreakdown(xs, v, v);
    }
    if Mad(xs) == 0.0 {
      MadZeroTies(xs, Median(xs));
    }
  }

  lemma MadZeroTies(xs: seq<real>, m: real)
    requires |xs| > 0 && m == Median(xs) && MedianDeviation(xs) == 0.0
    ensures Majority(xs, Equals(m))
  {
    ZeroMedianOfNonNegative(Deviations(xs, m));
    CountMonotone(Deviations(xs, m), UpTo(0.0), xs, Equals(m));
  }

  // ---------- what the filter rejects ----------

  /** `x` lies outside [a, b] by more than `margin`. */
  ghost predicate FarOutside(x: real, a: real, b: real, margin: real) {
    x < a - margin || b + margin < x
  }

  /**
    A sample farther than k*1.4826*(b-a) outside an interval holding a strict
    majority is rejected, exactly when there are at least three samples and no
    value is shared by a strict majority of them.
  */
  lemma SpikeRejectedIff(xs: seq<real>, k: real, a: real, b: real, i: nat)
    requires k >= 0.0 && Majority(xs, In(a, b)) && i < |xs|
    requires FarOutside(xs[i], a, b, k * MAD_SCALE * (b - a))
    ensures !HampelMask(xs, k)[i] <==> |xs| >= 3 && !exists v :: Majority(xs, Equals(v))
  {
    MadZeroIffMajorityTied(xs);
    MedianBreakdown(xs, a, b);
    DeviationBreakdown(xs, a, b);
    MarginCovers(k, MedianDeviation(xs), b - a, k * MAD_SCALE * (b - a));
    RejectsFarOutside(xs, Median(xs), MAD_SCALE * MedianDeviation(xs), k, a, b, k * MAD_SCALE * (b - a), i);
  }

  lemma RejectsFarOutside(xs: seq<real>, m: real, scale: real, k: real, a: real, b: real, margin: real, i: nat)
    requires i < |xs| && a <= m <= b && k * scale <= margin && 0.0 <= margin
    requires FarOutside(xs[i], a, b, margin)
    ensures !MaskAround(xs, m, scale, k)[i] <==> |xs| >= 3 && scale != 0.0
  {
  }

  lemma ScaledLe(k: real, c: real, x: real, y: real)
    requires k >= 0.0 && c >= 0.0 && x <= y
    ensures k * (c * x) <= k * c * y
  {
    assert k * c >= 0.0;
    assert (k * c) * (y - x) >= 0.0;
  }

  lemma MarginCovers(k: real, d: real, width: real, margin: real)
    requires k >= 0.0 && 0.0 <= d <= width && margin == k * MAD_SCALE * width
    ensures 0.0 <= margin && k * (MAD_SCALE * d) <= margin
  {
    ScaledLe(k, MAD_SCALE, d, width);
    assert k * MAD_SCALE >= 0.0;
  }

  /** Four ties and a spike: the deviation is zero, so the spike survives the filter. */
  lemma SpikeSurvivesTiedMajority()
    ensures HampelMask([42.0, 42.0, 42.0, 42.0, 5000.0], 3.0)[4]
  {
    var xs := [42.0, 42.0, 42.0, 42.0, 5000.0];
    assert xs == Constant(4, 42.0) + [5000.0];
    CountAppend(Constant(4, 42.0), [5000.0], Equals(42.0));
    CountConstant(4, 42.0, Equals(42.0));
    assert Majority(xs, Equals(42.0));
    MadZeroIffMajorityTied(xs);
  }

  // ---------- how much the filter may reject ----------

  /** Whether the filter with aggressiveness `k` keeps at least half of `xs` (rounded up). */
  ghost predicate KeepsHalf(xs: seq<real>, k: real) { 2 * |Kept(xs, k)| >= |xs| }

  lemma FilterKeepsHalf(xs: seq<real>, k: real)
    requires k * MAD_SCALE >= 1.0
    ensures KeepsHalf(xs, k)
  {
    SelectCount(xs, HampelMask(xs, k));
    if |xs| < 3 || Mad(xs) == 0.0 {
      CountAll(HampelMask(xs, k), IsTrue());
    } else {
      DeviationsNonNegative(xs);
      MaskKeepsHalf(xs, Median(xs), MedianDeviation(xs), k);
    }
  }

  lemma MaskKeepsHalf(xs: seq<real>, m: real, d: real, k: real)
    requires k * MAD_SCALE >= 1.0 && d >= 0.0
    requires |xs| > 0 && d == Median(Deviations(xs, m))
    ensures 2 * Count(MaskAround(xs, m, MAD_SCALE * d, k), IsTrue()) >= |xs|
  {
    HalfWithinMedian(Deviations(xs, m), d);
    KeepsWithinDeviation(xs, m, d, k);
  }

  /** At least half of any sample is at most its median. */
  lemma HalfWithinMedian(ds: seq<real>, d: real)
    requires |ds| > 0 && d == Median(ds)
    ensures 2 * Count(ds, UpTo(d)) >= |ds|
  {
    SortedIsSorted(ds);
    Rank(ds, d, (|ds| - 1) / 2);
  }

  lemma KeepsWithinDeviation(xs: seq<real>, m: real, d: real, k: real)
    requires k * MAD_SCALE >= 1.0 && d >= 0.0
    ensures Count(Deviations(xs, m), UpTo(d)) <= Count(MaskAround(xs, m, MAD_SCALE * d, k), IsTrue())
  {
    assert (k * MAD_SCALE - 1.0) * d >= 0.0;
    CountMonotone(Deviations(xs, m), UpTo(d), MaskAround(xs, m, MAD_SCALE * d, k), IsTrue());
  }

  /** Below the threshold two equally large groups of equal samples lose every sample. */
  lemma TinyKDropsEverything(k: real, p: nat)
    requires k * MAD_SCALE < 1.0 && p >= 2
    ensures |Kept(TwoBlocks(p, 0.0, 2.0), k)| == 0
  {
    var xs := TwoBlocks(p, 0.0, 2.0);
    TwoBlocksMedian(p, 0.0, 2.0);
    MedianInRange(Deviations(xs, 1.0), 1.0, 1.0);
    AllFarDropped(xs, k);
  }

  lemma AllFarDropped(xs: seq<real>, k: real)
    requires k * MAD_SCALE < 1.0 && |xs| >= 3
    requires Median(xs) == 1.0 && MedianDeviation(xs) == 1.0
    requires forall i | 0 <= i < |xs| :: Abs(xs[i] - 1.0) == 1.0
    ensures |Kept(xs, k)| == 0
  {
    var mask := MaskAround(xs, 1.0, MAD_SCALE, k);
    SelectCount(xs, mask);
    CountPositive(mask, IsTrue());
  }

  /**
    The condition under which the filter is safe for every non-empty sample: it
    keeps something (so a representative replicate exists), and then at least
    half, if and only if k*1.4826 is at least 1.
  */
  lemma FilterSafeIff(k: real)
    ensures k * MAD_SCALE >= 1.0 <==> forall xs: seq<real> | |xs| > 0 :: |Kept(xs, k)| > 0
    ensures k * MAD_SCALE >= 1.0 <==> forall xs: seq<real> :: KeepsHalf(xs, k)
  {
    if k * MAD_SCALE >= 1.0 {
      forall xs: seq<real> ensures KeepsHalf(xs, k) {
        FilterKeepsHalf(xs, k);
      }
      forall xs: seq<real> | |xs| > 0 ensures |Kept(xs, k)| > 0 {
        FilterKeepsHalf(xs, k);
      }
    } else {
      TinyKDropsEverything(k, 2);
      var xs := TwoBlocks(2, 0.0, 2.0);
      assert |xs| > 0 && |Kept(xs, k)| == 0;
      assert !KeepsHalf(xs, k);
    }
  }
}
