/**
  Units and order do not matter: an affine change of the samples leaves the
  Hampel mask alone and carries the estimates along, rescaling leaves the
  stability gate alone, and so does reordering the replicates.
*/
module Equivariance {
  import opened Sorting
  import opened Quantiles
  import opened Stats

  // ---------- affine changes ----------

  lemma DistanceScaled(a: real, b: real, c: real, x: real, m: real, d: real, x': real, m': real)
    requires c == Abs(a) && d == Abs(x - m) && x' == a * x + b && m' == a * m + b
    ensures Abs(x' - m') == c * d
  {
    var e := x - m;
    assert x' - m' == a * e;
    if a >= 0.0 {
      if e >= 0.0 { assert a * e >= 0.0; } else { assert a * (-e) >= 0.0; }
    } else {
      if e >= 0.0 { assert (-a) * e >= 0.0; } else { assert (-a) * (-e) >= 0.0; }
    }
  }

  lemma DeviationAffineAt(xs: seq<real>, a: real, b: real, m: real, c: real, m': real, i: nat)
    requires c == Abs(a) && m' == a * m + b && i < |xs|
    ensures Deviations(Affine(xs, a, b), m')[i] == Affine(Deviations(xs, m), c, 0.0)[i]
  {
    var d, x, x' := Deviations(xs, m)[i], xs[i], Affine(xs, a, b)[i];
    AffineAt(xs, a, b, i, x);
    AffineAt(Deviations(xs, m), c, 0.0, i, d);
    DistanceScaled(a, b, c, x, m, d, x', m');
  }

  /** Deviations of the images are the scaled deviations. */
  lemma DeviationsAffine(xs: seq<real>, a: real, b: real, m: real, c: real, m': real)
    requires c == Abs(a) && m' == a * m + b
    ensures Deviations(Affine(xs, a, b), m') == Affine(Deviations(xs, m), c, 0.0)
  {
    var ds, es := Deviations(Affine(xs, a, b), m'), Affine(Deviations(xs, m), c, 0.0);
    forall i: nat | i < |xs| ensures ds[i] == es[i] {
      DeviationAffineAt(xs, a, b, m, c, m', i);
    }
  }

  lemma MedianDeviationAffine(xs: seq<real>, a: real, b: real, c: real, d: real)
    requires a != 0.0 && |xs| > 0 && c == Abs(a) && d == MedianDeviation(xs)
    ensures MedianDeviation(Affine(xs, a, b)) == c * d
  {
    var m := Median(xs);
    MedianAffine(xs, a, b, m);
    DeviationsAffine(xs, a, b, m, c, a * m + b);
    MedianAffine(Deviations(xs, m), c, 0.0, d);
  }

  lemma MadAffine(xs: seq<real>, a: real, b: real, c: real, d: real, s: real)
    requires a != 0.0 && |xs| > 0 && c == Abs(a) && d == MedianDeviation(xs) && s == MAD_SCALE * d
    ensures Mad(Affine(xs, a, b)) == c * s
  {
    MedianDeviationAffine(xs, a, b, c, d);
    Reassociate(c, d, c * d, s);
  }

  lemma Reassociate(c: real, d: real, e: real, s: real)
    requires e == c * d && s == MAD_SCALE * d
    ensures MAD_SCALE * e == c * s
  {
  }

  /** The Hampel mask ignores the unit and the origin of the measurement. */
  lemma MaskAffine(xs: seq<real>, a: real, b: real, k: real)
    requires a != 0.0
    ensures HampelMask(Affine(xs, a, b), k) == HampelMask(xs, k)
  {
    if |xs| >= 3 {
      var m, d, s, c := Median(xs), MedianDeviation(xs), Mad(xs), Abs(a);
      MedianAffine(xs, a, b, m);
      MadAffine(xs, a, b, c, d, s);
      MaskAroundAffine(xs, a, b, k, m, s, c, Median(Affine(xs, a, b)), Mad(Affine(xs, a, b)));
    }
  }

  lemma MaskAroundAffine(xs: seq<real>, a: real, b: real, k: real, m: real, s: real, c: real, m': real, s': real)
    requires a != 0.0 && c == Abs(a) && m' == a * m + b && s' == c * s
    ensures MaskAround(Affine(xs, a, b), m', s', k) == MaskAround(xs, m, s, k)
  {
    var mask, mask' := MaskAround(xs, m, s, k), MaskAround(Affine(xs, a, b), m', s', k);
    forall i: nat | i < |xs| ensures mask'[i] == mask[i] {
      MaskAffineAt(xs, a, b, k, m, s, c, m', s', i);
    }
  }

  lemma MaskAt(xs: seq<real>, m: real, s: real, k: real, i: nat, d: real, bound: real)
    requires i < |xs| && d == Abs(xs[i] - m) && bound == k * s
    ensures MaskAround(xs, m, s, k)[i] == (|xs| < 3 || s == 0.0 || d <= bound)
  {
  }

  lemma MaskAffineAt(xs: seq<real>, a: real, b: real, k: real, m: real, s: real, c: real, m': real, s': real, i: nat)
    requires a != 0.0 && c == Abs(a) && m' == a * m + b && s' == c * s && i < |xs|
    ensures MaskAround(Affine(xs, a, b), m', s', k)[i] == MaskAround(xs, m, s, k)[i]
  {
    var x, x' := xs[i], Affine(xs, a, b)[i];
    var d, d' := Abs(x - m), Abs(x' - m');
    var t, t' := k * s, k * s';
    MaskAt(xs, m, s, k, i, d, t);
    MaskAt(Affine(xs, a, b), m', s', k, i, d', t');
    AffineAt(xs, a, b, i, x);
    ThresholdScaled(a, b, k, m, s, c, m', s', x, x', d, d', t, t');
  }

  lemma ThresholdScaled(a: real, b: real, k: real, m: real, s: real, c: real, m': real, s': real,
                        x: real, x': real, d: real, d': real, t: real, t': real)
    requires a != 0.0 && c == Abs(a) && m' == a * m + b && s' == c * s && x' == a * x + b
    requires d == Abs(x - m) && d' == Abs(x' - m') && t == k * s && t' == k * s'
    ensures (s' == 0.0 || d' <= t') == (s == 0.0 || d <= t)
  {
    ZeroScaled(c, s, s');
    DistanceScaled(a, b, c, x, m, d, x', m');
    OrderScaled(c, k, s, s', d, d');
  }

  lemma ZeroScaled(c: real, s: real, s': real)
    requires c > 0.0 && s' == c * s
    ensures s' == 0.0 <==> s == 0.0
  {
    if s > 0.0 {
      assert c * s > 0.0;
    } else if s < 0.0 {
      assert c * (-s) > 0.0;
    }
  }

  lemma OrderScaled(c: real, k: real, s: real, s': real, d: real, d': real)
    requires c > 0.0 && s' == c * s && d' == c * d
    ensures d' <= k * s' <==> d <= k * s
  {
    assert k * s' == c * (k * s);
    ScaleOrder(c, d, k * s);
  }

  lemma {:induction false} SelectAffine(xs: seq<real>, mask: seq<bool>, want: bool, a: real, b: real)
    requires |mask| == |xs|
    ensures Select(Affine(xs, a, b), mask, want) == Affine(Select(xs, mask, want), a, b)
  {
    if |xs| > 0 {
      var tail, rest := xs[1..], Select(xs[1..], mask[1..], want);
      SelectAffine(tail, mask[1..], want, a, b);
      var y := Affine([xs[0]], a, b)[0];
      assert xs == [xs[0]] + tail;
      AffineCons(xs[0], tail, a, b);
      SelectCons(y, Affine(tail, a, b), mask, want);
      AffineCons(xs[0], rest, a, b);
      SelectCons(xs[0], tail, mask, want);
    }
  }

  lemma SelectCons(x: real, rest: seq<real>, mask: seq<bool>, want: bool)
    requires |mask| == |rest| + 1
    ensures Select([x] + rest, mask, want) ==
            if mask[0] == want then [x] + Select(rest, mask[1..], want) else Select(rest, mask[1..], want)
  {
    assert ([x] + rest)[1..] == rest;
  }

  lemma AffineCons(x: real, rest: seq<real>, a: real, b: real)
    ensures Affine([x] + rest, a, b) == Affine([x], a, b) + Affine(rest, a, b)
  {
    var s := [x] + rest;
    var l, r := Affine(s, a, b), Affine([x], a, b) + Affine(rest, a, b);
    forall i: nat | i < |s| ensures l[i] == r[i] {
      AffineAt(s, a, b, i, s[i]);
      if i == 0 {
        AffineAt([x], a, b, 0, s[0]);
      } else {
        AffineAt(rest, a, b, i - 1, s[i]);
      }
    }
  }

  /** The filter picks the same replicates, and drops the same ones, in every unit. */
  lemma PartitionAffine(xs: seq<real>, a: real, b: real, k: real)
    requires a != 0.0
    ensures Kept(Affine(xs, a, b), k) == Affine(Kept(xs, k), a, b)
    ensures Dropped(Affine(xs, a, b), k) == Affine(Dropped(xs, k), a, b)
  {
    MaskAffine(xs, a, b, k);
    SelectAffine(xs, HampelMask(xs, k), true, a, b);
    SelectAffine(xs, HampelMask(xs, k), false, a, b);
  }

  lemma IqrScaled(xs: seq<real>, a: real, c: real, r: real)
    requires a != 0.0 && c == Abs(a) && r == Iqr(xs)
    ensures Iqr(Affine(xs, a, 0.0)) == c * r
  {
    var q1, q3 := Quantile(xs, 0.25), Quantile(xs, 0.75);
    if a > 0.0 {
      QuantileAffine(xs, a, 0.0, 0.25, q1);
      QuantileAffine(xs, a, 0.0, 0.75, q3);
      Differences(a, q3, q1, c, r);
    } else {
      QuantileAffine(xs, a, 0.0, 0.25, q3);
      QuantileAffine(xs, a, 0.0, 0.75, q1);
      Differences(a, q1, q3, c, r);
    }
  }

  lemma Differences(a: real, x: real, y: real, c: real, r: real)
    requires (c == a && x - y == r) || (c == -a && y - x == r)
    ensures (a * x + 0.0) - (a * y + 0.0) == c * r
  {
  }

  lemma NonZeroProduct(a: real, m: real)
    requires a != 0.0 && m != 0.0
    ensures a * m != 0.0
  {
    if m > 0.0 {
      ZeroScaled(m, a, m * a);
    } else {
      ZeroScaled(-m, a, -m * a);
    }
  }

  lemma RatioScaled(a: real, c: real, i: real, m: real, m': real)
    requires a != 0.0 && m != 0.0 && c == Abs(a) && m' == a * m
    ensures m' != 0.0
    ensures Abs((c * i) / m') == Abs(i / m)
  {
    NonZeroProduct(a, m);
    var r := i / m;
    assert i == r * m;
    if a > 0.0 {
      assert c * i == r * m';
    } else {
      assert c * i == (-r) * m';
    }
  }

  lemma RelativeIqrScaled(kept: seq<real>, a: real)
    requires a != 0.0
    ensures RelativeIqr(Affine(kept, a, 0.0)) == RelativeIqr(kept)
  {
    if |kept| > 0 {
      var m, i, c := Median(kept), Iqr(kept), Abs(a);
      MedianAffine(kept, a, 0.0, m);
      IqrScaled(kept, a, c, i);
      RelativeScaled(a, c, m, i, Median(Affine(kept, a, 0.0)), Iqr(Affine(kept, a, 0.0)));
    }
  }

  lemma RelativeScaled(a: real, c: real, m: real, i: real, m': real, i': real)
    requires a != 0.0 && c == Abs(a) && m' == a * m + 0.0 && i' == c * i
    ensures Relative(i', m') == Relative(i, m)
  {
    if m != 0.0 {
      RatioScaled(a, c, i, m, m');
    }
  }

  /** Whether a cell is stable does not depend on the unit its rate is measured in. */
  lemma StabilityScaleInvariant(xs: seq<real>, a: real, k: real, target: real, frac: real)
    requires a != 0.0
    ensures var s, t := Summarize(xs, k, target, frac), Summarize(Affine(xs, a, 0.0), k, target, frac);
            && t.n == s.n && t.replicates == s.replicates && t.outliersDropped == s.outliersDropped
            && t.relIqr == s.relIqr && t.stable == s.stable
  {
    PartitionAffine(xs, a, 0.0, k);
    RelativeIqrScaled(Kept(xs, k), a);
  }

  // ---------- reordering ----------

  /** Deviations from one centre have the same order statistics in every order. */
  lemma DeviationsPermutation(xs: seq<real>, ys: seq<real>, m: real)
    requires multiset(xs) == multiset(ys)
    ensures Sorted(Deviations(xs, m)) == Sorted(Deviations(ys, m))
  {
    assert |xs| == |multiset(xs)| == |ys|;
    var ds, es := Deviations(xs, m), Deviations(ys, m);
    forall i: nat | i < |xs| ensures Sorted(ds)[i] == Sorted(es)[i] {
      DeviationRank(xs, ys, m, Sorted(ds)[i], i);
      DeviationRank(xs, ys, m, Sorted(es)[i], i);
    }
  }

  lemma DeviationRank(xs: seq<real>, ys: seq<real>, m: real, t: real, i: nat)
    requires multiset(xs) == multiset(ys) && |xs| == |ys| && i < |xs|
    ensures Sorted(Deviations(xs, m))[i] <= t <==> Sorted(Deviations(ys, m))[i] <= t
  {
    var near: real -> bool := x => Abs(x - m) <= t;
    NearCount(xs, m, t, near);
    NearCount(ys, m, t, near);
    CountPermutation(xs, ys, near);
    Rank(Deviations(xs, m), t, i);
    Rank(Deviations(ys, m), t, i);
  }

  lemma NearCount(xs: seq<real>, m: real, t: real, near: real -> bool)
    requires forall x :: near(x) == (Abs(x - m) <= t)
    ensures Count(Deviations(xs, m), UpTo(t)) == Count(xs, near)
  {
    CountMonotone(xs, near, Deviations(xs, m), UpTo(t));
    CountMonotone(Deviations(xs, m), UpTo(t), xs, near);
  }

  /** A mask that depends only on the sample's value keeps all copies of a value or none. */
  lemma {:induction false} SelectMultiplicity<T>(xs: seq<T>, mask: seq<bool>, p: T -> bool, v: T)
    requires |mask| == |xs| && forall i | 0 <= i < |xs| :: mask[i] == p(xs[i])
    ensures multiset(Select(xs, mask, true))[v] == if p(v) then multiset(xs)[v] else 0
  {
    if |xs| > 0 {
      var rest := Select(xs[1..], mask[1..], true);
      SelectMultiplicity(xs[1..], mask[1..], p, v);
      assert xs == [xs[0]] + xs[1..];
      if mask[0] {
        assert Select(xs, mask, true) == [xs[0]] + rest;
      } else {
        assert Select(xs, mask, true) == rest;
      }
    }
  }

  lemma SelectPermutation<T(!new)>(xs: seq<T>, ys: seq<T>, mask: seq<bool>, mask': seq<bool>, p: T -> bool)
    requires multiset(xs) == multiset(ys)
    requires |mask| == |xs| && forall i | 0 <= i < |xs| :: mask[i] == p(xs[i])
    requires |mask'| == |ys| && forall i | 0 <= i < |ys| :: mask'[i] == p(ys[i])
    ensures multiset(Select(xs, mask, true)) == multiset(Select(ys, mask', true))
  {
    var kept, kept' := multiset(Select(xs, mask, true)), multiset(Select(ys, mask', true));
    forall v: T ensures kept[v] == kept'[v] {
      SelectMultiplicity(xs, mask, p, v);
      SelectMultiplicity(ys, mask', p, v);
    }
  }

  lemma SpreadPermutation(xs: seq<real>, ys: seq<real>)
    requires multiset(xs) == multiset(ys)
    ensures |xs| == |ys| && Median(xs) == Median(ys) && Mad(xs) == Mad(ys) && Iqr(xs) == Iqr(ys)
  {
    assert |xs| == |multiset(xs)| == |ys|;
    SortedPermutation(xs, ys);
    DeviationsPermutation(xs, ys, Median(xs));
  }

  lemma KeptPermutation(xs: seq<real>, ys: seq<real>, k: real)
    requires multiset(xs) == multiset(ys)
    ensures multiset(Kept(xs, k)) == multiset(Kept(ys, k))
  {
    SpreadPermutation(xs, ys);
    KeptAround(xs, ys, Median(xs), Mad(xs), k);
  }

  lemma KeptAround(xs: seq<real>, ys: seq<real>, m: real, s: real, k: real)
    requires multiset(xs) == multiset(ys) && |xs| == |ys|
    ensures multiset(Select(xs, MaskAround(xs, m, s, k), true)) == multiset(Select(ys, MaskAround(ys, m, s, k), true))
  {
    var p := Near(|xs| < 3 || s == 0.0, m, k * s);
    MaskIsNear(xs, m, s, k, p);
    MaskIsNear(ys, m, s, k, p);
    SelectPermutation(xs, ys, MaskAround(xs, m, s, k), MaskAround(ys, m, s, k), p);
  }

  function Near(all: bool, m: real, bound: real): real -> bool { x => all || Abs(x - m) <= bound }

  lemma MaskIsNear(xs: seq<real>, m: real, s: real, k: real, p: real -> bool)
    requires p == Near(|xs| < 3 || s == 0.0, m, k * s)
    ensures forall i | 0 <= i < |xs| :: MaskAround(xs, m, s, k)[i] == p(xs[i])
  {
  }

  /** The execution order of the replicates does not affect the summary: only `samples` records it. */
  lemma SummaryOrderInvariant(xs: seq<real>, ys: seq<real>, k: real, target: real, frac: real)
    requires multiset(xs) == multiset(ys)
    ensures Summarize(ys, k, target, frac) == Summarize(xs, k, target, frac).(samples := ys)
  {
    assert |xs| == |multiset(xs)| == |ys|;
    SelectCount(xs, HampelMask(xs, k));
    SelectCount(ys, HampelMask(ys, k));
    KeptPermutation(xs, ys, k);
    KeptSummaryPermutation(Kept(xs, k), Kept(ys, k));
  }

  lemma KeptSummaryPermutation(xs: seq<real>, ys: seq<real>)
    requires multiset(xs) == multiset(ys)
    ensures |xs| == |ys| && Median(xs) == Median(ys) && Mad(xs) == Mad(ys)
    ensures Iqr(xs) == Iqr(ys) && RelativeIqr(xs) == RelativeIqr(ys)
    ensures |xs| > 0 ==> Minimum(xs) == Minimum(ys) && Maximum(xs) == Maximum(ys)
  {
    SpreadPermutation(xs, ys);
    if |xs| > 0 {
      SameElements(xs, ys, Minimum(xs));
      SameElements(xs, ys, Maximum(xs));
      SameElements(xs, ys, Minimum(ys));
      SameElements(xs, ys, Maximum(ys));
    }
  }

  lemma SameElements(xs: seq<real>, ys: seq<real>, v: real)
    requires multiset(xs) == multiset(ys)
    ensures v in xs <==> v in ys
  {
    assert v in multiset(xs) <==> v in multiset(ys);
  }
}
