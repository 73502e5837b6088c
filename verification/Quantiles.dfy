/**
  Interpolated order statistics (orchestrator/src/stats.rs).

  `real` stands for `f64`: no rounding and no NaN.
*/
module Quantiles {
  import opened Numbers
  import opened Sorting

  predicate Leq(x: real, y: real) { x <= y }

  function Sorted(xs: seq<real>): seq<real> { Sort(xs, Leq) }

  function UpTo(t: real): real -> bool { x => x <= t }

  function Under(t: real): real -> bool { x => x < t }

  // ---------- order statistics of reals ----------

  lemma SortedIsSorted(xs: seq<real>)
    ensures |Sorted(xs)| == |xs|
    ensures forall i, j | 0 <= i <= j < |xs| :: Sorted(xs)[i] <= Sorted(xs)[j]
  {
    SortSorted(xs, Leq);
    forall i, j | 0 <= i <= j < |xs| ensures Sorted(xs)[i] <= Sorted(xs)[j] {
      assert i < j ==> Leq(Sort(xs, Leq)[i], Sort(xs, Leq)[j]);
    }
  }

  lemma Rank(xs: seq<real>, t: real, i: nat)
    requires i < |xs|
    ensures Sorted(xs)[i] <= t <==> Count(xs, UpTo(t)) > i
    ensures Sorted(xs)[i] < t <==> Count(xs, Under(t)) > i
  {
    RankAtMost(xs, Leq, t, i);
    RankBelow(xs, Leq, t, i);
    forall x ensures AtMost(Leq, t)(x) == UpTo(t)(x) && Below(Leq, t)(x) == Under(t)(x) {
      assert AtMost(Leq, t)(x) == Leq(x, t);
      assert Below(Leq, t)(x) == !Leq(t, x);
    }
    CountSame(xs, AtMost(Leq, t), UpTo(t));
    CountSame(xs, Below(Leq, t), Under(t));
  }

  lemma CountSame(xs: seq<real>, p: real -> bool, q: real -> bool)
    requires forall i | 0 <= i < |xs| :: p(xs[i]) == q(xs[i])
    ensures Count(xs, p) == Count(xs, q)
  {
    CountMonotone(xs, p, xs, q);
    CountMonotone(xs, q, xs, p);
  }

  /** Order statistics are monotone: raising every sample raises each of them. */
  lemma SortedMonotone(xs: seq<real>, ys: seq<real>, i: nat)
    requires i < |xs| == |ys|
    requires forall k | 0 <= k < |xs| :: xs[k] <= ys[k]
    ensures Sorted(xs)[i] <= Sorted(ys)[i]
  {
    var t := Sorted(ys)[i];
    Rank(ys, t, i);
    CountMonotone(ys, UpTo(t), xs, UpTo(t));
    Rank(xs, t, i);
  }

  lemma CountRemove<T>(s: seq<T>, j: nat, p: T -> bool)
    requires j < |s|
    ensures Count(s, p) == (if p(s[j]) then 1 else 0) + Count(s[..j] + s[j + 1..], p)
  {
    var tail := s[j..];
    assert s == s[..j] + tail;
    CountAppend(s[..j], tail, p);
    assert tail[1..] == s[j + 1..];
    CountAppend(s[..j], s[j + 1..], p);
  }

  lemma MultisetRemove<T>(s: seq<T>, j: nat)
    requires j < |s|
    ensures multiset(s[..j] + s[j + 1..]) == multiset(s) - multiset{s[j]}
  {
    assert s == s[..j] + ([s[j]] + s[j + 1..]);
  }

  /** Counting sees only the multiset of the samples. */
  lemma {:induction false} CountPermutation<T>(xs: seq<T>, ys: seq<T>, p: T -> bool)
    requires multiset(xs) == multiset(ys)
    ensures Count(xs, p) == Count(ys, p)
  {
    if |xs| == 0 {
      assert |multiset(ys)| == |ys|;
    } else {
      var j := Occurrence(xs, ys);
      CountPermutation(xs[1..], ys[..j] + ys[j + 1..], p);
      CountRemove(ys, j, p);
    }
  }

  /** The first sample of one arrangement occurs in the other, and removing both leaves arrangements of one multiset. */
  lemma Occurrence<T>(xs: seq<T>, ys: seq<T>) returns (j: nat)
    requires multiset(xs) == multiset(ys) && |xs| > 0
    ensures j < |ys| && ys[j] == xs[0]
    ensures multiset(xs[1..]) == multiset(ys[..j] + ys[j + 1..])
  {
    assert xs[0] in multiset(ys);
    j :| 0 <= j < |ys| && ys[j] == xs[0];
    MultisetRemove(xs, 0);
    MultisetRemove(ys, j);
    assert xs[..0] + xs[1..] == xs[1..];
  }

  /** The sorted arrangement does not depend on the order of the samples. */
  lemma SortedPermutation(xs: seq<real>, ys: seq<real>)
    requires multiset(xs) == multiset(ys)
    ensures Sorted(xs) == Sorted(ys)
  {
    assert |xs| == |multiset(xs)| == |ys|;
    forall i | 0 <= i < |xs| ensures Sorted(xs)[i] == Sorted(ys)[i] {
      var s, t := Sorted(xs)[i], Sorted(ys)[i];
      CountPermutation(xs, ys, UpTo(s));
      CountPermutation(xs, ys, UpTo(t));
      Rank(xs, s, i);
      Rank(xs, t, i);
      Rank(ys, s, i);
      Rank(ys, t, i);
    }
  }

  // ---------- the quantile ----------

  function Clamp(q: real): (r: real)
    ensures 0.0 <= r <= 1.0
  {
    if q < 0.0 then 0.0 else if q > 1.0 then 1.0 else q
  }

  function Ceil(x: real): (c: int)
    ensures x <= c as real < x + 1.0
  {
    if x.Floor as real == x then x.Floor else x.Floor + 1
  }

  function Interpolate(x: real, y: real, f: real): real { (y - x) * f + x }

  /** Linear interpolation of the sorted sequence at a fractional position. */
  function At(v: seq<real>, pos: real): real
    requires |v| > 0 && 0.0 <= pos <= (|v| - 1) as real
  {
    var lo := pos.Floor;
    var hi := Ceil(pos);
    var frac := pos - lo as real;
    Interpolate(v[lo], v[hi], frac)
  }

  /** The fractional position of quantile `q` among `n` sorted samples. */
  function Position(q: real, n: nat): (pos: real)
    requires n > 0
    ensures 0.0 <= pos <= (n - 1) as real
  {
    Clamp(q) * (n - 1) as real
  }

  function Quantile(xs: seq<real>, q: real): real {
    if |xs| == 0 then 0.0 else At(Sorted(xs), Position(q, |xs|))
  }

  method ToVec(xs: seq<real>) returns (v: array<real>)
    ensures fresh(v) && v[..] == xs
  {
    v := new real[|xs|](i requires 0 <= i < |xs| => xs[i]);
  }

  /** The quantile as the source computes it: copy, sort the copy in place, interpolate. */
  method ComputeQuantile(xs: seq<real>, q: real) returns (r: real)
    ensures r == Quantile(xs, q)
  {
    if |xs| == 0 {
      return 0.0;
    }
    var v := ToVec(xs);
    SortInPlace(v, Leq);
    ghost var sorted := v[..];
    assert sorted == Sorted(xs);
    if v.Length == 1 {
      assert Position(q, 1) == 0.0;
      return v[0];
    }
    var pos := Position(q, v.Length);
    var lo := pos.Floor;
    var hi := Ceil(pos);
    var frac := pos - lo as real;
    assert v[hi] == sorted[hi] && v[lo] == sorted[lo];
    r := Interpolate(v[lo], v[hi], frac);
  }

  function Iqr(xs: seq<real>): real { Quantile(xs, 0.75) - Quantile(xs, 0.25) }

  /** The mean of the two middle order statistics, which coincide for odd lengths. */
  function Median(xs: seq<real>): real {
    if |xs| == 0 then 0.0 else (Sorted(xs)[(|xs| - 1) / 2] + Sorted(xs)[|xs| / 2]) / 2.0
  }

  /** `v` stands at position `i` of the sorted samples: more than `i` of them are at most `v`, and at most `i` below it. */
  ghost predicate IsOrderStatistic(xs: seq<real>, i: nat, v: real) {
    Count(xs, UpTo(v)) > i && Count(xs, Under(v)) <= i
  }

  /** `m` is the mean of the two middle values, found by counting. */
  ghost predicate IsMiddle(xs: seq<real>, m: real) {
    |xs| > 0 && exists lo, hi :: AreMiddle(xs, lo, hi) && m == (lo + hi) / 2.0
  }

  ghost predicate AreMiddle(xs: seq<real>, lo: real, hi: real)
    requires |xs| > 0
  {
    IsOrderStatistic(xs, (|xs| - 1) / 2, lo) && IsOrderStatistic(xs, |xs| / 2, hi)
  }

  lemma OrderStatisticIff(xs: seq<real>, i: nat, v: real)
    requires i < |xs|
    ensures IsOrderStatistic(xs, i, v) <==> v == Sorted(xs)[i]
  {
    Rank(xs, v, i);
  }

  /** The median is the middle value, and the only one. */
  lemma MedianIsMiddle(xs: seq<real>, m: real)
    requires |xs| > 0
    ensures IsMiddle(xs, m) <==> m == Median(xs)
  {
    var lo, hi := Sorted(xs)[(|xs| - 1) / 2], Sorted(xs)[|xs| / 2];
    OrderStatisticIff(xs, (|xs| - 1) / 2, lo);
    OrderStatisticIff(xs, |xs| / 2, hi);
    assert AreMiddle(xs, lo, hi);
    if IsMiddle(xs, m) {
      var lo', hi' :| AreMiddle(xs, lo', hi') && m == (lo' + hi') / 2.0;
      OrderStatisticIff(xs, (|xs| - 1) / 2, lo');
      OrderStatisticIff(xs, |xs| / 2, hi');
    }
  }

  /** The source's definition of the median, the 0.5 quantile, is that mean. */
  lemma MedianIsHalfQuantile(xs: seq<real>)
    ensures Quantile(xs, 0.5) == Median(xs)
  {
    if |xs| > 0 {
      var n := |xs|;
      var m := (n - 1) / 2;
      var pos := Position(0.5, n);
      assert pos == (n - 1) as real / 2.0;
      if n % 2 == 1 {
        assert n - 1 == 2 * m;
        assert pos == m as real;
      } else {
        assert n - 1 == 2 * m + 1;
        assert pos == m as real + 0.5;
        assert pos.Floor == m;
      }
    }
  }

  method ComputeMedian(xs: seq<real>) returns (r: real)
    ensures r == Median(xs)
  {
    r := ComputeQuantile(xs, 0.5);
    MedianIsHalfQuantile(xs);
  }

  lemma KnotPosition(pos: real, n: nat, q: real)
    requires n >= 2 && 0.0 <= pos <= (n - 1) as real && q == pos / (n - 1) as real
    ensures Position(q, n) == pos
  {
    var m := (n - 1) as real;
    assert q * m == pos;
    if q > 1.0 {
      PositiveProduct(q - 1.0, m);
    }
    if q < 0.0 {
      PositiveProduct(-q, m);
    }
  }

  lemma AtFraction(v: seq<real>, k: nat, f: real, x: real, y: real)
    requires k + 1 < |v| && 0.0 <= f <= 1.0 && x == v[k] && y == v[k + 1]
    ensures At(v, k as real + f) == (1.0 - f) * x + f * y
  {
    var pos := k as real + f;
    if f == 0.0 {
      AtInteger(v, k, pos);
    } else if f == 1.0 {
      AtInteger(v, k + 1, pos);
    } else {
      assert pos.Floor == k && Ceil(pos) == k + 1;
      InterpolateIsMean(x, y, f);
    }
  }

  lemma AtInteger(v: seq<real>, k: nat, pos: real)
    requires k < |v| && pos == k as real
    ensures At(v, pos) == v[k]
  {
  }

  lemma InterpolateIsMean(x: real, y: real, f: real)
    ensures Interpolate(x, y, f) == (1.0 - f) * x + f * y
  {
  }

  /**
    Definition 7 of Hyndman and Fan: q = k/(n-1) gives the k-th order statistic
    itself, and between two such knots the quantile is the weighted mean of the
    neighbouring order statistics.
  */
  lemma QuantileBetweenKnots(xs: seq<real>, k: nat, f: real, q: real)
    requires k + 1 < |xs| && 0.0 <= f <= 1.0 && q == (k as real + f) / (|xs| - 1) as real
    ensures Quantile(xs, q) == (1.0 - f) * Sorted(xs)[k] + f * Sorted(xs)[k + 1]
  {
    KnotPosition(k as real + f, |xs|, q);
    AtFraction(Sorted(xs), k, f, Sorted(xs)[k], Sorted(xs)[k + 1]);
  }

  // ---------- range and monotonicity ----------

  ghost predicate Ascending(v: seq<real>) {
    forall i, j | 0 <= i <= j < |v| :: v[i] <= v[j]
  }

  lemma AtWithinSegment(v: seq<real>, pos: real)
    requires |v| > 0 && 0.0 <= pos <= (|v| - 1) as real && Ascending(v)
    ensures v[pos.Floor] <= At(v, pos) <= v[Ceil(pos)]
  {
    var lo, hi := pos.Floor, Ceil(pos);
    var frac := pos - lo as real;
    assert 0.0 <= frac < 1.0;
    var d := v[hi] - v[lo];
    assert 0.0 <= d;
    ScaleBounds(d, frac);
  }

  lemma ScaleBounds(d: real, f: real)
    requires 0.0 <= d && 0.0 <= f <= 1.0
    ensures 0.0 <= d * f <= d
  {
    assert d * (1.0 - f) >= 0.0;
  }

  /** Interpolation is monotone in the position, also across segments. */
  lemma AtMonotone(v: seq<real>, p: real, p': real)
    requires |v| > 0 && 0.0 <= p <= p' <= (|v| - 1) as real && Ascending(v)
    ensures At(v, p) <= At(v, p')
  {
    AtWithinSegment(v, p);
    AtWithinSegment(v, p');
    if p.Floor == p'.Floor {
      if p.Floor as real != p {
        var lo, hi := p.Floor, Ceil(p);
        var d := v[hi] - v[lo];
        assert Ceil(p') == hi;
        var step := p' - p;
        assert d * step >= 0.0;
        assert d * (p' - lo as real) == d * (p - lo as real) + d * step;
      }
    } else {
      assert Ceil(p) <= p'.Floor;
    }
  }

  lemma PositionMonotone(q: real, q': real, n: nat)
    requires n > 0 && q <= q'
    ensures Position(q, n) <= Position(q', n)
  {
    var d := Clamp(q') - Clamp(q);
    assert d * (n - 1) as real >= 0.0;
  }

  lemma QuantileMonotone(xs: seq<real>, q: real, q': real)
    requires q <= q'
    ensures Quantile(xs, q) <= Quantile(xs, q')
  {
    if |xs| > 0 {
      SortedIsSorted(xs);
      PositionMonotone(q, q', |xs|);
      AtMonotone(Sorted(xs), Position(q, |xs|), Position(q', |xs|));
    }
  }

  lemma IqrNonNegative(xs: seq<real>)
    ensures Iqr(xs) >= 0.0
  {
    QuantileMonotone(xs, 0.25, 0.75);
  }

  /** A quantile lies in every interval that holds all the samples. */
  lemma QuantileInRange(xs: seq<real>, q: real, a: real, b: real)
    requires |xs| > 0
    requires forall i | 0 <= i < |xs| :: a <= xs[i] <= b
    ensures a <= Quantile(xs, q) <= b
  {
    SortedIsSorted(xs);
    var v := Sorted(xs);
    AtWithinSegment(v, Position(q, |xs|));
    forall i | 0 <= i < |v| ensures a <= v[i] <= b {
      SortedElement(xs, Leq, i);
    }
  }

  lemma MedianInRange(xs: seq<real>, a: real, b: real)
    requires |xs| > 0
    requires forall i | 0 <= i < |xs| :: a <= xs[i] <= b
    ensures a <= Median(xs) <= b
  {
    MedianIsHalfQuantile(xs);
    QuantileInRange(xs, 0.5, a, b);
  }

  lemma QuantilePermutation(xs: seq<real>, ys: seq<real>, q: real)
    requires multiset(xs) == multiset(ys)
    ensures Quantile(xs, q) == Quantile(ys, q)
  {
    assert |xs| == |multiset(xs)| == |ys|;
    SortedPermutation(xs, ys);
  }

  /** The median is monotone under pointwise comparison of equally long sequences. */
  lemma MedianMonotone(xs: seq<real>, ys: seq<real>)
    requires |xs| == |ys|
    requires forall k | 0 <= k < |xs| :: xs[k] <= ys[k]
    ensures Median(xs) <= Median(ys)
  {
    if |xs| > 0 {
      SortedMonotone(xs, ys, (|xs| - 1) / 2);
      SortedMonotone(xs, ys, |xs| / 2);
    }
  }

  // ---------- affine maps ----------

  function Affine(xs: seq<real>, a: real, b: real): (r: seq<real>)
    ensures |r| == |xs|
  {
    if |xs| == 0 then [] else [a * xs[0] + b] + Affine(xs[1..], a, b)
  }

  lemma {:induction false} AffineAt(xs: seq<real>, a: real, b: real, k: nat, x: real)
    requires k < |xs| && xs[k] == x
    ensures Affine(xs, a, b)[k] == a * x + b
  {
    if k > 0 {
      AffineAt(xs[1..], a, b, k - 1, x);
    }
  }

  lemma ScaleOrder(a: real, x: real, y: real)
    requires a > 0.0
    ensures a * x <= a * y <==> x <= y
  {
    if x <= y {
      assert a * (y - x) >= 0.0;
    } else {
      assert a * (x - y) > 0.0;
    }
  }

  lemma AffineOrder(a: real, b: real, x: real, y: real)
    requires a != 0.0
    ensures a * y + b <= a * x + b <==> if a > 0.0 then y <= x else x <= y
  {
    if a > 0.0 {
      ScaleOrder(a, y, x);
    } else {
      ScaleOrder(-a, x, y);
      assert (-a) * x == -(a * x) && (-a) * y == -(a * y);
    }
  }

  lemma CountThrough(xs: seq<real>, x: real, ys: seq<real>, t: real)
    requires |xs| == |ys|
    requires forall k | 0 <= k < |xs| :: ys[k] <= t <==> xs[k] <= x
    ensures Count(ys, UpTo(t)) == Count(xs, UpTo(x))
  {
    CountMonotone(xs, UpTo(x), ys, UpTo(t));
    CountMonotone(ys, UpTo(t), xs, UpTo(x));
  }

  lemma CountThroughReversed(xs: seq<real>, x: real, ys: seq<real>, t: real)
    requires |xs| == |ys|
    requires forall k | 0 <= k < |xs| :: ys[k] <= t <==> x <= xs[k]
    ensures Count(ys, UpTo(t)) == |xs| - Count(xs, Under(x))
  {
    var from: real -> bool := y => x <= y;
    CountMonotone(xs, from, ys, UpTo(t));
    CountMonotone(ys, UpTo(t), xs, from);
    CountComplement(xs, from, Under(x));
  }

  lemma AffineOrderAt(xs: seq<real>, a: real, b: real, x: real, k: nat)
    requires a != 0.0 && k < |xs|
    ensures Affine(xs, a, b)[k] <= a * x + b <==> if a > 0.0 then xs[k] <= x else x <= xs[k]
  {
    AffineAt(xs, a, b, k, xs[k]);
    AffineOrder(a, b, x, xs[k]);
  }

  /** How many mapped samples are at most `t`, the image of `x`, in terms of the samples themselves. */
  lemma AffineCount(xs: seq<real>, a: real, b: real, x: real, t: real)
    requires a != 0.0 && t == a * x + b
    ensures Count(Affine(xs, a, b), UpTo(t)) ==
              if a > 0.0 then Count(xs, UpTo(x)) else |xs| - Count(xs, Under(x))
  {
    forall k | 0 <= k < |xs|
      ensures Affine(xs, a, b)[k] <= t <==> if a > 0.0 then xs[k] <= x else x <= xs[k]
    {
      AffineOrderAt(xs, a, b, x, k);
    }
    if a > 0.0 {
      CountThrough(xs, x, Affine(xs, a, b), t);
    } else {
      CountThroughReversed(xs, x, Affine(xs, a, b), t);
    }
  }

  /** A positive affine map keeps the arrangement; a negative one reverses it. */
  lemma SortedAffine(xs: seq<real>, a: real, b: real, i: nat, x: real)
    requires a != 0.0 && i < |xs| && x == Sorted(xs)[if a > 0.0 then i else |xs| - 1 - i]
    ensures Sorted(Affine(xs, a, b))[i] == a * x + b
  {
    var y := Sorted(Affine(xs, a, b))[i];
    var x' := Preimage(a, b, y);
    SortedAffineRank(xs, a, b, x, a * x + b, i, x);
    SortedAffineRank(xs, a, b, x', y, i, x);
    PinnedBetween(a, b, x, x', y);
  }

  lemma Preimage(a: real, b: real, y: real) returns (x: real)
    requires a != 0.0
    ensures y == a * x + b
  {
    x := (y - b) / a;
  }

  lemma PinnedBetween(a: real, b: real, x: real, x': real, y: real)
    requires a != 0.0 && y == a * x' + b && y <= a * x + b
    requires if a > 0.0 then x <= x' else x' <= x
    ensures y == a * x + b
  {
    AffineOrder(a, b, x', x);
  }

  /** The i-th smallest image is at most the image `t` of `x` exactly when the sample `v` mapped there is on the right side of `x`. */
  lemma SortedAffineRank(xs: seq<real>, a: real, b: real, x: real, t: real, i: nat, v: real)
    requires a != 0.0 && i < |xs| && t == a * x + b
    requires v == Sorted(xs)[if a > 0.0 then i else |xs| - 1 - i]
    ensures Sorted(Affine(xs, a, b))[i] <= t <==> if a > 0.0 then v <= x else x <= v
  {
    AffineCount(xs, a, b, x, t);
    Rank(Affine(xs, a, b), t, i);
    Rank(xs, x, if a > 0.0 then i else |xs| - 1 - i);
  }

  /** The position of the mirrored quantile is the mirrored position. */
  lemma PositionMirror(q: real, n: nat)
    requires n > 0
    ensures Position(1.0 - q, n) == (n - 1) as real - Position(q, n)
  {
    assert Clamp(1.0 - q) == 1.0 - Clamp(q);
  }

  lemma InterpolateAffine(x: real, y: real, f: real, a: real, b: real)
    ensures Interpolate(a * x + b, a * y + b, f) == a * Interpolate(x, y, f) + b
  {
  }

  lemma InterpolateBackwards(x: real, y: real, f: real)
    ensures Interpolate(x, y, f) == Interpolate(y, x, 1.0 - f)
  {
  }

  /** Interpolating the images of two elements gives the image of their interpolation. */
  lemma AtImage(w: seq<real>, a: real, b: real, pos: real, x: real, x': real, r: real)
    requires |w| > 0 && 0.0 <= pos <= (|w| - 1) as real
    requires w[pos.Floor] == a * x + b && w[Ceil(pos)] == a * x' + b
    requires r == Interpolate(x, x', pos - pos.Floor as real)
    ensures At(w, pos) == a * r + b
  {
    InterpolateAffine(x, x', pos - pos.Floor as real, a, b);
  }

  lemma ScaledAt(xs: seq<real>, a: real, b: real, pos: real, r: real)
    requires a > 0.0 && |xs| > 0 && 0.0 <= pos <= (|xs| - 1) as real
    requires r == At(Sorted(xs), pos)
    ensures At(Sorted(Affine(xs, a, b)), pos) == a * r + b
  {
    var x, x' := Sorted(xs)[pos.Floor], Sorted(xs)[Ceil(pos)];
    SortedAffine(xs, a, b, pos.Floor, x);
    SortedAffine(xs, a, b, Ceil(pos), x');
    AtImage(Sorted(Affine(xs, a, b)), a, b, pos, x, x', r);
  }

  lemma MirroredPosition(n: nat, pos: real, pos': real)
    requires n > 0 && 0.0 <= pos <= (n - 1) as real && pos' == (n - 1) as real - pos
    ensures pos'.Floor == n - 1 - Ceil(pos) && Ceil(pos') == n - 1 - pos.Floor
    ensures Ceil(pos) != pos.Floor ==> pos' - pos'.Floor as real == 1.0 - (pos - pos.Floor as real)
  {
  }

  /** Reading a sequence at the mirrored position interpolates the same two elements backwards. */
  lemma AtMirrored(v: seq<real>, pos: real, pos': real, x: real, x': real)
    requires |v| > 0 && 0.0 <= pos <= (|v| - 1) as real && pos' == (|v| - 1) as real - pos
    requires x == v[|v| - 1 - pos.Floor] && x' == v[|v| - 1 - Ceil(pos)]
    ensures At(v, pos') == Interpolate(x, x', pos - pos.Floor as real)
  {
    MirroredPosition(|v|, pos, pos');
    if pos.Floor != Ceil(pos) {
      InterpolateBackwards(x, x', pos - pos.Floor as real);
    }
  }

  lemma ReflectedAt(xs: seq<real>, a: real, b: real, pos: real, pos': real, r: real)
    requires a < 0.0 && |xs| > 0 && 0.0 <= pos <= (|xs| - 1) as real
    requires pos' == (|xs| - 1) as real - pos && r == At(Sorted(xs), pos')
    ensures At(Sorted(Affine(xs, a, b)), pos) == a * r + b
  {
    var x := Sorted(xs)[|xs| - 1 - pos.Floor];
    var x' := Sorted(xs)[|xs| - 1 - Ceil(pos)];
    AtMirrored(Sorted(xs), pos, pos', x, x');
    SortedAffine(xs, a, b, pos.Floor, x);
    SortedAffine(xs, a, b, Ceil(pos), x');
    AtImage(Sorted(Affine(xs, a, b)), a, b, pos, x, x', r);
  }

  /**
    `quantile(a*x + b, q)` is `a*quantile(x, q) + b` for positive `a` and mirrors
    `q` for negative `a`, exactly when there is a sample or the shift is zero: the
    empty list reports 0.0 whatever the map. `r` is the quantile being mapped.
  */
  lemma QuantileAffine(xs: seq<real>, a: real, b: real, q: real, r: real)
    requires a != 0.0
    requires r == Quantile(xs, if a > 0.0 then q else 1.0 - q)
    ensures Quantile(Affine(xs, a, b), q) == a * r + b <==> xs != [] || b == 0.0
  {
    if |xs| > 0 {
      if a > 0.0 {
        QuantileScaled(xs, a, b, q, r);
      } else {
        QuantileReflected(xs, a, b, q, r);
      }
    }
  }

  lemma QuantileScaled(xs: seq<real>, a: real, b: real, q: real, r: real)
    requires a > 0.0 && |xs| > 0 && r == Quantile(xs, q)
    ensures Quantile(Affine(xs, a, b), q) == a * r + b
  {
    ScaledAt(xs, a, b, Position(q, |xs|), r);
  }

  lemma QuantileReflected(xs: seq<real>, a: real, b: real, q: real, r: real)
    requires a < 0.0 && |xs| > 0 && r == Quantile(xs, 1.0 - q)
    ensures Quantile(Affine(xs, a, b), q) == a * r + b
  {
    PositionMirror(q, |xs|);
    ReflectedAt(xs, a, b, Position(q, |xs|), Position(1.0 - q, |xs|), r);
  }

  /** The median `m` of a non-empty sample commutes with every affine map, reflections included. */
  lemma MedianAffine(xs: seq<real>, a: real, b: real, m: real)
    requires a != 0.0 && |xs| > 0 && m == Median(xs)
    ensures Median(Affine(xs, a, b)) == a * m + b
  {
    var i, j := (|xs| - 1) / 2, |xs| / 2;
    assert |xs| - 1 - i == j && |xs| - 1 - j == i;
    if a > 0.0 {
      MiddleAffine(xs, a, b, m, i, j, Sorted(xs)[i], Sorted(xs)[j]);
    } else {
      MiddleAffine(xs, a, b, m, i, j, Sorted(xs)[j], Sorted(xs)[i]);
    }
  }

  lemma MiddleAffine(xs: seq<real>, a: real, b: real, m: real, i: nat, j: nat, x: real, x': real)
    requires a != 0.0 && |xs| > 0 && i == (|xs| - 1) / 2 && j == |xs| / 2 && m == (x + x') / 2.0
    requires x == Sorted(xs)[if a > 0.0 then i else |xs| - 1 - i]
    requires x' == Sorted(xs)[if a > 0.0 then j else |xs| - 1 - j]
    ensures Median(Affine(xs, a, b)) == a * m + b
  {
    SortedAffine(xs, a, b, i, x);
    SortedAffine(xs, a, b, j, x');
    AffineMean(a, b, x, x', m);
  }

  lemma AffineMean(a: real, b: real, x: real, y: real, m: real)
    requires m == (x + y) / 2.0
    ensures ((a * x + b) + (a * y + b)) / 2.0 == a * m + b
  {
  }
}
