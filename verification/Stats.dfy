/**
  Robust summary statistics of replicated measurements (orchestrator/src/stats.rs):
  the scaled median absolute deviation, the Hampel filter and the summary that
  the stability gate reads.
*/
module Stats {
  import opened Sorting
  import opened Quantiles

  /** Scales a median absolute deviation to a standard deviation for normal data. */
  const MAD_SCALE: real := 1.4826

  function Abs(x: real): (r: real)
    ensures r >= 0.0 && (r == x || r == -x)
  {
    if x < 0.0 then -x else x
  }

  function Deviations(xs: seq<real>, m: real): (r: seq<real>)
    ensures |r| == |xs|
  {
    seq(|xs|, i requires 0 <= i < |xs| => Abs(xs[i] - m))
  }

  /** The unscaled median absolute deviation. */
  function MedianDeviation(xs: seq<real>): real {
    Median(Deviations(xs, Median(xs)))
  }

  function Mad(xs: seq<real>): real {
    if |xs| == 0 then 0.0 else MAD_SCALE * MedianDeviation(xs)
  }

  /** Which samples the Hampel rule keeps, given the median `m` and the scaled deviation `scale`. */
  function MaskAround(xs: seq<real>, m: real, scale: real, k: real): (mask: seq<bool>)
    ensures |mask| == |xs|
  {
    if |xs| < 3 || scale == 0.0 then
      seq(|xs|, i requires 0 <= i < |xs| => true)
    else
      seq(|xs|, i requires 0 <= i < |xs| => Abs(xs[i] - m) <= k * scale)
  }

  function HampelMask(xs: seq<real>, k: real): (mask: seq<bool>)
    ensures |mask| == |xs|
  {
    MaskAround(xs, Median(xs), Mad(xs), k)
  }

  /** The elements whose mask equals `want`, in input order. */
  function Select<T>(xs: seq<T>, mask: seq<bool>, want: bool): (r: seq<T>)
    requires |xs| == |mask|
    ensures |r| <= |xs|
  {
    if |xs| == 0 then []
    else (if mask[0] == want then [xs[0]] else []) + Select(xs[1..], mask[1..], want)
  }

  function Kept(xs: seq<real>, k: real): seq<real> { Select(xs, HampelMask(xs, k), true) }

  function Dropped(xs: seq<real>, k: real): seq<real> { Select(xs, HampelMask(xs, k), false) }

  /** The partition as the source computes it: one pass pushing into two vectors. */
  method HampelPartition(xs: seq<real>, k: real) returns (kept: seq<real>, dropped: seq<real>)
    ensures kept == Kept(xs, k) && dropped == Dropped(xs, k)
  {
    var mask := HampelMask(xs, k);
    kept, dropped := Split(xs, mask);
  }

  method Split(xs: seq<real>, mask: seq<bool>) returns (kept: seq<real>, dropped: seq<real>)
    requires |xs| == |mask|
    ensures kept == Select(xs, mask, true) && dropped == Select(xs, mask, false)
  {
    kept, dropped := [], [];
    for i := 0 to |xs|
      invariant kept + Select(xs[i..], mask[i..], true) == Select(xs, mask, true)
      invariant dropped + Select(xs[i..], mask[i..], false) == Select(xs, mask, false)
    {
      assert xs[i..][1..] == xs[i + 1..];
      assert mask[i..][1..] == mask[i + 1..];
      if mask[i] {
        kept := kept + [xs[i]];
      } else {
        dropped := dropped + [xs[i]];
      }
    }
  }

  function Minimum(xs: seq<real>): (m: real)
    requires |xs| > 0
    ensures m in xs && forall i | 0 <= i < |xs| :: m <= xs[i]
  {
    if |xs| == 1 then xs[0]
    else
      assert xs == [xs[0]] + xs[1..];
      var m := Minimum(xs[1..]);
      if xs[0] <= m then xs[0] else m
  }

  function Maximum(xs: seq<real>): (m: real)
    requires |xs| > 0
    ensures m in xs && forall i | 0 <= i < |xs| :: xs[i] <= m
  {
    if |xs| == 1 then xs[0]
    else
      assert xs == [xs[0]] + xs[1..];
      var m := Maximum(xs[1..]);
      if m <= xs[0] then xs[0] else m
  }

  datatype Stability = Stability(
    n: nat, replicates: nat, outliersDropped: nat,
    median: real, mad: real, iqr: real, min: real, max: real, relIqr: real,
    stable: bool, samples: seq<real>)

  function Relative(iqr: real, median: real): (r: real)
    ensures r >= 0.0
  {
    if median == 0.0 then 0.0 else Abs(iqr / median)
  }

  function RelativeIqr(kept: seq<real>): real { Relative(Iqr(kept), Median(kept)) }

  /** Enough survivors, a tight spread, and not too large a share rejected. */
  predicate IsStable(kept: nat, relIqr: real, dropped: nat, total: nat, targetRelIqr: real, maxOutlierFrac: real) {
    && kept >= 3
    && relIqr <= targetRelIqr
    && total > 0 && dropped as real / total as real <= maxOutlierFrac
  }

  function Summarize(samples: seq<real>, k: real, targetRelIqr: real, maxOutlierFrac: real): Stability {
    var kept, dropped := Kept(samples, k), Dropped(samples, k);
    Stability(
      |kept|, |samples|, |dropped|,
      Median(kept), Mad(kept), Iqr(kept),
      if |kept| > 0 then Minimum(kept) else 0.0,
      if |kept| > 0 then Maximum(kept) else 0.0,
      RelativeIqr(kept),
      IsStable(|kept|, RelativeIqr(kept), |dropped|, |samples|, targetRelIqr, maxOutlierFrac),
      samples)
  }

  // ---------- the partition ----------

  function IsTrue(): bool -> bool { b => b }

  lemma {:induction false} SelectCount<T>(xs: seq<T>, mask: seq<bool>)
    requires |xs| == |mask|
    ensures |Select(xs, mask, true)| == Count(mask, IsTrue())
    ensures |Select(xs, mask, true)| + |Select(xs, mask, false)| == |xs|
  {
    if |xs| > 0 {
      SelectCount(xs[1..], mask[1..]);
    }
  }

  /** Kept and dropped together are the samples, as a multiset. */
  lemma {:induction false} SelectPartitions<T>(xs: seq<T>, mask: seq<bool>)
    requires |xs| == |mask|
    ensures multiset(Select(xs, mask, true)) + multiset(Select(xs, mask, false)) == multiset(xs)
  {
    if |xs| > 0 {
      var rest, restMask := xs[1..], mask[1..];
      SelectPartitions(rest, restMask);
      assert multiset(xs) == multiset{xs[0]} + multiset(rest) by {
        assert xs == [xs[0]] + rest;
      }
      if mask[0] {
        assert Select(xs, mask, true) == [xs[0]] + Select(rest, restMask, true);
      } else {
        assert Select(xs, mask, false) == [xs[0]] + Select(rest, restMask, false);
      }
    }
  }

  /** Every selected element stands at a selected index. */
  lemma {:induction false} SelectedFrom<T>(xs: seq<T>, mask: seq<bool>, want: bool, j: nat) returns (i: nat)
    requires |xs| == |mask| && j < |Select(xs, mask, want)|
    ensures i < |xs| && mask[i] == want && xs[i] == Select(xs, mask, want)[j]
  {
    if mask[0] != want {
      i := SelectedFrom(xs[1..], mask[1..], want, j);
      i := i + 1;
    } else if j == 0 {
      i := 0;
    } else {
      i := SelectedFrom(xs[1..], mask[1..], want, j - 1);
      i := i + 1;
    }
  }

  /** The positions below `n` whose mask equals `want`: all of them, ascending. */
  function Positions(mask: seq<bool>, want: bool, n: nat): (at: seq<nat>)
    requires n <= |mask|
    ensures forall j | 0 <= j < |at| :: at[j] < n && mask[at[j]] == want
    ensures forall j, l | 0 <= j < l < |at| :: at[j] < at[l]
  {
    if n == 0 then [] else Positions(mask, want, n - 1) + if mask[n - 1] == want then [n - 1] else []
  }

  lemma {:induction false} PositionsComplete(mask: seq<bool>, want: bool, n: nat, i: nat)
    requires i < n <= |mask| && mask[i] == want
    ensures i in Positions(mask, want, n)
  {
    if i < n - 1 {
      PositionsComplete(mask, want, n - 1, i);
    }
  }

  lemma {:induction false} SelectSnoc<T>(xs: seq<T>, mask: seq<bool>, want: bool, x: T, b: bool)
    requires |xs| == |mask|
    ensures Select(xs + [x], mask + [b], want) == Select(xs, mask, want) + if b == want then [x] else []
  {
    if |xs| > 0 {
      SelectSnoc(xs[1..], mask[1..], want, x, b);
      assert (xs + [x])[1..] == xs[1..] + [x] && (mask + [b])[1..] == mask[1..] + [b];
    }
  }

  /** The selection is the samples at the selected positions, in order. */
  lemma {:induction false} SelectInOrder<T>(xs: seq<T>, mask: seq<bool>, want: bool, n: nat)
    requires |xs| == |mask| && n <= |xs|
    ensures var at, kept := Positions(mask, want, n), Select(xs[..n], mask[..n], want);
            |kept| == |at| && forall j | 0 <= j < |at| :: kept[j] == xs[at[j]]
  {
    if n > 0 {
      SelectInOrder(xs, mask, want, n - 1);
      SelectSnoc(xs[..n - 1], mask[..n - 1], want, xs[n - 1], mask[n - 1]);
      assert xs[..n] == xs[..n - 1] + [xs[n - 1]] && mask[..n] == mask[..n - 1] + [mask[n - 1]];
    }
  }

  /** The kept and dropped counts add up, the spread is not negative, and the median lies between the extremes. */
  lemma SummaryOrdered(samples: seq<real>, k: real, target: real, frac: real)
    ensures var s := Summarize(samples, k, target, frac);
            && s.n + s.outliersDropped == s.replicates == |samples|
            && s.iqr >= 0.0 && s.relIqr >= 0.0
            && (s.n > 0 ==> s.min <= s.median <= s.max)
  {
    SelectCount(samples, HampelMask(samples, k));
    KeptOrdered(Kept(samples, k));
  }

  lemma KeptOrdered(kept: seq<real>)
    ensures Iqr(kept) >= 0.0 && RelativeIqr(kept) >= 0.0
    ensures |kept| > 0 ==> Minimum(kept) <= Median(kept) <= Maximum(kept)
  {
    IqrNonNegative(kept);
    if |kept| > 0 {
      MedianInRange(kept, Minimum(kept), Maximum(kept));
    }
  }
}
