/**
  The tally of the ranking in the records' scores and spreads (`geomeanVsBase` and
  `baselineCells` in docs/rankings.html).
*/
module TallyMeaning {
  import opened Wrappers
  import opened Numbers
  import opened Ranking

  // ---------- entries ----------

  /** The record counts on the board: accepted, not inverted, with a positive score. */
  ghost predicate Scores(b: Board, r: Rec) {
    b.ok(r) && !r.inverted && b.score(r).Some? && b.score(r).value > 0.0
  }

  /** Record `i` is the last one that counts for library `v` in cell `k`, among the first `n`. */
  ghost predicate IsLastScore(b: Board, n: nat, k: Key, v: string, i: nat)
    requires n <= |b.recs|
  {
    && i < n && b.recs[i].key == k && b.recs[i].variant == v && Scores(b, b.recs[i])
    && forall j | i < j < n :: !(b.recs[j].key == k && b.recs[j].variant == v && Scores(b, b.recs[j]))
  }

  lemma {:induction false} SlotAfterMeans(b: Board, n: nat, k: Key, v: string, i: nat)
    requires n <= |b.recs| && IsLastScore(b, n, k, v, i)
    ensures SlotAfter(b, n, k, v) == Some(Slot(b.score(b.recs[i]).value, b.recs[i].relIqr))
  {
    if i < n - 1 {
      SlotAfterMeans(b, n - 1, k, v, i);
    }
  }

  lemma {:induction false} SlotAfterFound(b: Board, n: nat, k: Key, v: string) returns (i: nat)
    requires n <= |b.recs| && SlotAfter(b, n, k, v).Some?
    ensures IsLastScore(b, n, k, v, i)
  {
    var r := b.recs[n - 1];
    if r.key == k && r.variant == v && Accepts(b, r).Some? {
      i := n - 1;
    } else {
      i := SlotAfterFound(b, n - 1, k, v);
    }
  }

  /** A library's entry in a cell is the score and spread of its last record there that counts. */
  lemma SlotMeans(b: Board, k: Key, v: string, s: Slot)
    ensures SlotOf(b, k, v) == Some(s) <==>
              exists i: nat :: IsLastScore(b, |b.recs|, k, v, i) && s == Slot(b.score(b.recs[i]).value, b.recs[i].relIqr)
  {
    if SlotOf(b, k, v) == Some(s) {
      var i := SlotAfterFound(b, |b.recs|, k, v);
      SlotAfterMeans(b, |b.recs|, k, v, i);
    }
    if i: nat :| IsLastScore(b, |b.recs|, k, v, i) && s == Slot(b.score(b.recs[i]).value, b.recs[i].relIqr) {
      SlotAfterMeans(b, |b.recs|, k, v, i);
    }
  }

  // ---------- ties and ratios ----------

  lemma QuotientDistance(x: real, y: real, w: real)
    requires y > 0.0
    ensures Distance(x / y, 1.0) <= w <==> Distance(x, y) <= w * y
  {
    var q := x / y;
    assert x == q * y;
    var d := Distance(q, 1.0);
    if q < 1.0 {
      assert (1.0 - q) * y == y - x;
      assert (1.0 - q) * y > 0.0;
    } else {
      assert (q - 1.0) * y == x - y;
      assert (q - 1.0) * y >= 0.0;
    }
    assert d * y == Distance(x, y);
    if d <= w {
      assert (w - d) * y >= 0.0;
    } else {
      assert (d - w) * y > 0.0;
    }
  }

  /** The scores differ by no more than the two spreads together, in units of libzmq's score. */
  ghost predicate WithinSpreads(s: Slot, base: Slot) {
    Distance(s.score, base.score) <= (s.spread + base.spread) * base.score
  }

  lemma TiedIff(s: Slot, base: Slot, gated: bool)
    requires base.score > 0.0
    ensures Tied(s, base, gated) <==> gated && WithinSpreads(s, base)
  {
    QuotientDistance(s.score, base.score, s.spread + base.spread);
  }

  /** `cells` are the cells in which both the library and libzmq have an entry. */
  ghost predicate AreShared(b: Board, v: string, cells: set<Key>) {
    forall k :: k in cells <==> SlotOf(b, k, v).Some? && SlotOf(b, k, "libzmq").Some?
  }

  /** `ties` are those of the cells that tie: none on a board without a gate. */
  ghost predicate AreTies(b: Board, v: string, cells: set<Key>, ties: set<Key>)
    requires AreShared(b, v, cells)
  {
    forall k :: k in ties <==>
      k in cells && b.gated && WithinSpreads(SlotOf(b, k, v).value, SlotOf(b, k, "libzmq").value)
  }

  /** `ratio` is 1 in the tied cells and the quotient of the scores in the others. */
  ghost predicate AreRatios(b: Board, v: string, cells: set<Key>, ties: set<Key>, ratio: Key -> real)
    requires AreShared(b, v, cells)
  {
    forall k | k in cells ::
      ratio(k) == if k in ties then 1.0 else SlotOf(b, k, v).value.score / SlotOf(b, k, "libzmq").value.score
  }

  lemma CellMeans(b: Board, v: string, k: Key, s: Slot, base: Slot)
    requires SlotOf(b, k, v) == Some(s) && SlotOf(b, k, "libzmq") == Some(base)
    ensures base.score > 0.0
    ensures TiedAt(b, v, k) <==> b.gated && WithinSpreads(s, base)
    ensures Ratios(b, v)(k) == if TiedAt(b, v, k) then 1.0 else s.score / base.score
  {
    RatioIs(b, v, k, s, base);
    TiedIff(s, base, b.gated);
  }

  lemma TiesAre(b: Board, v: string, cells: set<Key>, ties: set<Key>)
    requires AreShared(b, v, cells) && AreTies(b, v, cells, ties)
    ensures Ties(b, v, cells) == ties
  {
    forall k ensures k in Ties(b, v, cells) <==> k in ties {
      if k in cells {
        CellMeans(b, v, k, SlotOf(b, k, v).value, SlotOf(b, k, "libzmq").value);
      }
    }
  }

  lemma RatiosAre(b: Board, v: string, cells: set<Key>, ties: set<Key>, ratio: Key -> real)
    requires AreShared(b, v, cells) && AreTies(b, v, cells, ties) && AreRatios(b, v, cells, ties, ratio)
    ensures forall k | k in cells :: Ratios(b, v)(k) == ratio(k)
  {
    forall k | k in cells ensures Ratios(b, v)(k) == ratio(k) {
      CellMeans(b, v, k, SlotOf(b, k, v).value, SlotOf(b, k, "libzmq").value);
    }
  }

  lemma SharedAre(b: Board, v: string, cells: set<Key>)
    requires AreShared(b, v, cells)
    ensures Shared(b, v) == cells
  {
    forall k ensures k in Shared(b, v) <==> k in cells {
      SharedIffShared(b, v, k);
    }
  }

  /**
    What is computed for a library: the number of cells it shares with libzmq, the
    number of those whose scores are within both spreads of each other, and the
    product of the score quotients over the others.
  */
  lemma TallyMeans(b: Board, v: string, cells: set<Key>, ties: set<Key>, ratio: Key -> real)
    requires AreShared(b, v, cells) && AreTies(b, v, cells, ties) && AreRatios(b, v, cells, ties, ratio)
    ensures TallyOf(b, v) == if cells == {} then None else Some(Tally(Product(ratio, cells), |cells|, |ties|))
  {
    SharedAre(b, v, cells);
    TiesAre(b, v, cells, ties);
    RatiosAre(b, v, cells, ties, ratio);
    FoldSame(Times, Ratios(b, v), ratio, cells);
  }

  /** The product over one more cell is that cell's ratio times the product over the rest. */
  lemma ProductMeans(f: Key -> real, cells: set<Key>, k: Key)
    requires k in cells
    ensures Product(f, {}) == 1.0
    ensures Product(f, cells) == f(k) * Product(f, cells - {k})
  {
    TakeOut(f, cells, k);
  }

  // ---------- the baseline's own cells ----------

  /** Some record of libzmq that the board accepts and that is not inverted measures the cell. */
  ghost predicate HasBaseline(b: Board, n: nat, k: Key)
    requires n <= |b.recs|
  {
    exists i :: 0 <= i < n && b.recs[i].key == k && b.ok(b.recs[i]) && b.recs[i].variant == "libzmq" && !b.recs[i].inverted
  }

  /** The number of cells that libzmq reports, collected as a set of keys. */
  method CountBaselineCells(b: Board) returns (n: nat)
    ensures n == |BaselineCells(b)|
    ensures forall k :: k in BaselineCells(b) <==> HasBaseline(b, |b.recs|, k)
  {
    var keys: set<Key> := {};
    for i := 0 to |b.recs|
      invariant forall k :: k in keys <==> HasBaseline(b, i, k)
    {
      var r := b.recs[i];
      if b.ok(r) && r.variant == BASELINE && !r.inverted {
        keys := keys + {r.key};
      }
    }
    forall k ensures k in keys <==> k in BaselineCells(b) {
      if k in BaselineCells(b) {
        var r :| r in b.recs && b.ok(r) && r.variant == BASELINE && !r.inverted && r.key == k;
        var i :| 0 <= i < |b.recs| && b.recs[i] == r;
      }
    }
    assert keys == BaselineCells(b);
    n := |keys|;
  }
}
