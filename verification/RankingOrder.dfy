/**
  The order of the ranking board (`geomeanVsBase` in docs/rankings.html): libraries
  sorted by their geometric mean, and what scores, ties and noise can do to it.

  A geometric mean is the n-th root of a product of n ratios. Roots are compared
  by raising both sides to a common power, so none has to be computed.
*/
module RankingOrder {
  import opened Wrappers
  import opened Numbers
  import opened Sorting
  import opened Ranking

  // ---------- powers ----------

  function Pow(x: real, n: nat): real {
    if n == 0 then 1.0 else x * Pow(x, n - 1)
  }

  lemma {:induction false} PowPositive(x: real, n: nat)
    requires x > 0.0
    ensures Pow(x, n) > 0.0
  {
    if n > 0 {
      PowPositive(x, n - 1);
      PositiveProduct(x, Pow(x, n - 1));
    }
  }

  lemma ScaleRight(x: real, y: real, q: real)
    requires x <= y && q > 0.0
    ensures x * q <= y * q && (x < y ==> x * q < y * q)
  {
    var d := y - x;
    if d > 0.0 {
      PositiveProduct(d, q);
    }
    assert y * q == x * q + d * q;
  }

  lemma ScaleLeft(x: real, p: real, q: real)
    requires x > 0.0 && p <= q
    ensures x * p <= x * q
  {
    var d := q - p;
    assert x * d >= 0.0;
    assert x * q == x * p + x * d;
  }

  lemma ProductsOrdered(x: real, y: real, p: real, q: real)
    requires 0.0 < x <= y && 0.0 < p <= q
    ensures x * p <= y * q && (x < y ==> x * p < y * q)
  {
    ScaleLeft(x, p, q);
    ScaleRight(x, y, q);
  }

  lemma {:induction false} PowMonotone(x: real, y: real, n: nat)
    requires 0.0 < x <= y
    ensures Pow(x, n) <= Pow(y, n) && (x < y && n > 0 ==> Pow(x, n) < Pow(y, n))
  {
    if n > 0 {
      PowMonotone(x, y, n - 1);
      PowPositive(x, n - 1);
      ProductsOrdered(x, y, Pow(x, n - 1), Pow(y, n - 1));
    }
  }

  lemma PowOrder(x: real, y: real, n: nat)
    requires x > 0.0 && y > 0.0 && n > 0
    ensures Pow(x, n) <= Pow(y, n) <==> x <= y
  {
    if x <= y {
      PowMonotone(x, y, n);
    } else {
      PowMonotone(y, x, n);
    }
  }

  lemma FourFactors(x: real, y: real, p: real, q: real)
    ensures (x * y) * (p * q) == (x * p) * (y * q)
  {
    assert (x * y) * (p * q) == x * (y * (p * q));
    assert y * (p * q) == p * (y * q);
  }

  lemma {:induction false} PowProduct(x: real, y: real, z: real, n: nat)
    requires z == x * y
    ensures Pow(z, n) == Pow(x, n) * Pow(y, n)
  {
    if n > 0 {
      PowProduct(x, y, z, n - 1);
      FourFactors(x, y, Pow(x, n - 1), Pow(y, n - 1));
    }
  }

  lemma {:induction false} PowOne(n: nat)
    ensures Pow(1.0, n) == 1.0
  {
    if n > 0 {
      PowOne(n - 1);
    }
  }

  /** Exponents may be applied in either order. */
  lemma {:induction false} PowCommute(x: real, m: nat, n: nat)
    ensures Pow(Pow(x, m), n) == Pow(Pow(x, n), m)
  {
    if m == 0 {
      PowOne(n);
    } else {
      PowCommute(x, m - 1, n);
      PowProduct(x, Pow(x, m - 1), Pow(x, m), n);
    }
  }

  // ---------- comparing geometric means ----------

  datatype Entry = Entry(v: string, tally: Tally)

  type Ranked = e: Entry | e.tally.product > 0.0 && e.tally.n > 0 witness Entry("", Tally(1.0, 1, 0))

  /** The geometric mean of `a` is at least that of `b`. */
  predicate Ahead(a: Ranked, b: Ranked) {
    Pow(a.tally.product, b.tally.n) >= Pow(b.tally.product, a.tally.n)
  }

  /** Ahead means just that: the roots, where they are known, compare the same way. */
  lemma AheadIsGeomean(a: Ranked, b: Ranked, x: real, y: real)
    requires x > 0.0 && Pow(x, a.tally.n) == a.tally.product
    requires y > 0.0 && Pow(y, b.tally.n) == b.tally.product
    ensures Ahead(a, b) <==> x >= y
  {
    var m, n := a.tally.n, b.tally.n;
    PowCommute(y, n, m);
    PowPositive(x, m);
    PowPositive(y, m);
    PowOrder(Pow(y, m), Pow(x, m), n);
    PowOrder(y, x, m);
  }

  lemma {:induction false} AheadTransitive(a: Ranked, b: Ranked, c: Ranked)
    requires Ahead(a, b) && Ahead(b, c)
    ensures Ahead(a, c)
  {
    AheadScaled(a, b, c.tally.n);
    AheadScaled(b, c, a.tally.n);
    PowCommute(b.tally.product, a.tally.n, c.tally.n);
    PowCommute(a.tally.product, b.tally.n, c.tally.n);
    PowCommute(c.tally.product, b.tally.n, a.tally.n);
    PowPositive(a.tally.product, c.tally.n);
    PowPositive(c.tally.product, a.tally.n);
    PowOrder(Pow(c.tally.product, a.tally.n), Pow(a.tally.product, c.tally.n), b.tally.n);
  }

  lemma AheadScaled(a: Ranked, b: Ranked, n: nat)
    requires Ahead(a, b)
    ensures Pow(Pow(a.tally.product, b.tally.n), n) >= Pow(Pow(b.tally.product, a.tally.n), n)
  {
    PowPositive(b.tally.product, a.tally.n);
    PowMonotone(Pow(b.tally.product, a.tally.n), Pow(a.tally.product, b.tally.n), n);
  }

  lemma AheadIsPreorder()
    ensures TotalPreorder(Ahead)
  {
    forall a: Ranked, b: Ranked, c: Ranked | Ahead(a, b) && Ahead(b, c) ensures Ahead(a, c) {
      AheadTransitive(a, b, c);
    }
  }

  // ---------- the board ----------

  lemma RatioPositive(b: Board, v: string, k: Key)
    ensures RatioAt(b, v, k) > 0.0
  {
    if IsShared(b, v, k) {
      QuotientPositive(SlotOf(b, k, v).value.score, SlotOf(b, k, BASELINE).value.score);
    }
  }

  lemma QuotientPositive(x: real, y: real)
    requires x > 0.0 && y > 0.0
    ensures x / y > 0.0
  {
  }

  lemma {:induction false} ProductPositive(f: Key -> real, cells: set<Key>)
    requires forall k :: f(k) > 0.0
    ensures Product(f, cells) > 0.0
    decreases |cells|
  {
    if cells != {} {
      ProductPositive(f, cells - {Pick(cells)});
      PositiveProduct(f(Pick(cells)), Product(f, cells - {Pick(cells)}));
    }
  }

  /** A tally has a positive product and at least one cell. */
  lemma TallyRanks(b: Board, v: string)
    ensures TallyOf(b, v).Some? ==> TallyOf(b, v).value.product > 0.0 && TallyOf(b, v).value.n > 0
  {
    forall k ensures Ratios(b, v)(k) > 0.0 {
      RatioPositive(b, v, k);
    }
    ProductPositive(Ratios(b, v), Shared(b, v));
  }

  function RankedOf(b: Board, v: string, t: Tally): (e: Ranked)
    requires TallyOf(b, v) == Some(t)
    ensures e == Entry(v, t)
  {
    TallyRanks(b, v);
    Entry(v, t)
  }

  /** The list holds one entry for every library with a tally, and nothing else. */
  ghost predicate Lists(order: seq<Ranked>, b: Board) {
    && (forall v, t :: TallyOf(b, v) == Some(t) <==> Entry(v, t) in order)
    && (forall i, j | 0 <= i < j < |order| :: order[i].v != order[j].v)
  }

  /** The entries of the accumulator, in some order. */
  method Entries(b: Board, acc: map<string, Tally>) returns (es: seq<Ranked>)
    requires forall v :: Get(acc, v) == TallyOf(b, v)
    ensures Lists(es, b)
  {
    es := [];
    var todo := acc.Keys;
    while todo != {}
      invariant todo <= acc.Keys
      invariant forall i | 0 <= i < |es| :: es[i].v in acc && es[i].v !in todo && es[i].tally == acc[es[i].v]
      invariant forall v | v in acc && v !in todo :: Entry(v, acc[v]) in es
      invariant forall i, j | 0 <= i < j < |es| :: es[i].v != es[j].v
      decreases |todo|
    {
      var v :| v in todo;
      assert Get(acc, v) == TallyOf(b, v);
      es := es + [RankedOf(b, v, acc[v])];
      todo := todo - {v};
    }
    forall v, t ensures TallyOf(b, v) == Some(t) <==> Entry(v, t) in es {
      assert Get(acc, v) == TallyOf(b, v);
    }
  }

  /** The board as the page shows it: every library with its tally, once, by descending geometric mean. */
  method RankBoard(b: Board) returns (order: seq<Ranked>)
    ensures Lists(order, b)
    ensures SortedBy(order, Ahead)
  {
    var acc := GeomeanVsBase(b);
    var es := Entries(b, acc);
    var a := ToArray(es);
    SortInPlace(a, Ahead);
    order := a[..];
    AheadIsPreorder();
    SortSorted(es, Ahead);
    SortLists(es, order, b);
  }

  method ToArray(es: seq<Ranked>) returns (a: array<Ranked>)
    ensures fresh(a) && a[..] == es
  {
    a := new Ranked[|es|](i requires 0 <= i < |es| => es[i]);
  }

  lemma SortLists(es: seq<Ranked>, order: seq<Ranked>, b: Board)
    requires Lists(es, b) && order == Sort(es, Ahead)
    ensures Lists(order, b)
  {
    SortMultiset(es, Ahead);
    forall e: Ranked ensures e in order <==> e in es {
      assert e in multiset(order) <==> e in multiset(es);
    }
    forall v, t ensures TallyOf(b, v) == Some(t) <==> Entry(v, t) in order {
      if TallyOf(b, v) == Some(t) {
        assert RankedOf(b, v, t) in es;
      }
    }
    SortOnce(es, order);
  }

  lemma {:induction false} CountEntry(es: seq<Ranked>, v: string)
    requires forall i, j | 0 <= i < j < |es| :: es[i].v != es[j].v
    ensures Count(es, Named(v)) <= 1
  {
    if |es| > 0 {
      CountEntry(es[1..], v);
      if es[0].v == v {
        CountPositive(es[1..], Named(v));
      }
    }
  }

  function Named(v: string): Ranked -> bool { (e: Ranked) => e.v == v }

  lemma {:induction false} CountTwo(es: seq<Ranked>, i: nat, j: nat, v: string)
    requires i < j < |es| && es[i].v == v && es[j].v == v
    ensures Count(es, Named(v)) >= 2
  {
    if i > 0 {
      CountTwo(es[1..], i - 1, j - 1, v);
    } else {
      assert es[1..][j - 1].v == v;
      CountPositive(es[1..], Named(v));
    }
  }

  lemma SortOnce(es: seq<Ranked>, order: seq<Ranked>)
    requires order == Sort(es, Ahead)
    requires forall i, j | 0 <= i < j < |es| :: es[i].v != es[j].v
    ensures forall i, j | 0 <= i < j < |order| :: order[i].v != order[j].v
  {
    forall i, j | 0 <= i < j < |order| ensures order[i].v != order[j].v {
      CountEntry(es, order[i].v);
      CountSort(es, Ahead, Named(order[i].v));
      if order[i].v == order[j].v {
        CountTwo(order, i, j, order[i].v);
      }
    }
  }

  /** A library stands level with libzmq or before it exactly when its product of ratios is at least 1. */
  lemma AheadOfBaselineIff(b: Board, v: string, t: Tally, base: Tally)
    requires TallyOf(b, v) == Some(t) && TallyOf(b, BASELINE) == Some(base)
    ensures Ahead(RankedOf(b, v, t), RankedOf(b, BASELINE, base)) <==> t.product >= 1.0
    ensures Ahead(RankedOf(b, BASELINE, base), RankedOf(b, v, t)) <==> t.product <= 1.0
  {
    BaselineIsOne(b);
    TallyRanks(b, v);
    TallyRanks(b, BASELINE);
    PowOne(t.n);
    PowOne(base.n);
    PowOrder(1.0, t.product, base.n);
    PowOrder(t.product, 1.0, base.n);
  }

  // ---------- better scores ----------

  /** The same board with some scores of `v` raised, and none made to count that did not. */
  ghost predicate Raised(b: Board, b': Board, v: string) {
    && b'.recs == b.recs && b'.gated == b.gated && b'.ok == b.ok
    && (forall r: Rec :: b.score(r).Some? <==> b'.score(r).Some?)
    && (forall r: Rec | r.variant != v :: b'.score(r) == b.score(r))
    && (forall r: Rec | b.score(r).Some? ::
          b.score(r).value <= b'.score(r).value && (b.score(r).value > 0.0 <==> b'.score(r).value > 0.0))
  }

  /** An entry with the same spread and no lower a score. */
  ghost predicate RaisedSlot(o: Option<Slot>, o': Option<Slot>) {
    match o
    case None => o'.None?
    case Some(s) => o'.Some? && s.score <= o'.value.score && s.spread == o'.value.spread
  }

  lemma {:induction false} SlotRaised(b: Board, b': Board, n: nat, k: Key, v: string, u: string)
    requires Raised(b, b', v) && n <= |b.recs|
    ensures RaisedSlot(SlotAfter(b, n, k, u), SlotAfter(b', n, k, u))
    ensures u != v ==> SlotAfter(b, n, k, u) == SlotAfter(b', n, k, u)
  {
    if n > 0 {
      var r := b.recs[n - 1];
      assert Accepts(b, r).Some? <==> Accepts(b', r).Some?;
      if !(r.key == k && r.variant == u && Accepts(b, r).Some?) {
        SlotRaised(b, b', n - 1, k, v, u);
      }
    }
  }

  lemma QuotientMonotone(x: real, x': real, y: real)
    requires x <= x' && y > 0.0
    ensures x / y <= x' / y
  {
    assert (x' - x) / y >= 0.0;
  }

  /** A higher score never has the lower ratio, ties included. */
  lemma RatioMonotone(s: Slot, s': Slot, base: Slot, gated: bool)
    requires base.score > 0.0 && s.score <= s'.score && s.spread == s'.spread
    ensures Ratio(s, base, gated) <= Ratio(s', base, gated)
  {
    QuotientMonotone(s.score, s'.score, base.score);
  }

  lemma RatioAtMonotone(b: Board, b': Board, v: string, k: Key)
    requires Raised(b, b', v) && v != BASELINE
    ensures IsShared(b, v, k) == IsShared(b', v, k)
    ensures RatioAt(b, v, k) <= RatioAt(b', v, k)
  {
    SlotRaised(b, b', |b.recs|, k, v, v);
    SlotRaised(b, b', |b.recs|, k, v, BASELINE);
    if IsShared(b, v, k) {
      RatioMonotone(SlotOf(b, k, v).value, SlotOf(b', k, v).value, SlotOf(b, k, BASELINE).value, b.gated);
    }
  }

  lemma {:induction false} ProductMonotone(f: Key -> real, g: Key -> real, cells: set<Key>)
    requires forall k :: 0.0 < f(k) <= g(k)
    ensures 0.0 < Product(f, cells) <= Product(g, cells)
    decreases |cells|
  {
    ProductPositive(f, cells);
    if cells != {} {
      var k := Pick(cells);
      ProductPositive(f, cells - {k});
      ProductMonotone(f, g, cells - {k});
      ProductsOrdered(f(k), g(k), Product(f, cells - {k}), Product(g, cells - {k}));
    }
  }

  /** Raising some of a library's scores never lowers its product, and leaves its number of cells. */
  lemma TallyMonotone(b: Board, b': Board, v: string)
    requires Raised(b, b', v) && v != BASELINE
    ensures TallyOf(b, v).Some? <==> TallyOf(b', v).Some?
    ensures TallyOf(b, v).Some? ==> TallyOf(b, v).value.n == TallyOf(b', v).value.n
    ensures TallyOf(b, v).Some? ==> TallyOf(b, v).value.product <= TallyOf(b', v).value.product
  {
    forall k
      ensures 0.0 < Ratios(b, v)(k) <= Ratios(b', v)(k)
      ensures k in Shared(b, v) <==> k in Shared(b', v)
    {
      RatioPositive(b, v, k);
      RatioAtMonotone(b, b', v, k);
      SharedIffShared(b, v, k);
      SharedIffShared(b', v, k);
    }
    assert Shared(b, v) == Shared(b', v);
    ProductMonotone(Ratios(b, v), Ratios(b', v), Shared(b, v));
  }

  /** The other libraries' results do not move. */
  lemma OthersUnmoved(b: Board, b': Board, v: string, u: string)
    requires Raised(b, b', v) && v != BASELINE && u != v
    ensures TallyOf(b, u) == TallyOf(b', u)
  {
    forall k ensures SlotOf(b, k, u) == SlotOf(b', k, u) && SlotOf(b, k, BASELINE) == SlotOf(b', k, BASELINE) {
      SlotRaised(b, b', |b.recs|, k, v, u);
      SlotRaised(b, b', |b.recs|, k, v, BASELINE);
    }
    forall k ensures k in Shared(b, u) <==> k in Shared(b', u) {
      SharedIffShared(b, u, k);
      SharedIffShared(b', u, k);
    }
    TallySame(b, b', u);
  }

  /** Raising some of a library's scores never costs it a place: whomever it was level with or before, it still is. */
  lemma RaisingKeepsPlace(b: Board, b': Board, v: string, u: string, t: Tally, t': Tally, tu: Tally)
    requires Raised(b, b', v) && v != BASELINE && u != v
    requires TallyOf(b, v) == Some(t) && TallyOf(b', v) == Some(t') && TallyOf(b, u) == Some(tu)
    ensures TallyOf(b', u) == Some(tu)
    ensures Ahead(RankedOf(b, v, t), RankedOf(b, u, tu)) ==> Ahead(RankedOf(b', v, t'), RankedOf(b', u, tu))
  {
    OthersUnmoved(b, b', v, u);
    TallyMonotone(b, b', v);
    TallyRanks(b, v);
    PowMonotone(t.product, t'.product, tu.n);
  }

  // ---------- ties and noise ----------

  /** A library tied with libzmq in every shared cell has product 1: noise within the spreads cannot rank it against libzmq. */
  lemma TiedIsLevel(b: Board, v: string)
    requires forall k | IsShared(b, v, k) :: TiedAt(b, v, k)
    ensures TallyOf(b, v).Some? ==> TallyOf(b, v).value.product == 1.0
  {
    forall k ensures Ratios(b, v)(k) == 1.0 {
      if IsShared(b, v, k) {
        RatioIs(b, v, k, SlotOf(b, k, v).value, SlotOf(b, k, BASELINE).value);
      }
    }
    UnitProduct(Ratios(b, v), Shared(b, v));
  }

  lemma UnitQuotient(x: real, y: real, z: real)
    requires z > 0.0
    ensures x / z == y / z <==> x == y
    ensures x / z == 1.0 <==> x == z
  {
    assert x == (x / z) * z && y == (y / z) * z;
  }

  /** In one cell two libraries count alike exactly when both are tied with libzmq, or neither is and their scores are equal. */
  lemma SameRatioIff(s: Slot, s': Slot, base: Slot, gated: bool)
    requires base.score > 0.0 && s.spread >= 0.0 && s'.spread >= 0.0 && base.spread >= 0.0
    ensures Ratio(s, base, gated) == Ratio(s', base, gated) <==>
              || (Tied(s, base, gated) && Tied(s', base, gated))
              || (!Tied(s, base, gated) && !Tied(s', base, gated) && s.score == s'.score)
  {
    UnitQuotient(s.score, s'.score, base.score);
    UnitQuotient(s'.score, s.score, base.score);
  }

  const CELL: Key := Key("throughput", "tcp", 64, None)

  /** A library's one record. */
  function OneRecord(v: string, score: real, spread: real): Rec {
    Rec(v, CELL, false, spread, map["msgs_per_s" := score])
  }

  function RateOf(r: Rec): Option<real> {
    if "msgs_per_s" in r.figures then Some(r.figures["msgs_per_s"]) else None
  }

  /** libzmq and two faster libraries in one cell, all with one spread; the second is faster than the first by that spread. */
  function CloseRivals(w: real): Board {
    Board([OneRecord(BASELINE, 1.0, w), OneRecord("u", 4.0, w), OneRecord("v", 4.0 * (1.0 + w), w)], (r: Rec) => true, RateOf, true)
  }

  lemma RivalSlots(w: real)
    requires 0.0 < w < 1.0
    ensures var b := CloseRivals(w);
            && SlotOf(b, CELL, BASELINE) == Some(Slot(1.0, w))
            && SlotOf(b, CELL, "u") == Some(Slot(4.0, w))
            && SlotOf(b, CELL, "v") == Some(Slot(4.0 * (1.0 + w), w))
  {
    var b := CloseRivals(w);
    assert Accepts(b, b.recs[0]) == Some(Slot(1.0, w));
    assert Accepts(b, b.recs[1]) == Some(Slot(4.0, w));
    assert Accepts(b, b.recs[2]) == Some(Slot(4.0 * (1.0 + w), w));
    assert SlotAfter(b, 1, CELL, BASELINE) == SlotAfter(b, 2, CELL, BASELINE) == Some(Slot(1.0, w));
    assert "u" != "v" by { assert "u"[0] != "v"[0]; }
    assert SlotAfter(b, 2, CELL, "u") == Some(Slot(4.0, w));
  }

  /** The tally of a library on a board of one cell. */
  lemma OneCellTally(b: Board, v: string, s: Slot, base: Slot)
    requires forall r | r in b.recs :: r.key == CELL
    requires SlotOf(b, CELL, v) == Some(s) && SlotOf(b, CELL, BASELINE) == Some(base)
    ensures TallyOf(b, v).Some? && TallyOf(b, v).value.n == 1
    ensures TallyOf(b, v).value.product == Ratio(s, base, b.gated)
  {
    SharedIffShared(b, v, CELL);
    assert Shared(b, v) == {CELL};
    RatioIs(b, v, CELL, s, base);
    OneFactor(Ratios(b, v), CELL);
    assert TallyOf(b, v) == Some(TallyOver(b, v, {CELL}));
  }

  lemma OneFactor(f: Key -> real, k: Key)
    ensures Product(f, {k}) == f(k)
  {
    assert Product(f, {}) == 1.0;
    ProductGrows(f, {}, k, f(k), 1.0);
    assert {} + {k} == {k};
  }

  /**
    The tie protects the comparison with libzmq only: two libraries whose scores in
    their one cell are within their combined spread of each other are ranked apart.
  */
  lemma NoiseRanksRivals(w: real)
    requires 0.0 < w < 1.0
    ensures var b := CloseRivals(w);
            && SlotOf(b, CELL, "u").Some? && SlotOf(b, CELL, "v").Some?
            && Tied(SlotOf(b, CELL, "v").value, SlotOf(b, CELL, "u").value, b.gated)
            && TallyOf(b, "u").Some? && TallyOf(b, "v").Some?
            && Ahead(RankedOf(b, "v", TallyOf(b, "v").value), RankedOf(b, "u", TallyOf(b, "u").value))
            && !Ahead(RankedOf(b, "u", TallyOf(b, "u").value), RankedOf(b, "v", TallyOf(b, "v").value))
  {
    var b := CloseRivals(w);
    RivalSlots(w);
    var base, s, s' := Slot(1.0, w), Slot(4.0, w), Slot(4.0 * (1.0 + w), w);
    OneCellTally(b, "u", s, base);
    OneCellTally(b, "v", s', base);
    RivalRatios(w, s, s', base);
    FirstPower(TallyOf(b, "u").value.product);
    FirstPower(TallyOf(b, "v").value.product);
  }

  lemma FirstPower(x: real)
    ensures Pow(x, 1) == x
  {
    assert Pow(x, 0) == 1.0;
  }

  lemma RivalRatios(w: real, s: Slot, s': Slot, base: Slot)
    requires 0.0 < w < 1.0 && base == Slot(1.0, w) && s == Slot(4.0, w) && s' == Slot(4.0 * (1.0 + w), w)
    ensures Tied(s', s, true) && Ratio(s, base, true) == 4.0 && Ratio(s', base, true) == 4.0 + 4.0 * w
  {
    assert s'.score / s.score == 1.0 + w;
  }
}
