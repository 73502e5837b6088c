/**
  The ratio-to-baseline ranking (`geomeanVsBase`, `baselineCells` in
  docs/rankings.html). The geometric mean is kept as the product of the ratios
  together with their number.
*/
module Ranking {
  import opened Wrappers

  const BASELINE: string := "libzmq"

  datatype Key = Key(kind: string, transport: string, payloadBytes: nat, peers: Option<nat>)

  /** A denormalised record: the cell it measures, and what the board reads of it. */
  datatype Rec = Rec(variant: string, key: Key, inverted: bool, relIqr: real, figures: map<string, real>)

  /** A board over some records: which of them it accepts, how it scores them, and whether near-equal scores tie. */
  datatype Board = Board(recs: seq<Rec>, ok: Rec -> bool, score: Rec -> Option<real>, gated: bool)

  /** A library's entry in a cell. */
  datatype Slot = Slot(score: real, spread: real)

  datatype Tally = Tally(product: real, n: nat, ties: nat)

  function Accepts(b: Board, r: Rec): Option<Slot> {
    if !b.ok(r) || r.inverted then None
    else match b.score(r)
      case None => None
      case Some(s) => if s > 0.0 then Some(Slot(s, r.relIqr)) else None
  }

  /** The entry of `v` in cell `k` after the first `n` records: the last accepted one counts. */
  function SlotAfter(b: Board, n: nat, k: Key, v: string): (s: Option<Slot>)
    requires n <= |b.recs|
    ensures s.Some? ==> s.value.score > 0.0
  {
    if n == 0 then None
    else
      var r := b.recs[n - 1];
      if r.key == k && r.variant == v && Accepts(b, r).Some? then Accepts(b, r)
      else SlotAfter(b, n - 1, k, v)
  }

  function SlotOf(b: Board, k: Key, v: string): (s: Option<Slot>)
    ensures s.Some? ==> s.value.score > 0.0
  {
    SlotAfter(b, |b.recs|, k, v)
  }

  /** The cells in which both `v` and the baseline have an entry. */
  predicate IsShared(b: Board, v: string, k: Key) { SlotOf(b, k, v).Some? && SlotOf(b, k, BASELINE).Some? }

  function Shared(b: Board, v: string): set<Key> {
    set r | r in b.recs && IsShared(b, v, r.key) :: r.key
  }

  function Distance(x: real, y: real): real { if x < y then y - x else x - y }

  /** Whether the ratio of two entries is within their combined spread of 1, on a board that ties such gaps. */
  predicate Tied(s: Slot, base: Slot, gated: bool)
    requires base.score > 0.0
  {
    gated && Distance(s.score / base.score, 1.0) <= s.spread + base.spread
  }

  function Ratio(s: Slot, base: Slot, gated: bool): real
    requires base.score > 0.0
  {
    if Tied(s, base, gated) then 1.0 else s.score / base.score
  }

  predicate TiedAt(b: Board, v: string, k: Key) {
    IsShared(b, v, k) && Tied(SlotOf(b, k, v).value, SlotOf(b, k, BASELINE).value, b.gated)
  }

  function RatioAt(b: Board, v: string, k: Key): real {
    if IsShared(b, v, k) then Ratio(SlotOf(b, k, v).value, SlotOf(b, k, BASELINE).value, b.gated) else 1.0
  }

  function Ratios(b: Board, v: string): Key -> real { k => RatioAt(b, v, k) }

  function Ties(b: Board, v: string, cells: set<Key>): set<Key> { set k | k in cells && TiedAt(b, v, k) }

  /** Combines a value over a set of cells, in no particular order. */
  ghost function Fold(op: (real, real) -> real, f: Key -> real, cells: set<Key>): real {
    if cells == {} then 1.0 else op(f(Pick(cells)), Fold(op, f, cells - {Pick(cells)}))
  }

  function Times(x: real, y: real): real { x * y }

  /** The product of a factor over a set of cells. */
  ghost function Product(f: Key -> real, cells: set<Key>): real { Fold(Times, f, cells) }

  ghost function Pick(cells: set<Key>): (k: Key)
    requires cells != {}
    ensures k in cells
  {
    var k :| k in cells;
    k
  }

  ghost function TallyOver(b: Board, v: string, cells: set<Key>): Tally {
    Tally(Product(Ratios(b, v), cells), |cells|, |Ties(b, v, cells)|)
  }

  /** No tally without a cell. */
  ghost function TallyFor(b: Board, v: string, cells: set<Key>): Option<Tally> {
    if cells == {} then None else Some(TallyOver(b, v, cells))
  }

  /** What the board computes for `v`: nothing unless it shares a cell with the baseline. */
  ghost function TallyOf(b: Board, v: string): Option<Tally> {
    TallyFor(b, v, Shared(b, v))
  }

  // ---------- products do not depend on the order of the cells ----------

  ghost predicate LeftCommutative(op: (real, real) -> real) {
    forall x, y, p :: op(x, op(y, p)) == op(y, op(x, p))
  }

  lemma Swapped(op: (real, real) -> real, x: real, y: real, p: real)
    requires LeftCommutative(op)
    ensures op(x, op(y, p)) == op(y, op(x, p))
  {
  }

  /** Any cell may be taken out first. */
  lemma {:induction false} FoldAny(op: (real, real) -> real, f: Key -> real, cells: set<Key>, k: Key)
    requires LeftCommutative(op) && k in cells
    ensures Fold(op, f, cells) == op(f(k), Fold(op, f, cells - {k}))
    decreases |cells|
  {
    var j := Pick(cells);
    if j != k {
      FoldAny(op, f, cells - {j}, k);
      FoldAny(op, f, cells - {k}, j);
      assert cells - {j} - {k} == cells - {k} - {j};
      Swapped(op, f(j), f(k), Fold(op, f, cells - {j} - {k}));
    }
  }

  lemma SwapFactors(x: real, y: real, p: real)
    ensures Times(x, Times(y, p)) == Times(y, Times(x, p))
  {
  }

  lemma TimesCommutes()
    ensures LeftCommutative(Times)
  {
    forall x, y, p ensures Times(x, Times(y, p)) == Times(y, Times(x, p)) {
      SwapFactors(x, y, p);
    }
  }

  lemma TakeOut(f: Key -> real, cells: set<Key>, k: Key)
    requires k in cells
    ensures Product(f, cells) == Times(f(k), Product(f, cells - {k}))
  {
    TimesCommutes();
    FoldAny(Times, f, cells, k);
  }

  lemma ProductGrows(f: Key -> real, cells: set<Key>, k: Key, x: real, p: real)
    requires k !in cells && x == f(k) && p == Product(f, cells)
    ensures Product(f, cells + {k}) == x * p
  {
    assert cells + {k} - {k} == cells;
    TakeOut(f, cells + {k}, k);
  }

  lemma {:induction false} FoldSame(op: (real, real) -> real, f: Key -> real, g: Key -> real, cells: set<Key>)
    requires forall k | k in cells :: f(k) == g(k)
    ensures Fold(op, f, cells) == Fold(op, g, cells)
    decreases |cells|
  {
    if cells != {} {
      FoldSame(op, f, g, cells - {Pick(cells)});
    }
  }

  /** Equal ratios and ties give equal tallies, on whatever boards. */
  lemma TallySame(b: Board, b': Board, v: string)
    requires Shared(b, v) == Shared(b', v)
    requires forall k | k in Shared(b, v) :: RatioAt(b, v, k) == RatioAt(b', v, k)
    requires forall k | k in Shared(b, v) :: TiedAt(b, v, k) == TiedAt(b', v, k)
    ensures TallyOf(b, v) == TallyOf(b', v)
  {
    var cells := Shared(b, v);
    FoldSame(Times, Ratios(b, v), Ratios(b', v), cells);
    assert Ties(b, v, cells) == Ties(b', v, cells);
  }

  lemma {:induction false} SlotNeedsRecord(b: Board, n: nat, k: Key, v: string)
    requires n <= |b.recs| && SlotAfter(b, n, k, v).Some?
    ensures exists r :: r in b.recs && r.key == k && r.variant == v && Accepts(b, r).Some?
  {
    var r := b.recs[n - 1];
    if !(r.key == k && r.variant == v && Accepts(b, r).Some?) {
      SlotNeedsRecord(b, n - 1, k, v);
    }
  }

  lemma SharedIffShared(b: Board, v: string, k: Key)
    ensures k in Shared(b, v) <==> IsShared(b, v, k)
  {
    if IsShared(b, v, k) {
      SlotNeedsRecord(b, |b.recs|, k, v);
    }
  }

  // ---------- the board as the page computes it ----------

  function SlotIn(groups: map<Key, map<string, Slot>>, k: Key, v: string): Option<Slot> {
    if k in groups && v in groups[k] then Some(groups[k][v]) else None
  }

  method GroupCells(b: Board) returns (groups: map<Key, map<string, Slot>>)
    ensures forall k, v :: SlotIn(groups, k, v) == SlotOf(b, k, v)
  {
    groups := map[];
    for i := 0 to |b.recs|
      invariant forall k, v :: SlotIn(groups, k, v) == SlotAfter(b, i, k, v)
    {
      var r := b.recs[i];
      var s := Accepts(b, r);
      if s.Some? {
        var d := if r.key in groups then groups[r.key] else map[];
        groups := groups[r.key := d[r.variant := s.value]];
      }
    }
  }

  function Get(acc: map<string, Tally>, v: string): Option<Tally> {
    if v in acc then Some(acc[v]) else None
  }

  /** The accumulator of `v` accounts exactly for its cells in `seen`. */
  ghost predicate Accounts(acc: map<string, Tally>, b: Board, v: string, seen: set<Key>) {
    Get(acc, v) == TallyFor(b, v, Shared(b, v) * seen)
  }

  lemma TiesGrow(b: Board, v: string, cells: set<Key>, k: Key)
    requires k !in cells
    ensures |Ties(b, v, cells + {k})| == |Ties(b, v, cells)| + if TiedAt(b, v, k) then 1 else 0
  {
    assert Ties(b, v, cells + {k}) == if TiedAt(b, v, k) then Ties(b, v, cells) + {k} else Ties(b, v, cells);
  }

  /** One more shared cell multiplies the product by its ratio and counts once. */
  lemma TallyGrows(b: Board, v: string, cells: set<Key>, k: Key, ra: real, t: Tally, t': Tally)
    requires k !in cells && ra == RatioAt(b, v, k) && t == TallyOver(b, v, cells)
    requires t' == Tally(ra * t.product, t.n + 1, t.ties + if TiedAt(b, v, k) then 1 else 0)
    ensures TallyOver(b, v, cells + {k}) == t'
  {
    ProductGrows(Ratios(b, v), cells, k, ra, t.product);
    TiesGrow(b, v, cells, k);
  }

  lemma CellJoins(b: Board, v: string, seen: set<Key>, k: Key)
    requires IsShared(b, v, k) && k !in seen
    ensures Shared(b, v) * (seen + {k}) == Shared(b, v) * seen + {k}
    ensures k !in Shared(b, v) * seen
  {
    SharedIffShared(b, v, k);
  }

  lemma UnsharedUnchanged(b: Board, v: string, seen: set<Key>, k: Key)
    requires !IsShared(b, v, k)
    ensures Shared(b, v) * (seen + {k}) == Shared(b, v) * seen
  {
    SharedIffShared(b, v, k);
  }

  lemma RatioIs(b: Board, v: string, k: Key, s: Slot, base: Slot)
    requires SlotOf(b, k, v) == Some(s) && SlotOf(b, k, BASELINE) == Some(base)
    ensures base.score > 0.0
    ensures RatioAt(b, v, k) == Ratio(s, base, b.gated) && TiedAt(b, v, k) == Tied(s, base, b.gated)
  {
  }

  /** Adds one library's ratio in one cell to its accumulator. */
  method AddRatio(before: Option<Tally>, b: Board, v: string, k: Key, s: Slot, base: Slot, ghost cells: set<Key>)
    returns (a: Tally)
    requires k !in cells && SlotOf(b, k, v) == Some(s) && SlotOf(b, k, BASELINE) == Some(base)
    requires before == TallyFor(b, v, cells)
    ensures Some(a) == TallyFor(b, v, cells + {k})
  {
    RatioIs(b, v, k, s, base);
    EmptyTally(b, v);
    var t := if before.Some? then before.value else Tally(1.0, 0, 0);
    a := FoldRatio(t, s, base, b.gated, RatioAt(b, v, k));
    TallyGrows(b, v, cells, k, RatioAt(b, v, k), t, a);
  }

  /** The accumulator update: a tied ratio counts as 1. */
  method FoldRatio(t: Tally, s: Slot, base: Slot, gated: bool, ghost ratio: real) returns (a: Tally)
    requires base.score > 0.0 && ratio == Ratio(s, base, gated)
    ensures a == Tally(ratio * t.product, t.n + 1, t.ties + if Tied(s, base, gated) then 1 else 0)
  {
    var ra := s.score / base.score;
    a := t;
    if gated && Distance(ra, 1.0) <= s.spread + base.spread {
      ra := 1.0;
      a := a.(ties := a.ties + 1);
    }
    assert ra == ratio;
    a := a.(product := ra * a.product, n := a.n + 1);
  }

  lemma EmptyTally(b: Board, v: string)
    ensures TallyOver(b, v, {}) == Tally(1.0, 0, 0)
  {
    assert Ties(b, v, {}) == {};
  }

  /** Adds one library's entry in a cell. */
  method AddEntry(acc: map<string, Tally>, ghost start: map<string, Tally>, b: Board, v: string, k: Key,
                  d: map<string, Slot>, base: Slot, ghost seen: set<Key>)
    returns (acc': map<string, Tally>)
    requires k !in seen && BASELINE in d && Accounts(start, b, v, seen)
    requires v in d && SlotOf(b, k, v) == Some(d[v]) && SlotOf(b, k, BASELINE) == Some(base)
    requires Get(acc, v) == Get(start, v)
    ensures Get(acc', v) == TallyFor(b, v, Shared(b, v) * seen + {k})
    ensures forall u | u != v :: Get(acc', u) == Get(acc, u)
  {
    CellStep(start, b, v, k, d, seen);
    var a := AddRatio(Get(acc, v), b, v, k, d[v], base, Shared(b, v) * seen);
    acc' := acc[v := a];
  }

  /** Adds one cell for every library in it. */
  method AddCell(acc: map<string, Tally>, b: Board, k: Key, d: map<string, Slot>, ghost seen: set<Key>)
    returns (acc': map<string, Tally>)
    requires k !in seen && BASELINE in d && d[BASELINE].score > 0.0
    requires forall v :: (v in d <==> SlotOf(b, k, v).Some?) && (v in d ==> SlotOf(b, k, v) == Some(d[v]))
    requires forall v :: Accounts(acc, b, v, seen)
    ensures forall v :: Accounts(acc', b, v, seen + {k})
  {
    var base := d[BASELINE];
    acc' := acc;
    var todo := d.Keys;
    while todo != {}
      invariant todo <= d.Keys
      invariant forall v :: Get(acc', v) ==
                  if v in d.Keys - todo then TallyFor(b, v, Shared(b, v) * seen + {k}) else Get(acc, v)
      decreases |todo|
    {
      var v :| v in todo;
      acc' := AddEntry(acc', acc, b, v, k, d, base, seen);
      todo := todo - {v};
    }
    forall v ensures Accounts(acc', b, v, seen + {k}) {
      CellStep(acc, b, v, k, d, seen);
    }
  }

  /** What one cell contributes to the account of `v`: itself where `v` has an entry, nothing elsewhere. */
  lemma CellStep(acc: map<string, Tally>, b: Board, v: string, k: Key, d: map<string, Slot>, seen: set<Key>)
    requires k !in seen && BASELINE in d && Accounts(acc, b, v, seen)
    requires SlotOf(b, k, BASELINE).Some? && (v in d <==> SlotOf(b, k, v).Some?)
    ensures Get(acc, v) == TallyFor(b, v, Shared(b, v) * seen)
    ensures k !in Shared(b, v) * seen
    ensures Shared(b, v) * (seen + {k}) == if v in d then Shared(b, v) * seen + {k} else Shared(b, v) * seen
  {
    if v in d {
      CellJoins(b, v, seen, k);
    } else {
      UnsharedUnchanged(b, v, seen, k);
    }
  }

  /** The board: group the records into cells, then accumulate every cell that the baseline shares, in any order. */
  method GeomeanVsBase(b: Board) returns (acc: map<string, Tally>)
    ensures forall v :: Get(acc, v) == TallyOf(b, v)
  {
    var groups := GroupCells(b);
    acc := map[];
    var todo := groups.Keys;
    ghost var seen: set<Key> := {};
    while todo != {}
      invariant todo <= groups.Keys && seen == groups.Keys - todo
      invariant forall v :: Accounts(acc, b, v, seen)
      decreases |todo|
    {
      var k :| k in todo;
      if BASELINE in groups[k] {
        CellFacts(b, groups, k);
        acc := AddCell(acc, b, k, groups[k], seen);
      } else {
        forall v ensures Accounts(acc, b, v, seen + {k}) {
          assert SlotIn(groups, k, BASELINE) == None;
          UnsharedUnchanged(b, v, seen, k);
          assert Accounts(acc, b, v, seen);
        }
      }
      todo := todo - {k};
      seen := seen + {k};
    }
    forall v ensures Get(acc, v) == TallyOf(b, v) {
      AllSeen(b, groups, v);
      assert Accounts(acc, b, v, seen);
    }
  }

  lemma CellFacts(b: Board, groups: map<Key, map<string, Slot>>, k: Key)
    requires forall k, v :: SlotIn(groups, k, v) == SlotOf(b, k, v)
    requires k in groups && BASELINE in groups[k]
    ensures groups[k][BASELINE].score > 0.0
    ensures forall v :: (v in groups[k] <==> SlotOf(b, k, v).Some?) && (v in groups[k] ==> SlotOf(b, k, v) == Some(groups[k][v]))
  {
    assert SlotIn(groups, k, BASELINE) == SlotOf(b, k, BASELINE);
    forall v ensures (v in groups[k] <==> SlotOf(b, k, v).Some?) && (v in groups[k] ==> SlotOf(b, k, v) == Some(groups[k][v])) {
      assert SlotIn(groups, k, v) == SlotOf(b, k, v);
    }
  }

  lemma AllSeen(b: Board, groups: map<Key, map<string, Slot>>, v: string)
    requires forall k, v :: SlotIn(groups, k, v) == SlotOf(b, k, v)
    ensures Shared(b, v) * groups.Keys == Shared(b, v)
  {
    forall k | k in Shared(b, v) ensures k in groups {
      assert SlotIn(groups, k, v) == SlotOf(b, k, v);
    }
  }

  /** The cells the baseline reports at all, whether or not they score. */
  function BaselineCells(b: Board): set<Key> {
    set r | r in b.recs && b.ok(r) && r.variant == BASELINE && !r.inverted :: r.key
  }

  // ---------- what the ranking guarantees ----------

  /** The records of `v` and of the baseline, in order. */
  function Only(recs: seq<Rec>, v: string): seq<Rec> {
    if |recs| == 0 then []
    else
      var r := recs[|recs| - 1];
      Only(recs[..|recs| - 1], v) + if r.variant == v || r.variant == BASELINE then [r] else []
  }

  lemma {:induction false} SlotOnly(b: Board, n: nat, k: Key, v: string, u: string)
    requires n <= |b.recs| && (u == v || u == BASELINE)
    ensures var only := Only(b.recs[..n], v);
            SlotAfter(b.(recs := only), |only|, k, u) == SlotAfter(b, n, k, u)
  {
    if n > 0 {
      SlotOnly(b, n - 1, k, v, u);
      var r, before, recs := b.recs[n - 1], Only(b.recs[..n - 1], v), b.recs[..n];
      assert recs[..n - 1] == b.recs[..n - 1] && recs[n - 1] == r;
      if r.variant == v || r.variant == BASELINE {
        assert Only(recs, v) == before + [r];
        SlotAppend(b, before, r, k, u);
      } else {
        assert Only(recs, v) == before;
      }
    }
  }

  lemma SlotAppend(b: Board, recs: seq<Rec>, r: Rec, k: Key, v: string)
    ensures SlotAfter(b.(recs := recs + [r]), |recs| + 1, k, v) ==
            if r.key == k && r.variant == v && Accepts(b, r).Some? then Accepts(b, r)
            else SlotAfter(b.(recs := recs), |recs|, k, v)
  {
    SlotPrefix(b.(recs := recs + [r]), b.(recs := recs), |recs|, k, v);
  }

  /** An entry after `n` records looks at those records only. */
  lemma {:induction false} SlotPrefix(b: Board, b': Board, n: nat, k: Key, v: string)
    requires n <= |b.recs| && n <= |b'.recs| && b.recs[..n] == b'.recs[..n]
    requires b.ok == b'.ok && b.score == b'.score
    ensures SlotAfter(b, n, k, v) == SlotAfter(b', n, k, v)
  {
    if n > 0 {
      assert b.recs[n - 1] == b.recs[..n][n - 1] == b'.recs[..n][n - 1] == b'.recs[n - 1];
      assert b.recs[..n - 1] == b.recs[..n][..n - 1] == b'.recs[..n - 1];
      SlotPrefix(b, b', n - 1, k, v);
    }
  }

  /** A library's result depends only on its own records and the baseline's. */
  lemma RankingIndependence(b: Board, recs': seq<Rec>, v: string)
    requires Only(b.recs, v) == Only(recs', v)
    ensures TallyOf(b, v) == TallyOf(b.(recs := recs'), v)
  {
    var b' := b.(recs := recs');
    forall k, u | u == v || u == BASELINE ensures SlotOf(b, k, u) == SlotOf(b', k, u) {
      SlotOnly(b, |b.recs|, k, v, u);
      SlotOnly(b', |recs'|, k, v, u);
      assert b.recs[..|b.recs|] == b.recs && recs'[..|recs'|] == recs';
    }
    forall k ensures k in Shared(b, v) <==> k in Shared(b', v) {
      SharedIffShared(b, v, k);
      SharedIffShared(b', v, k);
    }
    TallySame(b, b', v);
  }

  /** The board with every score multiplied by `c`. */
  ghost predicate Rescaled(b: Board, b': Board, c: real) {
    && b'.recs == b.recs && b'.gated == b.gated
    && (forall r :: b'.ok(r) == b.ok(r))
    && (forall r :: b.score(r).None? ==> b'.score(r).None?)
    && (forall r :: b.score(r).Some? ==> b'.score(r) == Some(c * b.score(r).value))
  }

  lemma ScalePositive(c: real, s: real)
    requires c > 0.0
    ensures c * s > 0.0 <==> s > 0.0
  {
    if s > 0.0 {
      assert c * s > 0.0;
    } else {
      assert c * (-s) >= 0.0;
    }
  }

  ghost predicate ScaledSlot(o: Option<Slot>, o': Option<Slot>, c: real) {
    match o
    case None => o'.None?
    case Some(s) => o' == Some(Slot(c * s.score, s.spread))
  }

  lemma AcceptsScaled(b: Board, b': Board, c: real, r: Rec)
    requires c > 0.0 && Rescaled(b, b', c)
    ensures ScaledSlot(Accepts(b, r), Accepts(b', r), c)
  {
    if b.score(r).Some? {
      ScalePositive(c, b.score(r).value);
    }
  }

  lemma {:induction false} SlotScaled(b: Board, b': Board, c: real, n: nat, k: Key, v: string)
    requires c > 0.0 && Rescaled(b, b', c) && n <= |b.recs|
    ensures ScaledSlot(SlotAfter(b, n, k, v), SlotAfter(b', n, k, v), c)
  {
    if n > 0 {
      var r := b.recs[n - 1];
      AcceptsScaled(b, b', c, r);
      if !(r.key == k && r.variant == v && Accepts(b, r).Some?) {
        SlotScaled(b, b', c, n - 1, k, v);
      }
    }
  }

  lemma RatioScaled(s: Slot, base: Slot, s': Slot, base': Slot, c: real, gated: bool)
    requires c > 0.0 && base.score > 0.0 && base'.score > 0.0
    requires s' == Slot(c * s.score, s.spread) && base' == Slot(c * base.score, base.spread)
    ensures Ratio(s', base', gated) == Ratio(s, base, gated) && Tied(s', base', gated) == Tied(s, base, gated)
  {
    var x := s.score / base.score;
    assert s.score == x * base.score;
    assert s'.score == x * base'.score;
    assert s'.score / base'.score == x;
  }

  lemma SharedScaled(b: Board, b': Board, c: real, v: string, k: Key, s: Slot, base: Slot, s': Slot, base': Slot)
    requires c > 0.0 && b'.gated == b.gated
    requires SlotOf(b, k, v) == Some(s) && SlotOf(b, k, BASELINE) == Some(base)
    requires SlotOf(b', k, v) == Some(s') && SlotOf(b', k, BASELINE) == Some(base')
    requires ScaledSlot(Some(s), Some(s'), c) && ScaledSlot(Some(base), Some(base'), c)
    ensures RatioAt(b, v, k) == RatioAt(b', v, k) && TiedAt(b, v, k) == TiedAt(b', v, k)
  {
    RatioIs(b, v, k, s, base);
    RatioIs(b', v, k, s', base');
    RatioScaled(s, base, s', base', c, b.gated);
  }

  lemma CellScaled(b: Board, b': Board, c: real, v: string, k: Key)
    requires c > 0.0 && Rescaled(b, b', c)
    ensures IsShared(b, v, k) == IsShared(b', v, k)
    ensures RatioAt(b, v, k) == RatioAt(b', v, k) && TiedAt(b, v, k) == TiedAt(b', v, k)
  {
    SlotScaled(b, b', c, |b.recs|, k, v);
    SlotScaled(b, b', c, |b.recs|, k, BASELINE);
    if IsShared(b, v, k) {
      SharedScaled(b, b', c, v, k, SlotOf(b, k, v).value, SlotOf(b, k, BASELINE).value,
                   SlotOf(b', k, v).value, SlotOf(b', k, BASELINE).value);
    }
  }

  /** The ranking is dimensionless: multiplying every score by one positive factor changes nothing. */
  lemma RankingScaleInvariant(b: Board, b': Board, c: real, v: string)
    requires c > 0.0 && Rescaled(b, b', c)
    ensures TallyOf(b', v) == TallyOf(b, v)
  {
    forall k
      ensures k in Shared(b, v) <==> k in Shared(b', v)
      ensures RatioAt(b, v, k) == RatioAt(b', v, k) && TiedAt(b, v, k) == TiedAt(b', v, k)
    {
      CellScaled(b, b', c, v, k);
      SharedIffShared(b, v, k);
      SharedIffShared(b', v, k);
    }
    TallySame(b, b', v);
  }

  lemma {:induction false} UnitProduct(f: Key -> real, cells: set<Key>)
    requires forall k | k in cells :: f(k) == 1.0
    ensures Product(f, cells) == 1.0
    decreases |cells|
  {
    if cells != {} {
      UnitProduct(f, cells - {Pick(cells)});
    }
  }

  lemma SelfRatio(s: Slot, gated: bool)
    requires s.score > 0.0
    ensures Ratio(s, s, gated) == 1.0
  {
    assert s.score / s.score == 1.0;
  }

  /** The baseline scores exactly 1 against itself. */
  lemma BaselineIsOne(b: Board)
    ensures TallyOf(b, BASELINE).Some? ==> TallyOf(b, BASELINE).value.product == 1.0
  {
    forall k ensures Ratios(b, BASELINE)(k) == 1.0 {
      if IsShared(b, BASELINE, k) {
        SelfRatio(SlotOf(b, k, BASELINE).value, b.gated);
      }
    }
    UnitProduct(Ratios(b, BASELINE), Shared(b, BASELINE));
  }

  lemma SubsetSize<T>(a: set<T>, c: set<T>)
    requires a <= c
    ensures |a| <= |c| && (|a| == |c| ==> a == c)
  {
    assert c == a + (c - a);
  }

  /**
    No library is credited with more cells than the baseline has; the baseline
    itself reaches that number exactly when each of its cells holds a positive score.
  */
  lemma CellCountBounded(b: Board, v: string)
    ensures TallyOf(b, v).Some? ==> TallyOf(b, v).value.n <= |BaselineCells(b)|
    ensures |Shared(b, BASELINE)| == |BaselineCells(b)| <==>
              forall k | k in BaselineCells(b) :: SlotOf(b, k, BASELINE).Some?
  {
    forall k | IsShared(b, v, k) || IsShared(b, BASELINE, k) ensures k in BaselineCells(b) {
      SlotNeedsRecord(b, |b.recs|, k, BASELINE);
    }
    SubsetSize(Shared(b, v), BaselineCells(b));
    SubsetSize(Shared(b, BASELINE), BaselineCells(b));
    forall k ensures k in Shared(b, BASELINE) <==> SlotOf(b, k, BASELINE).Some? {
      SharedIffShared(b, BASELINE, k);
    }
    if forall k | k in BaselineCells(b) :: SlotOf(b, k, BASELINE).Some? {
      assert Shared(b, BASELINE) == BaselineCells(b);
    }
  }
}
