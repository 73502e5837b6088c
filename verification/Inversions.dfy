/**
  The payload-sweep inversion detector (`flag_inversions` in
  scripts/render_results.py): within one (build, kind, transport, peers) sweep,
  a cell is flagged when a larger payload carries a clearly higher message rate.
*/
module Inversions {
  import opened Numbers
  import opened Wrappers
  import opened Sorting

  datatype Row = Row(
    build: string, kind: string, transport: string, peers: Option<nat>,
    payload: nat, rate: Option<real>, inverted: bool)

  datatype Key = Key(build: string, kind: string, transport: string, peers: Option<nat>)

  function KeyOf(r: Row): Key { Key(r.build, r.kind, r.transport, r.peers) }

  /** The kinds measured in msgs/s. */
  const THROUGHPUT_KINDS: set<string> := {"throughput", "pubsub", "fanout", "fanin"}

  /** Whether the detector looks at the row at all. */
  predicate Swept(r: Row) { r.kind in THROUGHPUT_KINDS && r.rate.Some? }

  // ---------- what the detector flags ----------

  /** `j` follows `i` in its sweep: a larger payload, or the same payload later in the input. */
  predicate Follows(rows: seq<Row>, i: nat, j: nat)
    requires i < |rows| && j < |rows|
  {
    rows[i].payload < rows[j].payload || (rows[i].payload == rows[j].payload && i < j)
  }

  predicate SameSweep(r: Row, r': Row) { Swept(r) && Swept(r') && KeyOf(r) == KeyOf(r') }

  /** `r'` carries more than `margin` above the rate of `r`. */
  predicate Beats(r: Row, r': Row, margin: real)
    requires r.rate.Some? && r'.rate.Some?
  {
    r'.rate.value > r.rate.value * (1.0 + margin)
  }

  /** Row `i` is the last of its sweep. */
  ghost predicate IsLast(rows: seq<Row>, i: nat)
    requires i < |rows|
  {
    forall j: nat | j < |rows| && SameSweep(rows[i], rows[j]) :: !Follows(rows, i, j)
  }

  /**
    A row that follows beats this one. With nothing to follow, the largest later
    rate defaults to zero, which only a margin below -1 lets win.
  */
  ghost predicate Flag(rows: seq<Row>, margin: real, i: nat)
    requires i < |rows| && Swept(rows[i])
  {
    && rows[i].rate.value > 0.0
    && ((exists j: nat :: j < |rows| && SameSweep(rows[i], rows[j]) && Follows(rows, i, j) && Beats(rows[i], rows[j], margin))
        || (margin < -1.0 && IsLast(rows, i)))
  }

  ghost function Flagged(rows: seq<Row>, margin: real): (r: seq<Row>)
    ensures |r| == |rows|
  {
    seq(|rows|, (i: nat) requires i < |rows| =>
      if Swept(rows[i]) then rows[i].(inverted := Flag(rows, margin, i)) else rows[i])
  }

  // ---------- the same in the rows' own fields ----------

  /** The row carries a message rate of one of the four kinds measured in msgs/s. */
  predicate Measured(r: Row) {
    r.rate.Some? && (r.kind == "throughput" || r.kind == "pubsub" || r.kind == "fanout" || r.kind == "fanin")
  }

  /** Row `j` belongs to the sweep of row `i` and comes after it: same build, kind, transport and peers, at a larger payload or later at the same. */
  ghost predicate LaterInSweep(rows: seq<Row>, i: nat, j: nat)
    requires i < |rows| && j < |rows|
  {
    var r, r' := rows[i], rows[j];
    && Measured(r) && Measured(r')
    && r.build == r'.build && r.kind == r'.kind && r.transport == r'.transport && r.peers == r'.peers
    && (r.payload < r'.payload || (r.payload == r'.payload && i < j))
  }

  /** What the detector leaves in place of row `i`. */
  ghost predicate IsVerdict(rows: seq<Row>, margin: real, i: nat, r: Row)
    requires i < |rows|
  {
    && r == rows[i].(inverted := r.inverted)
    && if Measured(rows[i]) then
         r.inverted <==>
           && rows[i].rate.value > 0.0
           && ((exists j: nat :: j < |rows| && LaterInSweep(rows, i, j) && rows[j].rate.value > rows[i].rate.value * (1.0 + margin))
               || (margin < -1.0 && forall j: nat | j < |rows| :: !LaterInSweep(rows, i, j)))
       else r.inverted == rows[i].inverted
  }

  /** Two rows share a sweep exactly when both are measured and agree in build, kind, transport and peers. */
  lemma SameSweepIff(r: Row, r': Row)
    ensures SameSweep(r, r') <==>
              && Measured(r) && Measured(r')
              && r.build == r'.build && r.kind == r'.kind && r.transport == r'.transport && r.peers == r'.peers
  {
  }

  lemma LaterIff(rows: seq<Row>, i: nat, j: nat)
    requires i < |rows| && j < |rows|
    ensures LaterInSweep(rows, i, j) <==> SameSweep(rows[i], rows[j]) && Follows(rows, i, j)
  {
    SameSweepIff(rows[i], rows[j]);
  }

  lemma VerdictInFields(rows: seq<Row>, margin: real, i: nat)
    requires i < |rows|
    ensures IsVerdict(rows, margin, i, Flagged(rows, margin)[i])
  {
    forall j: nat | j < |rows|
      ensures LaterInSweep(rows, i, j) <==> SameSweep(rows[i], rows[j]) && Follows(rows, i, j)
    {
      LaterIff(rows, i, j);
    }
    assert Swept(rows[i]) <==> Measured(rows[i]);
    if Swept(rows[i]) && Flag(rows, margin, i) && !IsLast(rows, i) {
      var j: nat :| j < |rows| && SameSweep(rows[i], rows[j]) && Follows(rows, i, j) && Beats(rows[i], rows[j], margin);
      assert LaterInSweep(rows, i, j);
    }
  }

  // ---------- the detector ----------

  predicate IsMember(rows: seq<Row>, k: Key, i: nat)
    requires i < |rows|
  {
    Swept(rows[i]) && KeyOf(rows[i]) == k
  }

  /** The positions below `n` of the swept rows with key `k`, in input order. */
  function Members(rows: seq<Row>, k: Key, n: nat): (ms: seq<nat>)
    requires n <= |rows|
    ensures forall p | 0 <= p < |ms| :: ms[p] < n && IsMember(rows, k, ms[p])
    ensures forall p, q | 0 <= p < q < |ms| :: ms[p] < ms[q]
  {
    if n == 0 then []
    else Members(rows, k, n - 1) + if IsMember(rows, k, n - 1) then [n - 1] else []
  }

  lemma {:induction false} MembersComplete(rows: seq<Row>, k: Key, n: nat, i: nat)
    requires i < n <= |rows| && IsMember(rows, k, i)
    ensures i in Members(rows, k, n)
  {
    if i < n - 1 {
      MembersComplete(rows, k, n - 1, i);
    }
  }

  function Lookup(groups: map<Key, seq<nat>>, k: Key): seq<nat> {
    if k in groups then groups[k] else []
  }

  /** The rows' sweeps, gathered in one pass. */
  method Group(rows: seq<Row>) returns (groups: map<Key, seq<nat>>)
    ensures forall k :: Lookup(groups, k) == Members(rows, k, |rows|)
  {
    groups := map[];
    for i := 0 to |rows|
      invariant forall k :: Lookup(groups, k) == Members(rows, k, i)
    {
      if Swept(rows[i]) {
        var key := KeyOf(rows[i]);
        groups := AddMember(groups, rows, i, key);
      }
    }
  }

  method AddMember(groups: map<Key, seq<nat>>, rows: seq<Row>, i: nat, key: Key) returns (groups': map<Key, seq<nat>>)
    requires i < |rows| && IsMember(rows, key, i)
    requires forall k :: Lookup(groups, k) == Members(rows, k, i)
    ensures forall k :: Lookup(groups', k) == Members(rows, k, i + 1)
  {
    groups' := groups[key := Lookup(groups, key) + [i]];
    forall k ensures Lookup(groups', k) == Members(rows, k, i + 1) {
      assert Lookup(groups, k) == Members(rows, k, i);
    }
  }

  function PayloadAt(rows: seq<Row>, i: nat): nat { if i < |rows| then rows[i].payload else 0 }

  function ByPayload(rows: seq<Row>): (nat, nat) -> bool {
    (i: nat, j: nat) => PayloadAt(rows, i) <= PayloadAt(rows, j)
  }

  /** A stably sorted run of positions: payloads ascend, and equal payloads keep the input order. */
  ghost predicate InSweepOrder(rows: seq<Row>, order: seq<nat>) {
    && (forall p | 0 <= p < |order| :: order[p] < |rows|)
    && forall p, q | 0 <= p < q < |order| :: Follows(rows, order[p], order[q])
  }

  lemma {:induction false} InsertInSweepOrder(rows: seq<Row>, x: nat, s: seq<nat>)
    requires InSweepOrder(rows, s) && x < |rows| && forall y | y in s :: x < y
    ensures InSweepOrder(rows, Insert(x, s, ByPayload(rows)))
    ensures forall y :: y in Insert(x, s, ByPayload(rows)) <==> y == x || y in s
  {
    var le := ByPayload(rows);
    if |s| == 0 || le(x, s[0]) {
      forall q | 0 <= q < |s| ensures Follows(rows, x, s[q]) {
        assert s[q] in s;
        if q > 0 {
          assert Follows(rows, s[0], s[q]);
        }
      }
    } else {
      var tail := s[1..];
      assert forall y | y in tail :: y in s;
      InsertInSweepOrder(rows, x, tail);
      var r := Insert(x, tail, le);
      forall q | 0 <= q < |r| ensures Follows(rows, s[0], r[q]) {
        assert r[q] in r;
        if r[q] != x {
          assert r[q] in tail;
        }
      }
    }
  }

  lemma {:induction false} SortInSweepOrder(rows: seq<Row>, s: seq<nat>)
    requires forall p | 0 <= p < |s| :: s[p] < |rows|
    requires forall p, q | 0 <= p < q < |s| :: s[p] < s[q]
    ensures InSweepOrder(rows, Sort(s, ByPayload(rows)))
    ensures forall y :: y in Sort(s, ByPayload(rows)) <==> y in s
  {
    if |s| > 0 {
      SortInSweepOrder(rows, s[1..]);
      forall y | y in s[1..] ensures s[0] < y {
        var p :| 0 <= p < |s[1..]| && s[1..][p] == y;
      }
      InsertInSweepOrder(rows, s[0], Sort(s[1..], ByPayload(rows)));
    }
  }

  /** The largest of the rates, 0 when there is none. */
  method LargestRate(rates: seq<real>) returns (m: real)
    ensures |rates| == 0 ==> m == 0.0
    ensures |rates| > 0 ==> m in rates
    ensures forall x | x in rates :: x <= m
  {
    m := if |rates| > 0 then rates[0] else 0.0;
    for i := 0 to |rates|
      invariant |rates| == 0 ==> m == 0.0
      invariant |rates| > 0 ==> m in rates
      invariant forall j | 0 <= j < i && j < |rates| :: rates[j] <= m
    {
      if m < rates[i] {
        m := rates[i];
      }
    }
  }

  /** In a sorted sweep holding every member of a group, only the row at the last position has none following it. */
  lemma LastAtPosition(rows: seq<Row>, k: Key, order: seq<nat>, p: nat)
    requires InSweepOrder(rows, order) && p < |order|
    requires forall i: nat | i < |rows| :: i in order <==> IsMember(rows, k, i)
    ensures IsLast(rows, order[p]) <==> p == |order| - 1
  {
    var i := order[p];
    assert i in order;
    if p < |order| - 1 {
      assert order[p + 1] in order;
      assert SameSweep(rows[i], rows[order[p + 1]]) && Follows(rows, i, order[p + 1]);
    } else {
      forall j: nat | j < |rows| && SameSweep(rows[i], rows[j]) ensures !Follows(rows, i, j) {
        assert IsMember(rows, k, j);
        var q :| 0 <= q < |order| && order[q] == j;
        assert q < p ==> Follows(rows, j, i);
      }
    }
  }

  /** In a sorted sweep holding every member of a group, the rows after position `p` are the ones that follow it. */
  lemma FlagAtPosition(rows: seq<Row>, k: Key, order: seq<nat>, margin: real, p: nat)
    requires InSweepOrder(rows, order) && p < |order|
    requires forall i: nat | i < |rows| :: i in order <==> IsMember(rows, k, i)
    ensures Swept(rows[order[p]])
    ensures Flag(rows, margin, order[p]) <==>
              && rows[order[p]].rate.value > 0.0
              && ((exists q :: p < q < |order| && Swept(rows[order[q]]) && Beats(rows[order[p]], rows[order[q]], margin))
                  || (margin < -1.0 && p == |order| - 1))
  {
    var i := order[p];
    assert i in order;
    LastAtPosition(rows, k, order, p);
    if q :| p < q < |order| && Swept(rows[order[q]]) && Beats(rows[i], rows[order[q]], margin) {
      assert order[q] in order;
      assert Follows(rows, i, order[q]) && SameSweep(rows[i], rows[order[q]]);
    }
    if j: nat :| j < |rows| && SameSweep(rows[i], rows[j]) && Follows(rows, i, j) && Beats(rows[i], rows[j], margin) {
      assert IsMember(rows, k, j);
      var q :| 0 <= q < |order| && order[q] == j;
      if q < p {
        assert Follows(rows, j, i);
      }
    }
  }

  /** Writes the verdict of every row of one sweep. */
  method FlagSweep(records: array<Row>, rows: seq<Row>, k: Key, members: seq<nat>, margin: real)
    requires |rows| == records.Length && members == Members(rows, k, |rows|)
    requires forall i | 0 <= i < |rows| :: records[i].(inverted := rows[i].inverted) == rows[i]
    modifies records
    ensures forall i | 0 <= i < |rows| :: records[i] ==
              if IsMember(rows, k, i) then rows[i].(inverted := Flag(rows, margin, i)) else old(records[i])
  {
    var sorted := new nat[|members|](p requires 0 <= p < |members| => members[p]);
    assert sorted[..] == members;
    SortInPlace(sorted, ByPayload(rows));
    var order := sorted[..];
    SortInSweepOrder(rows, members);
    forall i: nat | i < |rows| ensures i in order <==> IsMember(rows, k, i) {
      if IsMember(rows, k, i) {
        MembersComplete(rows, k, |rows|, i);
      }
    }
    forall q | 0 <= q < |order| ensures IsMember(rows, k, order[q]) {
      assert order[q] in order;
    }
    WriteVerdicts(records, rows, k, order, margin);
  }

  function RateAt(rows: seq<Row>, i: nat): real {
    if i < |rows| && rows[i].rate.Some? then rows[i].rate.value else 0.0
  }

  method WriteVerdicts(records: array<Row>, rows: seq<Row>, k: Key, order: seq<nat>, margin: real)
    requires |rows| == records.Length && InSweepOrder(rows, order)
    requires forall i: nat | i < |rows| :: i in order <==> IsMember(rows, k, i)
    requires forall q | 0 <= q < |order| :: IsMember(rows, k, order[q])
    requires forall i | 0 <= i < |rows| :: records[i].(inverted := rows[i].inverted) == rows[i]
    modifies records
    ensures forall i | 0 <= i < |rows| :: records[i] ==
              if IsMember(rows, k, i) then rows[i].(inverted := Flag(rows, margin, i)) else old(records[i])
  {
    var rates := seq(|order|, p requires 0 <= p < |order| => RateAt(rows, order[p]));
    for p := 0 to |order|
      invariant forall q | 0 <= q < p :: records[order[q]] == rows[order[q]].(inverted := Flag(rows, margin, order[q]))
      invariant forall i | 0 <= i < |rows| && i !in order[..p] :: records[i] == old(records[i])
    {
      assert order[p] in order;
      var inverted := Verdict(rows, k, order, rates, margin, p);
      assert order[p] !in order[..p] by {
        forall q | 0 <= q < p ensures order[q] != order[p] {
          assert Follows(rows, order[q], order[p]);
        }
      }
      records[order[p]] := records[order[p]].(inverted := inverted);
      assert order[..p + 1] == order[..p] + [order[p]];
    }
    assert order[..|order|] == order;
  }

  method Verdict(rows: seq<Row>, k: Key, order: seq<nat>, rates: seq<real>, margin: real, p: nat) returns (inverted: bool)
    requires InSweepOrder(rows, order) && p < |order| == |rates|
    requires forall q | 0 <= q < |order| :: rates[q] == RateAt(rows, order[q])
    requires forall i: nat | i < |rows| :: i in order <==> IsMember(rows, k, i)
    ensures Swept(rows[order[p]]) && inverted == Flag(rows, margin, order[p])
  {
    var rate := rates[p];
    var largerMax := LargestRate(rates[p + 1..]);
    inverted := rate > 0.0 && largerMax > rate * (1.0 + margin);
    FlagAtPosition(rows, k, order, margin, p);
    forall q | 0 <= q < |order| ensures Swept(rows[order[q]]) && rates[q] == rows[order[q]].rate.value {
      assert order[q] in order;
    }
    if rate > 0.0 {
      ThresholdSign(rate, margin, rate * (1.0 + margin));
      LargestBeats(rates, rate * (1.0 + margin), p, rates[p + 1..], largerMax);
    }
  }

  lemma ThresholdSign(rate: real, margin: real, t: real)
    requires rate > 0.0 && t == rate * (1.0 + margin)
    ensures t < 0.0 <==> margin < -1.0
  {
    if margin < -1.0 {
      PositiveProduct(rate, -(1.0 + margin));
    } else {
      assert rate * (1.0 + margin) >= 0.0;
    }
  }

  /** The largest later rate exceeds the threshold exactly when some later rate does, or there is none and zero does. */
  lemma LargestBeats(rates: seq<real>, t: real, p: nat, later: seq<real>, m: real)
    requires p < |rates| && later == rates[p + 1..]
    requires |later| == 0 ==> m == 0.0
    requires |later| > 0 ==> m in later
    requires forall x | x in later :: x <= m
    ensures m > t <==> (exists q :: p < q < |rates| && rates[q] > t) || (t < 0.0 && p == |rates| - 1)
  {
    if m > t && |later| > 0 {
      var q :| 0 <= q < |later| && later[q] == m;
      assert rates[p + 1 + q] == m;
    }
    if q :| p < q < |rates| && rates[q] > t {
      assert later[q - p - 1] == rates[q];
      assert rates[q] in later;
    }
  }

  /** The detector: group, sort each sweep, and write every verdict into its record. */
  method FlagInversions(records: array<Row>, margin: real)
    modifies records
    ensures records[..] == Flagged(old(records[..]), margin)
    ensures forall i | 0 <= i < records.Length :: IsVerdict(old(records[..]), margin, i, records[i])
  {
    var rows := records[..];
    var groups := Group(rows);
    forall i: nat | i < |rows| && Swept(rows[i]) ensures KeyOf(rows[i]) in groups {
      MembersComplete(rows, KeyOf(rows[i]), |rows|, i);
      assert Lookup(groups, KeyOf(rows[i])) != [];
    }
    var todo := groups.Keys;
    while todo != {}
      invariant todo <= groups.Keys
      invariant forall i | 0 <= i < |rows| :: records[i] ==
                  if Swept(rows[i]) && KeyOf(rows[i]) !in todo
                  then rows[i].(inverted := Flag(rows, margin, i)) else rows[i]
      decreases |todo|
    {
      var k :| k in todo;
      FlagSweep(records, rows, k, Lookup(groups, k), margin);
      todo := todo - {k};
    }
    assert records[..] == Flagged(rows, margin);
    forall i | 0 <= i < records.Length ensures IsVerdict(rows, margin, i, records[i]) {
      VerdictInFields(rows, margin, i);
      assert records[i] == records[..][i];
    }
  }

  // ---------- the documented rule ----------

  /** The rule as documented: a strictly larger payload of the sweep beats this cell, whatever its own rate. */
  ghost predicate DocumentedFlag(rows: seq<Row>, margin: real, r: Row)
    requires Swept(r)
  {
    exists r' :: r' in rows && SameSweep(r, r') && r.payload < r'.payload && Beats(r, r', margin)
  }

  ghost predicate FollowsDocumentation(rows: seq<Row>, margin: real) {
    forall i: nat | i < |rows| && Swept(rows[i]) :: Flag(rows, margin, i) <==> DocumentedFlag(rows, margin, rows[i])
  }

  /** No sweep holds the same payload twice. */
  ghost predicate DistinctPayloads(rows: seq<Row>) {
    forall i, j | 0 <= i < j < |rows| && SameSweep(rows[i], rows[j]) :: rows[i].payload != rows[j].payload
  }

  /** What the documentation flags, the code flags too if the cell's own rate is positive. */
  lemma DocumentedIsFlagged(rows: seq<Row>, margin: real, i: nat)
    requires i < |rows| && Swept(rows[i]) && rows[i].rate.value > 0.0 && DocumentedFlag(rows, margin, rows[i])
    ensures Flag(rows, margin, i)
  {
    var r' :| r' in rows && SameSweep(rows[i], r') && rows[i].payload < r'.payload && Beats(rows[i], r', margin);
    var j: nat :| j < |rows| && rows[j] == r';
    assert Follows(rows, i, j);
  }

  /** With distinct payloads the code flags what the documentation flags, among the cells with a positive rate. */
  lemma DistinctMeansDocumented(rows: seq<Row>, margin: real, i: nat)
    requires margin >= -1.0 && DistinctPayloads(rows) && i < |rows| && Swept(rows[i])
    ensures Flag(rows, margin, i) <==> rows[i].rate.value > 0.0 && DocumentedFlag(rows, margin, rows[i])
  {
    var r := rows[i];
    if Flag(rows, margin, i) {
      var j: nat :| j < |rows| && SameSweep(r, rows[j]) && Follows(rows, i, j) && Beats(r, rows[j], margin);
      assert rows[j] in rows;
    }
    if r.rate.value > 0.0 && DocumentedFlag(rows, margin, r) {
      DocumentedIsFlagged(rows, margin, i);
    }
  }

  /** A stalled cell: nothing arrived at this payload, and something at a larger one of the same sweep. */
  ghost predicate HasStalledCell(rows: seq<Row>) {
    exists r, r' :: r in rows && r' in rows && SameSweep(r, r') && r.payload < r'.payload
                    && r.rate.value == 0.0 && r'.rate.value > 0.0
  }

  ghost predicate NonNegativeRates(rows: seq<Row>) {
    forall r | r in rows && r.rate.Some? :: r.rate.value >= 0.0
  }

  /** On distinct payloads the code departs from its documentation exactly when there is a stalled cell, which it does not flag. */
  lemma StalledCellIff(rows: seq<Row>, margin: real)
    requires margin >= -1.0 && DistinctPayloads(rows) && NonNegativeRates(rows)
    ensures FollowsDocumentation(rows, margin) <==> !HasStalledCell(rows)
  {
    forall i: nat | i < |rows| && Swept(rows[i])
      ensures Flag(rows, margin, i) <==> rows[i].rate.value > 0.0 && DocumentedFlag(rows, margin, rows[i])
      ensures rows[i].rate.value >= 0.0
    {
      DistinctMeansDocumented(rows, margin, i);
      assert rows[i] in rows;
    }
    if r, r' :| r in rows && r' in rows && SameSweep(r, r') && r.payload < r'.payload
                && r.rate.value == 0.0 && r'.rate.value > 0.0 {
      var i: nat :| i < |rows| && rows[i] == r;
      assert Beats(r, r', margin);
      assert DocumentedFlag(rows, margin, rows[i]);
    } else {
      forall i: nat | i < |rows| && Swept(rows[i]) && rows[i].rate.value == 0.0
        ensures !DocumentedFlag(rows, margin, rows[i])
      {
        assert rows[i] in rows;
      }
    }
  }

  /** The same sweep layout measured at other rates. */
  function WithRates(rows: seq<Row>, rates: seq<real>): (r: seq<Row>)
    requires |rates| == |rows|
    ensures |r| == |rows|
  {
    seq(|rows|, i requires 0 <= i < |rows| =>
      if rows[i].rate.Some? then rows[i].(rate := Some(rates[i])) else rows[i])
  }

  lemma WithRatesSweeps(rows: seq<Row>, rates: seq<real>, i: nat, j: nat)
    requires |rates| == |rows| && i < |rows| && j < |rows|
    ensures var rows' := WithRates(rows, rates);
            && rows'[i].payload == rows[i].payload
            && (SameSweep(rows'[i], rows'[j]) <==> SameSweep(rows[i], rows[j]))
  {
  }

  lemma WithRatesDistinct(rows: seq<Row>, rates: seq<real>)
    requires |rates| == |rows| && DistinctPayloads(rows)
    ensures DistinctPayloads(WithRates(rows, rates))
  {
    var rows' := WithRates(rows, rates);
    forall i, j | 0 <= i < j < |rows| && SameSweep(rows'[i], rows'[j]) ensures rows'[i].payload != rows'[j].payload {
      assert SameSweep(rows[i], rows[j]);
    }
  }

  /** Two rows with one payload, the second faster: the first is flagged though no larger payload beats it. */
  lemma TiedPayloadMisflags(rows: seq<Row>, margin: real, i: nat, j: nat, other: real) returns (rates: seq<real>)
    requires margin >= -1.0 && i < j < |rows| && SameSweep(rows[i], rows[j]) && rows[i].payload == rows[j].payload
    requires other <= 1.0 + margin
    ensures |rates| == |rows| && forall p | 0 <= p < |rates| :: rates[p] in {1.0, 2.0 + margin, other}
    ensures !FollowsDocumentation(WithRates(rows, rates), margin)
  {
    rates := seq(|rows|, p requires 0 <= p < |rows| => if p == i then 1.0 else if p == j then 2.0 + margin else other);
    var rows' := WithRates(rows, rates);
    assert SameSweep(rows'[i], rows'[j]) && Follows(rows', i, j) && Beats(rows'[i], rows'[j], margin);
    assert Flag(rows', margin, i);
    forall r' | r' in rows' && SameSweep(rows'[i], r') && rows'[i].payload < r'.payload
      ensures !Beats(rows'[i], r', margin)
    {
      var p :| 0 <= p < |rows'| && rows'[p] == r';
      assert r'.rate.value == rates[p] == other;
    }
  }

  /** Equal rates of 1 everywhere. */
  function Ones(n: nat): (rates: seq<real>)
    ensures |rates| == n && forall p | 0 <= p < n :: rates[p] == 1.0
  {
    seq(n, p requires 0 <= p < n => 1.0)
  }

  /** A margin below -1 lets the default of zero win: the last row of a sweep is flagged though nothing beats it. */
  lemma NegativeThresholdMisflags(rows: seq<Row>, margin: real, i: nat)
    requires margin < -1.0 && i < |rows| && Swept(rows[i])
    ensures !FollowsDocumentation(WithRates(rows, Ones(|rows|)), margin)
  {
    var rows' := WithRates(rows, Ones(|rows|));
    var j := LastRow(rows', i);
    assert Flag(rows', margin, j);
    forall r' | r' in rows' && SameSweep(rows'[j], r') ensures r'.payload <= rows'[j].payload {
      var p: nat :| p < |rows'| && rows'[p] == r';
      assert !Follows(rows', j, p);
    }
  }

  /** Every sweep has a last row. */
  lemma LastRow(rows: seq<Row>, i: nat) returns (j: nat)
    requires i < |rows| && Swept(rows[i])
    ensures j < |rows| && Swept(rows[j]) && IsLast(rows, j)
  {
    var k := KeyOf(rows[i]);
    var members := Members(rows, k, |rows|);
    var order := Sort(members, ByPayload(rows));
    SortInSweepOrder(rows, members);
    MembersComplete(rows, k, |rows|, i);
    assert i in order;
    forall p: nat | p < |rows| ensures p in order <==> IsMember(rows, k, p) {
      if IsMember(rows, k, p) {
        MembersComplete(rows, k, |rows|, p);
      }
    }
    j := order[|order| - 1];
    assert j in order;
    LastAtPosition(rows, k, order, |order| - 1);
  }

  /** A row of rate zero, with a larger payload that carries anything, is not flagged though it is beaten. */
  lemma ZeroRateMissed(rows: seq<Row>, margin: real, i: nat, j: nat) returns (rates: seq<real>)
    requires i < |rows| && j < |rows| && SameSweep(rows[i], rows[j]) && rows[i].payload < rows[j].payload
    ensures |rates| == |rows| && forall p | 0 <= p < |rates| :: rates[p] in {0.0, 1.0}
    ensures !FollowsDocumentation(WithRates(rows, rates), margin)
  {
    rates := seq(|rows|, p requires 0 <= p < |rows| => if p == i then 0.0 else 1.0);
    var rows' := WithRates(rows, rates);
    assert rows'[j] in rows' && SameSweep(rows'[i], rows'[j]) && Beats(rows'[i], rows'[j], margin);
    assert DocumentedFlag(rows', margin, rows'[i]) && !Flag(rows', margin, i);
  }

  // ---------- when the detector follows its documentation ----------

  ghost predicate NoneSwept(rows: seq<Row>) { forall r | r in rows :: !Swept(r) }

  /** No sweep holds two rows. */
  ghost predicate LoneRows(rows: seq<Row>) { forall i, j | 0 <= i < j < |rows| :: !SameSweep(rows[i], rows[j]) }

  /** Rows that share a payload have a larger one in their sweep. */
  ghost predicate TopUntied(rows: seq<Row>) {
    forall i, j | 0 <= i < j < |rows| && SameSweep(rows[i], rows[j]) && rows[i].payload == rows[j].payload ::
      exists l: nat :: l < |rows| && SameSweep(rows[i], rows[l]) && rows[i].payload < rows[l].payload
  }

  ghost predicate AllPositive(rates: seq<real>) { forall p | 0 <= p < |rates| :: rates[p] > 0.0 }

  ghost predicate AllNonNegative(rates: seq<real>) { forall p | 0 <= p < |rates| :: rates[p] >= 0.0 }

  lemma NoneSweptFollows(rows: seq<Row>, margin: real, rates: seq<real>)
    requires |rates| == |rows| && NoneSwept(rows)
    ensures FollowsDocumentation(WithRates(rows, rates), margin)
  {
    forall i | 0 <= i < |rows| ensures !Swept(WithRates(rows, rates)[i]) {
      assert rows[i] in rows;
    }
  }

  lemma DistinctFollows(rows: seq<Row>, margin: real, rates: seq<real>)
    requires |rates| == |rows| && DistinctPayloads(rows) && margin >= -1.0 && AllPositive(rates)
    ensures FollowsDocumentation(WithRates(rows, rates), margin)
  {
    var rows' := WithRates(rows, rates);
    WithRatesDistinct(rows, rates);
    forall i: nat | i < |rows'| && Swept(rows'[i])
      ensures Flag(rows', margin, i) <==> DocumentedFlag(rows', margin, rows'[i])
    {
      DistinctMeansDocumented(rows', margin, i);
    }
  }

  /** At margin -1 every positive rate beats every other, so only a tie at the top of a sweep matters. */
  lemma TopUntiedFollows(rows: seq<Row>, rates: seq<real>)
    requires |rates| == |rows| && TopUntied(rows) && AllPositive(rates)
    ensures FollowsDocumentation(WithRates(rows, rates), -1.0)
  {
    var rows' := WithRates(rows, rates);
    forall i: nat | i < |rows'| && Swept(rows'[i])
      ensures Flag(rows', -1.0, i) <==> DocumentedFlag(rows', -1.0, rows'[i])
    {
      if Flag(rows', -1.0, i) {
        var j: nat :| j < |rows'| && SameSweep(rows'[i], rows'[j]) && Follows(rows', i, j);
        WithRatesSweeps(rows, rates, i, j);
        var l: nat := if rows[i].payload < rows[j].payload then j else LargerRow(rows, i, j);
        WithRatesSweeps(rows, rates, i, l);
        assert rows'[l] in rows' && Beats(rows'[i], rows'[l], -1.0);
      }
      if DocumentedFlag(rows', -1.0, rows'[i]) {
        DocumentedIsFlagged(rows', -1.0, i);
      }
    }
  }

  ghost function LargerRow(rows: seq<Row>, i: nat, j: nat): (l: nat)
    requires TopUntied(rows) && i < j < |rows| && SameSweep(rows[i], rows[j]) && rows[i].payload == rows[j].payload
    ensures l < |rows| && SameSweep(rows[i], rows[l]) && rows[i].payload < rows[l].payload
  {
    var l: nat :| l < |rows| && SameSweep(rows[i], rows[l]) && rows[i].payload < rows[l].payload;
    l
  }

  lemma TiedTopMisflags(rows: seq<Row>, i: nat, j: nat)
    requires i < j < |rows| && SameSweep(rows[i], rows[j]) && rows[i].payload == rows[j].payload
    requires forall l: nat | l < |rows| && SameSweep(rows[i], rows[l]) :: rows[l].payload <= rows[i].payload
    ensures !FollowsDocumentation(WithRates(rows, Ones(|rows|)), -1.0)
  {
    var rows' := WithRates(rows, Ones(|rows|));
    assert SameSweep(rows'[i], rows'[j]) && Follows(rows', i, j) && Beats(rows'[i], rows'[j], -1.0);
    forall r' | r' in rows' && SameSweep(rows'[i], r') ensures r'.payload <= rows'[i].payload {
      var p: nat :| p < |rows'| && rows'[p] == r';
      WithRatesSweeps(rows, Ones(|rows|), i, p);
    }
  }

  lemma LoneFollows(rows: seq<Row>, margin: real, rates: seq<real>)
    requires |rates| == |rows| && LoneRows(rows) && margin >= -1.0
    ensures FollowsDocumentation(WithRates(rows, rates), margin)
  {
    var rows' := WithRates(rows, rates);
    forall i: nat, j: nat | i < |rows'| && j < |rows'| && SameSweep(rows'[i], rows'[j]) ensures i == j {
      WithRatesSweeps(rows, rates, i, j);
    }
  }

  /** What a sweep layout must satisfy at a margin for code and documentation to agree at all positive rates. */
  ghost predicate AgreesWhenPositive(rows: seq<Row>, margin: real) {
    if margin > -1.0 then DistinctPayloads(rows)
    else if margin == -1.0 then TopUntied(rows)
    else NoneSwept(rows)
  }

  /** At all positive rates the detector follows its documentation exactly when no sweep holds a payload twice (for a margin above -1). */
  lemma FollowsAtPositiveRatesIff(rows: seq<Row>, margin: real)
    ensures AgreesWhenPositive(rows, margin) <==>
            forall rates: seq<real> | |rates| == |rows| && AllPositive(rates) ::
              FollowsDocumentation(WithRates(rows, rates), margin)
  {
    if AgreesWhenPositive(rows, margin) {
      forall rates: seq<real> | |rates| == |rows| && AllPositive(rates)
        ensures FollowsDocumentation(WithRates(rows, rates), margin)
      {
        if margin > -1.0 {
          DistinctFollows(rows, margin, rates);
        } else if margin == -1.0 {
          TopUntiedFollows(rows, rates);
        } else {
          NoneSweptFollows(rows, margin, rates);
        }
      }
    } else {
      var rates := PositiveDisagreement(rows, margin);
    }
  }

  lemma PositiveDisagreement(rows: seq<Row>, margin: real) returns (rates: seq<real>)
    requires !AgreesWhenPositive(rows, margin)
    ensures |rates| == |rows| && AllPositive(rates) && !FollowsDocumentation(WithRates(rows, rates), margin)
  {
    rates := Ones(|rows|);
    if margin < -1.0 {
      var i: nat :| i < |rows| && Swept(rows[i]);
      NegativeThresholdMisflags(rows, margin, i);
    } else if margin == -1.0 {
      var i: nat, j: nat :| i < j < |rows| && SameSweep(rows[i], rows[j]) && rows[i].payload == rows[j].payload
        && !exists l: nat :: l < |rows| && SameSweep(rows[i], rows[l]) && rows[i].payload < rows[l].payload;
      TiedTopMisflags(rows, i, j);
    } else {
      var i: nat, j: nat :| i < j < |rows| && SameSweep(rows[i], rows[j]) && rows[i].payload == rows[j].payload;
      rates := TiedPayloadMisflags(rows, margin, i, j, 1.0 + margin);
    }
  }

  /**
    At all rates a wrapper can report, zero included, the two agree exactly when no
    sweep holds two rows (and, for a margin below -1, none holds any).
  */
  lemma FollowsDocumentationIff(rows: seq<Row>, margin: real)
    ensures (if margin >= -1.0 then LoneRows(rows) else NoneSwept(rows)) <==>
            forall rates: seq<real> | |rates| == |rows| && AllNonNegative(rates) ::
              FollowsDocumentation(WithRates(rows, rates), margin)
  {
    if (if margin >= -1.0 then LoneRows(rows) else NoneSwept(rows)) {
      forall rates: seq<real> | |rates| == |rows| && AllNonNegative(rates)
        ensures FollowsDocumentation(WithRates(rows, rates), margin)
      {
        if margin >= -1.0 {
          LoneFollows(rows, margin, rates);
        } else {
          NoneSweptFollows(rows, margin, rates);
        }
      }
    } else {
      var rates := NonNegativeDisagreement(rows, margin);
    }
  }

  lemma NonNegativeDisagreement(rows: seq<Row>, margin: real) returns (rates: seq<real>)
    requires !(if margin >= -1.0 then LoneRows(rows) else NoneSwept(rows))
    ensures |rates| == |rows| && AllNonNegative(rates) && !FollowsDocumentation(WithRates(rows, rates), margin)
  {
    if margin < -1.0 {
      var i: nat :| i < |rows| && Swept(rows[i]);
      rates := Ones(|rows|);
      NegativeThresholdMisflags(rows, margin, i);
    } else {
      var i: nat, j: nat :| i < j < |rows| && SameSweep(rows[i], rows[j]);
      if rows[i].payload < rows[j].payload {
        rates := ZeroRateMissed(rows, margin, i, j);
      } else if rows[j].payload < rows[i].payload {
        rates := ZeroRateMissed(rows, margin, j, i);
      } else {
        rates := TiedPayloadMisflags(rows, margin, i, j, 0.0);
      }
    }
  }

  // ---------- consequences ----------

  /** A row's flag carries over to any other rows with the same sweep. */
  lemma FlagCarries(rows: seq<Row>, rows': seq<Row>, margin: real, i: nat, i': nat)
    requires DistinctPayloads(rows) && DistinctPayloads(rows')
    requires i < |rows| && i' < |rows'| && rows[i] == rows'[i'] && Swept(rows[i])
    requires forall r | SameSweep(rows[i], r) :: r in rows <==> r in rows'
    requires Flag(rows, margin, i)
    ensures Flag(rows', margin, i')
  {
    var r := rows[i];
    if j: nat :| j < |rows| && SameSweep(r, rows[j]) && Follows(rows, i, j) && Beats(r, rows[j], margin) {
      assert rows[j] in rows;
      var j': nat :| j' < |rows'| && rows'[j'] == rows[j];
      assert Follows(rows', i', j');
    } else {
      forall j': nat | j' < |rows'| && SameSweep(r, rows'[j']) ensures !Follows(rows', i', j') {
        assert rows'[j'] in rows';
        var j: nat :| j < |rows| && rows[j] == rows'[j'];
        assert !Follows(rows, i, j);
      }
    }
  }

  /** A row's flag depends only on the rows of its own sweep, not on their order nor on any other sweep. */
  lemma FlagDependsOnSweepOnly(rows: seq<Row>, rows': seq<Row>, margin: real, i: nat, i': nat)
    requires DistinctPayloads(rows) && DistinctPayloads(rows')
    requires i < |rows| && i' < |rows'| && rows[i] == rows'[i'] && Swept(rows[i])
    requires forall r | SameSweep(rows[i], r) :: r in rows <==> r in rows'
    ensures Flag(rows, margin, i) <==> Flag(rows', margin, i')
  {
    if Flag(rows, margin, i) {
      FlagCarries(rows, rows', margin, i, i');
    }
    if Flag(rows', margin, i') {
      FlagCarries(rows', rows, margin, i', i);
    }
  }

  /** A row whose rate is the highest of its sweep is never flagged. */
  lemma TopRateNeverFlagged(rows: seq<Row>, margin: real, i: nat)
    requires margin >= 0.0 && i < |rows| && Swept(rows[i])
    requires forall j: nat | j < |rows| && SameSweep(rows[i], rows[j]) :: rows[j].rate.value <= rows[i].rate.value
    ensures !Flag(rows, margin, i)
  {
    var rate := rows[i].rate.value;
    if rate > 0.0 {
      assert rate * margin >= 0.0;
      assert rate * (1.0 + margin) == rate + rate * margin;
    }
  }

  /** Flags do not read the verdicts already stored in the rows. */
  lemma FlagTransfers(rows: seq<Row>, rows': seq<Row>, margin: real, i: nat)
    requires |rows| == |rows'| && forall j | 0 <= j < |rows| :: rows'[j].(inverted := rows[j].inverted) == rows[j]
    requires i < |rows| && Swept(rows[i]) && Flag(rows, margin, i)
    ensures Flag(rows', margin, i)
  {
    if j: nat :| j < |rows| && SameSweep(rows[i], rows[j]) && Follows(rows, i, j) && Beats(rows[i], rows[j], margin) {
      assert SameSweep(rows'[i], rows'[j]) && Follows(rows', i, j) && Beats(rows'[i], rows'[j], margin);
    } else {
      forall j: nat | j < |rows'| && SameSweep(rows'[i], rows'[j]) ensures !Follows(rows', i, j) {
        assert SameSweep(rows[i], rows[j]);
      }
    }
  }

  lemma FlagIgnoresOldVerdicts(rows: seq<Row>, margin: real, i: nat)
    requires i < |rows| && Swept(rows[i])
    ensures Swept(Flagged(rows, margin)[i])
    ensures Flag(Flagged(rows, margin), margin, i) <==> Flag(rows, margin, i)
  {
    var rows' := Flagged(rows, margin);
    if Flag(rows, margin, i) {
      FlagTransfers(rows, rows', margin, i);
    } else if Flag(rows', margin, i) {
      FlagTransfers(rows', rows, margin, i);
    }
  }

  /** A second pass changes nothing. */
  lemma SecondPassChangesNothing(rows: seq<Row>, margin: real)
    ensures Flagged(Flagged(rows, margin), margin) == Flagged(rows, margin)
  {
    var once := Flagged(rows, margin);
    forall i: nat | i < |rows| ensures Flagged(once, margin)[i] == once[i] {
      if Swept(rows[i]) {
        FlagIgnoresOldVerdicts(rows, margin, i);
      }
    }
  }
}
