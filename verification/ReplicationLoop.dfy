/**
  The interleaved adaptive replication loop (`run` in orchestrator/src/main.rs).

  Each round measures one replicate of every cell that has not converged. The
  outcome of the a-th attempt at cell i is given by an oracle, which may fail.
  The main results: interleaving is invisible, so each cell ends exactly as its
  own sequential loop would; and that loop stops at the first stable prefix.
*/
module ReplicationLoop {
  import opened Wrappers
  import opened Sorting
  import opened Stats
  import opened Records
  import opened Aggregation

  /** The outcomes of one cell's attempts: a record, or a failure. */
  type Stream = nat -> Option<CellRecord>

  /** The outcomes of all cells' attempts, by cell and attempt. */
  type Oracle = (nat, nat) -> Option<CellRecord>

  function StreamOf(oracle: Oracle, cell: nat): Stream { (attempt: nat) => oracle(cell, attempt) }

  /** The values of one cell's accumulator. */
  datatype CellState = CellState(records: seq<CellRecord>, primary: seq<real>, failures: nat, done: bool)

  function Attempted(s: CellState): nat { |s.records| + s.failures }

  /**
    What the loop needs of a replication policy: the two counts, and the verdict
    on the primary metrics so far. The loop's own theorems hold for every gate;
    `PolicyOf` supplies the stability verdict of a summary.
  */
  datatype Policy = Policy(minReplicates: nat, maxReplicates: nat, gate: seq<real> -> bool)

  predicate Converged(primary: seq<real>, rep: Replication) {
    Summarize(primary, rep.madK, rep.targetRelIqr, rep.maxOutlierFrac).stable
  }

  function StabilityGate(rep: Replication): seq<real> -> bool { primary => Converged(primary, rep) }

  function PolicyOf(rep: Replication): Policy {
    Policy(rep.minReplicates, rep.maxReplicates, StabilityGate(rep))
  }

  // ---------- the cell's own loop ----------

  /** One attempt at one cell, in the round in which `measured` attempts will have been made. */
  function Measure(kind: Kind, pol: Policy, s: CellState, outcome: Option<CellRecord>, measured: nat): CellState {
    var s' := match outcome
      case Some(r) => s.(records := s.records + [r], primary := s.primary + [PrimaryMetric(kind, r)])
      case None => s.(failures := s.failures + 1);
    s'.(done := measured >= pol.maxReplicates || (|s'.records| >= pol.minReplicates && pol.gate(s'.primary)))
  }

  /** The cell after `rounds` rounds of its own loop, run alone. */
  function Alone(kind: Kind, pol: Policy, stream: Stream, rounds: nat): CellState {
    if rounds == 0 then CellState([], [], 0, false)
    else
      var s := Alone(kind, pol, stream, rounds - 1);
      if s.done then s else Measure(kind, pol, s, stream(rounds - 1), rounds)
  }

  // ---------- the first stable prefix ----------

  function Successes(stream: Stream, m: nat): (rs: seq<CellRecord>)
    ensures |rs| <= m
  {
    if m == 0 then []
    else Successes(stream, m - 1) + match stream(m - 1) case Some(r) => [r] case None => []
  }

  /** The gate on the first `m` attempts alone: enough successes, and a stable summary of them. */
  predicate StablePrefix(kind: Kind, pol: Policy, stream: Stream, m: nat) {
    var rs := Successes(stream, m);
    |rs| >= pol.minReplicates && pol.gate(Primaries(kind, rs))
  }

  /** The number of attempts, at least `m`, after which the cell stops: the first stable prefix, or the ceiling. */
  function StopFrom(kind: Kind, pol: Policy, stream: Stream, m: nat): (n: nat)
    ensures m <= pol.maxReplicates ==> m <= n <= pol.maxReplicates
    ensures m > pol.maxReplicates ==> n == m
    decreases pol.maxReplicates - m
  {
    if m >= pol.maxReplicates || StablePrefix(kind, pol, stream, m) then m
    else StopFrom(kind, pol, stream, m + 1)
  }

  function StopAt(kind: Kind, pol: Policy, stream: Stream): nat {
    StopFrom(kind, pol, stream, 1)
  }

  /** The accumulator holding exactly the outcomes of the first `m` attempts. */
  function Prefix(kind: Kind, stream: Stream, m: nat, done: bool): CellState {
    var rs := Successes(stream, m);
    CellState(rs, Primaries(kind, rs), m - |rs|, done)
  }

  /** No prefix from `m` on, and before the stopping point, is stable; the stopping point is stable or the ceiling. */
  lemma {:induction false} StopIsFirst(kind: Kind, pol: Policy, stream: Stream, m: nat)
    requires m <= pol.maxReplicates
    ensures var n := StopFrom(kind, pol, stream, m);
            && (n < pol.maxReplicates ==> StablePrefix(kind, pol, stream, n))
            && forall j | m <= j < n :: !StablePrefix(kind, pol, stream, j)
    decreases pol.maxReplicates - m
  {
    if m < pol.maxReplicates && !StablePrefix(kind, pol, stream, m) {
      StopIsFirst(kind, pol, stream, m + 1);
    }
  }

  lemma PrimariesSnoc(kind: Kind, rs: seq<CellRecord>, r: CellRecord)
    ensures Primaries(kind, rs + [r]) == Primaries(kind, rs) + [PrimaryMetric(kind, r)]
  {
  }

  /** A further attempt extends the prefix by that attempt's outcome. */
  lemma MeasureExtends(kind: Kind, pol: Policy, stream: Stream, m: nat)
    ensures Measure(kind, pol, Prefix(kind, stream, m, false), stream(m), m + 1) ==
            Prefix(kind, stream, m + 1, m + 1 >= pol.maxReplicates || StablePrefix(kind, pol, stream, m + 1))
  {
    var rs := Successes(stream, m);
    if stream(m).Some? {
      PrimariesSnoc(kind, rs, stream(m).value);
    } else {
      assert Successes(stream, m + 1) == rs;
    }
  }

  /** Up to the stopping point, the loop's condition for being done holds there and nowhere before. */
  lemma StopReached(kind: Kind, pol: Policy, stream: Stream, m: nat)
    requires 0 < m <= StopAt(kind, pol, stream) && pol.maxReplicates > 0
    ensures (m >= pol.maxReplicates || StablePrefix(kind, pol, stream, m)) <==> m == StopAt(kind, pol, stream)
  {
    StopIsFirst(kind, pol, stream, 1);
  }

  /** The cell's own loop holds the first min(rounds, stop) outcomes, and is done once it reached the stop. */
  lemma {:induction false} AloneIsPrefix(kind: Kind, pol: Policy, stream: Stream, rounds: nat)
    requires rounds <= pol.maxReplicates && pol.maxReplicates > 0
    ensures var stop := StopAt(kind, pol, stream);
            Alone(kind, pol, stream, rounds) ==
              if rounds < stop then Prefix(kind, stream, rounds, false) else Prefix(kind, stream, stop, true)
  {
    if rounds > 0 {
      AloneIsPrefix(kind, pol, stream, rounds - 1);
      if rounds <= StopAt(kind, pol, stream) {
        StopReached(kind, pol, stream, rounds);
        MeasureExtends(kind, pol, stream, rounds - 1);
      }
    }
  }

  // ---------- consequences ----------

  /** The accumulator's invariant: aligned metrics, and no more attempts than rounds, exactly as many while unfinished. */
  lemma AloneInvariant(kind: Kind, pol: Policy, stream: Stream, rounds: nat)
    requires rounds <= pol.maxReplicates
    ensures var s := Alone(kind, pol, stream, rounds);
            && s.primary == Primaries(kind, s.records)
            && Attempted(s) <= rounds
            && (!s.done ==> Attempted(s) == rounds)
  {
    if rounds > 0 {
      AloneIsPrefix(kind, pol, stream, rounds);
    }
  }

  /** Once done, later rounds change nothing. */
  lemma {:induction false} DoneIsFinal(kind: Kind, pol: Policy, stream: Stream, rounds: nat, later: nat)
    requires rounds <= later && Alone(kind, pol, stream, rounds).done
    ensures Alone(kind, pol, stream, later) == Alone(kind, pol, stream, rounds)
  {
    if rounds < later {
      DoneIsFinal(kind, pol, stream, rounds, later - 1);
    }
  }

  /** The gate never opens on an empty list of metrics. */
  ghost predicate NeedsSamples(gate: seq<real> -> bool) { !gate([]) }

  lemma StabilityNeedsSamples(rep: Replication)
    ensures !Converged([], rep)
  {
    var none: seq<real> := [];
    SelectCount(none, HampelMask(none, rep.madK));
  }

  /**
    Early stopping is exact: a cell makes fewer attempts than the ceiling if and
    only if some shorter prefix is stable, and then it stops after the first such
    prefix, whose last attempt succeeded.
  */
  lemma EarlyStopExact(kind: Kind, pol: Policy, stream: Stream)
    requires pol.maxReplicates > 0 && NeedsSamples(pol.gate)
    ensures var n := Attempted(Alone(kind, pol, stream, pol.maxReplicates));
            && n == StopAt(kind, pol, stream)
            && 1 <= n <= pol.maxReplicates
            && (n < pol.maxReplicates <==> exists j :: 1 <= j < pol.maxReplicates && StablePrefix(kind, pol, stream, j))
            && (n < pol.maxReplicates ==>
                  && StablePrefix(kind, pol, stream, n)
                  && (forall j | 1 <= j < n :: !StablePrefix(kind, pol, stream, j))
                  && stream(n - 1).Some?)
  {
    AloneIsPrefix(kind, pol, stream, pol.maxReplicates);
    StopIsFirst(kind, pol, stream, 1);
    var n := StopAt(kind, pol, stream);
    if n < pol.maxReplicates && stream(n - 1).None? {
      assert Successes(stream, n) == Successes(stream, n - 1);
      assert Primaries(kind, []) == [];
      assert StablePrefix(kind, pol, stream, n - 1);
    }
  }

  lemma GateHeldAtStop(kind: Kind, pol: Policy, stream: Stream)
    requires pol.maxReplicates > 0 && NeedsSamples(pol.gate)
    ensures var s := Alone(kind, pol, stream, pol.maxReplicates);
            && Attempted(s) <= pol.maxReplicates
            && (Attempted(s) < pol.maxReplicates ==> |s.records| > 0 && pol.gate(s.primary))
            && s.primary == Primaries(kind, s.records)
  {
    AloneInvariant(kind, pol, stream, pol.maxReplicates);
    AloneIsPrefix(kind, pol, stream, pol.maxReplicates);
    EarlyStopExact(kind, pol, stream);
    assert Primaries(kind, []) == [];
  }

  /** The record written for a cell; cells without a successful replicate are skipped. */
  function WrittenRecord(s: CellState, rep: Replication): Option<CellRecord>
    requires |s.records| == |s.primary|
  {
    if |s.records| == 0 then None else AggregateCell(s.records, s.primary, rep)
  }

  lemma WrittenStability(s: CellState, rep: Replication, kept: nat)
    requires |s.records| == |s.primary| && kept == |KeptRecords(s.records, s.primary, rep.madK)|
    ensures var r := WrittenRecord(s, rep);
            r.Some? ==> r.value.stability.Some? && r.value.stability.value.stable == Converged(s.primary, rep)
    ensures WrittenRecord(s, rep).Some? <==> kept > 0
  {
    KeptTogether(s.records, s.primary, rep.madK);
  }

  lemma ConvergedKeeps(primary: seq<real>, rep: Replication)
    requires Converged(primary, rep)
    ensures |Kept(primary, rep.madK)| >= 3
  {
  }

  /** The gate's verdicts on the given metrics, and on none, are those of the stability summary. */
  ghost predicate GateIsStability(pol: Policy, rep: Replication, primary: seq<real>) {
    && pol.maxReplicates == rep.maxReplicates
    && pol.gate(primary) == Converged(primary, rep)
    && pol.gate([]) == Converged([], rep)
  }

  lemma PolicyGate(rep: Replication, primary: seq<real>)
    ensures GateIsStability(PolicyOf(rep), rep, primary)
  {
  }

  lemma EarlyStopVerdict(kind: Kind, rep: Replication, stream: Stream, pol: Policy, s: CellState)
    requires rep.maxReplicates > 0 && GateIsStability(pol, rep, s.primary)
    requires s == Alone(kind, pol, stream, rep.maxReplicates)
    ensures |s.records| == |s.primary|
    ensures var r := WrittenRecord(s, rep);
            && (r.Some? ==> r.value.stability.Some?)
            && (Attempted(s) < rep.maxReplicates ==> r.Some? && r.value.stability.value.stable)
            && (r.Some? && !r.value.stability.value.stable ==> Attempted(s) == rep.maxReplicates)
  {
    StabilityNeedsSamples(rep);
    GateHeldAtStop(kind, pol, stream);
    WrittenVerdict(s, rep, Attempted(s) < rep.maxReplicates);
  }

  /**
    A cell that stopped early is written as stable; one written as unstable used
    every permitted attempt. `s` is the cell's final state under the policy.
  */
  lemma EarlyStopIsWrittenStable(kind: Kind, rep: Replication, stream: Stream, pol: Policy, s: CellState)
    requires rep.maxReplicates > 0 && pol == PolicyOf(rep)
    requires s == Alone(kind, pol, stream, rep.maxReplicates)
    ensures |s.records| == |s.primary|
    ensures var r := WrittenRecord(s, rep);
            && (r.Some? ==> r.value.stability.Some?)
            && (Attempted(s) < rep.maxReplicates ==> r.Some? && r.value.stability.value.stable)
            && (r.Some? && !r.value.stability.value.stable ==> Attempted(s) == rep.maxReplicates)
  {
    PolicyGate(rep, s.primary);
    EarlyStopVerdict(kind, rep, stream, pol, s);
  }

  lemma WrittenVerdict(s: CellState, rep: Replication, early: bool)
    requires |s.records| == |s.primary| && (early ==> Converged(s.primary, rep))
    ensures var r := WrittenRecord(s, rep);
            && (r.Some? ==> r.value.stability.Some?)
            && (early ==> r.Some? && r.value.stability.value.stable)
            && (r.Some? && !r.value.stability.value.stable ==> !early)
  {
    WrittenStability(s, rep, |KeptRecords(s.records, s.primary, rep.madK)|);
    KeptTogether(s.records, s.primary, rep.madK);
    if early {
      ConvergedKeeps(s.primary, rep);
    }
  }

  // ---------- a fixed replicate count ----------

  /** The policy that `--replicates n` forces. */
  function FixedReplicates(cfg: Replication, n: nat): Replication {
    var m := if n == 0 then 1 else n;
    cfg.(minReplicates := m, maxReplicates := m, warmupReplicates := 0)
  }

  /** The forced policy: at least and at most max(n, 1) replicates, no warmup, and the configured gate. */
  lemma FixedPolicy(cfg: Replication, n: nat)
    ensures var m := if n > 0 then n else 1;
            FixedReplicates(cfg, n) == Replication(m, m, 0, cfg.targetRelIqr, cfg.madK, cfg.maxOutlierFrac)
  {
  }

  /** `--replicates n` attempts every cell exactly max(n, 1) times, whatever the gate says. */
  lemma FixedCountIsExact(kind: Kind, cfg: Replication, n: nat, gate: seq<real> -> bool, stream: Stream)
    ensures var rep := FixedReplicates(cfg, n);
            Attempted(Alone(kind, Policy(rep.minReplicates, rep.maxReplicates, gate), stream, rep.maxReplicates))
            == if n == 0 then 1 else n
  {
    var rep := FixedReplicates(cfg, n);
    var pol := Policy(rep.minReplicates, rep.maxReplicates, gate);
    AloneIsPrefix(kind, pol, stream, rep.maxReplicates);
    StopIsFirst(kind, pol, stream, 1);
  }

  // ---------- the interleaved loop ----------

  /** Mutable per-cell accumulator. */
  class CellAcc {
    const entry: MatrixEntry
    var records: seq<CellRecord>
    var primary: seq<real>
    var failures: nat
    var done: bool

    constructor (entry: MatrixEntry)
      ensures this.entry == entry && State() == CellState([], [], 0, false)
    {
      this.entry := entry;
      records, primary, failures, done := [], [], 0, false;
    }

    function State(): CellState
      reads this
    {
      CellState(records, primary, failures, done)
    }

    /** One attempt and the convergence check after it. */
    method Attempt(pol: Policy, outcome: Option<CellRecord>, round: nat)
      requires !done && round < pol.maxReplicates
      modifies this
      ensures State() == Measure(entry.kind, pol, old(State()), outcome, round + 1)
    {
      match outcome {
        case Some(record) =>
          primary := primary + [PrimaryMetric(entry.kind, record)];
          records := records + [record];
        case None =>
          failures := failures + 1;
      }
      var measured := round + 1;
      if measured >= pol.maxReplicates {
        done := true;
      } else if |records| >= pol.minReplicates {
        if pol.gate(primary) {
          done := true;
        }
      }
    }
  }

  /** The states of all cells at a moment of the run: the first `pos` cells have been visited in this round. */
  function Snapshot(entries: seq<MatrixEntry>, pol: Policy, oracle: Oracle, round: nat, pos: nat): (ss: seq<CellState>)
    ensures |ss| == |entries|
  {
    seq(|entries|, i requires 0 <= i < |entries| =>
      Alone(entries[i].kind, pol, StreamOf(oracle, i), if i < pos then round + 1 else round))
  }

  /** Two cells that are both unfinished differ by at most one attempt. */
  ghost predicate Fair(ss: seq<CellState>) {
    forall i, j | 0 <= i < |ss| && 0 <= j < |ss| && !ss[i].done && !ss[j].done ::
      Attempted(ss[i]) <= Attempted(ss[j]) + 1
  }

  lemma SnapshotFair(entries: seq<MatrixEntry>, pol: Policy, oracle: Oracle, round: nat, pos: nat)
    requires round < pol.maxReplicates
    ensures Fair(Snapshot(entries, pol, oracle, round, pos))
  {
    var ss := Snapshot(entries, pol, oracle, round, pos);
    forall i | 0 <= i < |ss| && !ss[i].done ensures round <= Attempted(ss[i]) <= round + 1 {
      AloneInvariant(entries[i].kind, pol, StreamOf(oracle, i), if i < pos then round + 1 else round);
    }
  }

  ghost function States(cells: seq<CellAcc>): (ss: seq<CellState>)
    reads cells
    ensures |ss| == |cells|
  {
    seq(|cells|, i requires 0 <= i < |cells| reads cells => cells[i].State())
  }

  method CountActive(cells: seq<CellAcc>) returns (active: nat)
    ensures active == 0 <==> forall i | 0 <= i < |cells| :: cells[i].done
  {
    active := 0;
    for i := 0 to |cells|
      invariant active == 0 <==> forall j | 0 <= j < i :: cells[j].done
    {
      if !cells[i].done {
        active := active + 1;
      }
    }
  }

  method NewCells(entries: seq<MatrixEntry>) returns (cells: seq<CellAcc>)
    ensures |cells| == |entries| && fresh(cells)
    ensures forall i | 0 <= i < |cells| ::
              cells[i].entry == entries[i] && cells[i].State() == CellState([], [], 0, false)
    ensures forall i, j | 0 <= i < j < |cells| :: cells[i] != cells[j]
  {
    cells := [];
    for i := 0 to |entries|
      invariant |cells| == i
      invariant fresh(cells)
      invariant forall j | 0 <= j < i ::
                  cells[j].entry == entries[j] && cells[j].State() == CellState([], [], 0, false)
      invariant forall j, k | 0 <= j < k < i :: cells[j] != cells[k]
    {
      var cell := new CellAcc(entries[i]);
      cells := cells + [cell];
    }
  }

  /** The cells are distinct objects for the given entries. */
  ghost predicate Laid(cells: seq<CellAcc>, entries: seq<MatrixEntry>) {
    && |cells| == |entries|
    && (forall i | 0 <= i < |cells| :: cells[i].entry == entries[i])
    && (forall i, j | 0 <= i < j < |cells| :: cells[i] != cells[j])
  }

  /** The visit of one cell in a round: an attempt, unless the cell is done. */
  method Visit(cells: seq<CellAcc>, entries: seq<MatrixEntry>, pol: Policy, oracle: Oracle, round: nat, p: nat)
    requires round < pol.maxReplicates && Laid(cells, entries) && p < |cells|
    requires States(cells) == Snapshot(entries, pol, oracle, round, p)
    modifies cells[p]
    ensures States(cells) == Snapshot(entries, pol, oracle, round, p + 1)
  {
    ghost var before := States(cells);
    assert before[p] == cells[p].State();
    if !cells[p].done {
      cells[p].Attempt(pol, oracle(p, round), round);
    }
    VisitSnapshot(entries, pol, oracle, round, p);
    assert States(cells) == before[p := cells[p].State()];
  }

  /** Visiting cell `p` moves the snapshot on in that cell only. */
  lemma VisitSnapshot(entries: seq<MatrixEntry>, pol: Policy, oracle: Oracle, round: nat, p: nat)
    requires p < |entries|
    ensures Snapshot(entries, pol, oracle, round, p + 1) ==
            Snapshot(entries, pol, oracle, round, p)[p := Alone(entries[p].kind, pol, StreamOf(oracle, p), round + 1)]
  {
  }

  lemma RoundSnapshot(entries: seq<MatrixEntry>, pol: Policy, oracle: Oracle, round: nat)
    ensures Snapshot(entries, pol, oracle, round, |entries|) == Snapshot(entries, pol, oracle, round + 1, 0)
  {
  }

  /** One pass over the cells. */
  method Round(cells: seq<CellAcc>, entries: seq<MatrixEntry>, pol: Policy, oracle: Oracle, round: nat)
    returns (ghost trace: seq<seq<CellState>>)
    requires round < pol.maxReplicates && Laid(cells, entries)
    requires States(cells) == Snapshot(entries, pol, oracle, round, 0)
    modifies cells
    ensures States(cells) == Snapshot(entries, pol, oracle, round + 1, 0)
    ensures |trace| == |entries|
    ensures forall p | 0 <= p < |trace| :: trace[p] == Snapshot(entries, pol, oracle, round, p + 1) && Fair(trace[p])
  {
    trace := [];
    for p := 0 to |cells|
      invariant States(cells) == Snapshot(entries, pol, oracle, round, p)
      invariant |trace| == p
      invariant forall q | 0 <= q < p :: trace[q] == Snapshot(entries, pol, oracle, round, q + 1) && Fair(trace[q])
    {
      Visit(cells, entries, pol, oracle, round, p);
      SnapshotFair(entries, pol, oracle, round, p + 1);
      trace := trace + [States(cells)];
    }
    RoundSnapshot(entries, pol, oracle, round);
  }

  /** If every cell is done, the snapshot is final. */
  lemma AllDoneIsFinal(entries: seq<MatrixEntry>, pol: Policy, oracle: Oracle, round: nat, later: nat)
    requires round <= later
    requires forall i | 0 <= i < |entries| :: Snapshot(entries, pol, oracle, round, 0)[i].done
    ensures Snapshot(entries, pol, oracle, round, 0) == Snapshot(entries, pol, oracle, later, 0)
  {
    forall i: nat | i < |entries|
      ensures Snapshot(entries, pol, oracle, round, 0)[i] == Snapshot(entries, pol, oracle, later, 0)[i]
    {
      assert Snapshot(entries, pol, oracle, round, 0)[i].done;
      DoneIsFinal(entries[i].kind, pol, StreamOf(oracle, i), round, later);
    }
  }

  /** The states seen after every visit of the rounds made, each of them fair. */
  ghost predicate Witnessed(rounds: seq<seq<seq<CellState>>>, entries: seq<MatrixEntry>, pol: Policy, oracle: Oracle) {
    && |rounds| <= pol.maxReplicates
    && forall r | 0 <= r < |rounds| :: RoundWitnessed(rounds[r], entries, pol, oracle, r)
  }

  ghost predicate RoundWitnessed(visits: seq<seq<CellState>>, entries: seq<MatrixEntry>, pol: Policy, oracle: Oracle, r: nat) {
    && |visits| == |entries|
    && forall p | 0 <= p < |visits| :: visits[p] == Snapshot(entries, pol, oracle, r, p + 1) && Fair(visits[p])
  }

  /** Every cell is done. */
  ghost predicate AllDone(ss: seq<CellState>) { forall i | 0 <= i < |ss| :: ss[i].done }

  /**
    The whole loop. Every cell ends in the state its own loop would have reached
    alone. `rounds` holds the states after every visit of a cell, round by round:
    at each of these moments any two unfinished cells are within one attempt of
    each other. A further round was made exactly while some cell was unfinished.
  */
  method MeasureAll(entries: seq<MatrixEntry>, pol: Policy, oracle: Oracle)
    returns (cells: seq<CellAcc>, ghost rounds: seq<seq<seq<CellState>>>)
    ensures Laid(cells, entries) && fresh(cells)
    ensures States(cells) == Snapshot(entries, pol, oracle, pol.maxReplicates, 0)
    ensures Witnessed(rounds, entries, pol, oracle)
    ensures States(cells) == Snapshot(entries, pol, oracle, |rounds|, 0)
    ensures forall r: nat | r < |rounds| :: !AllDone(Snapshot(entries, pol, oracle, r, 0))
    ensures |rounds| < pol.maxReplicates ==> AllDone(States(cells))
  {
    cells := NewCells(entries);
    rounds := [];
    for round := 0 to pol.maxReplicates
      invariant Laid(cells, entries) && fresh(cells)
      invariant States(cells) == Snapshot(entries, pol, oracle, round, 0)
      invariant |rounds| == round && Witnessed(rounds, entries, pol, oracle)
      invariant forall r: nat | r < round :: !AllDone(Snapshot(entries, pol, oracle, r, 0))
    {
      var active := CountActive(cells);
      assert active == 0 <==> AllDone(States(cells)) by {
        assert forall i | 0 <= i < |cells| :: States(cells)[i].done == cells[i].done;
      }
      if active == 0 {
        AllDoneIsFinal(entries, pol, oracle, round, pol.maxReplicates);
        break;
      }
      ghost var visits := Round(cells, entries, pol, oracle, round);
      assert RoundWitnessed(visits, entries, pol, oracle, round);
      rounds := rounds + [visits];
    }
  }

  lemma FinalStates(entries: seq<MatrixEntry>, pol: Policy, oracle: Oracle, i: nat)
    requires i < |entries|
    ensures Snapshot(entries, pol, oracle, pol.maxReplicates, 0)[i] ==
            Alone(entries[i].kind, pol, StreamOf(oracle, i), pol.maxReplicates)
  {
  }

  // ---------- the configured policy ----------

  /** The successes so far are enough, and their summary is stable, under the configured replication. */
  ghost predicate Agreed(kind: Kind, rep: Replication, rs: seq<CellRecord>) {
    && |rs| >= rep.minReplicates
    && Summarize(Primaries(kind, rs), rep.madK, rep.targetRelIqr, rep.maxOutlierFrac).stable
  }

  /** `n` is the ceiling, or the first number of attempts after which the successes agree. */
  ghost predicate StopsAtFirst(kind: Kind, rep: Replication, stream: Stream, n: nat) {
    && n <= rep.maxReplicates
    && (n < rep.maxReplicates ==> Agreed(kind, rep, Successes(stream, n)))
    && forall m | 0 < m < n :: !Agreed(kind, rep, Successes(stream, m))
  }

  /**
    The cell holds the outcomes of its first attempts, up to the ceiling or to the
    first attempt after which the successes agree; no shorter prefix does.
  */
  ghost predicate StopsAsConfigured(kind: Kind, rep: Replication, stream: Stream, s: CellState) {
    var n := |s.records| + s.failures;
    && s.records == Successes(stream, n) && s.primary == Primaries(kind, s.records)
    && (rep.maxReplicates > 0 ==> n > 0 && s.done)
    && StopsAtFirst(kind, rep, stream, n)
  }

  lemma AgreedIff(kind: Kind, rep: Replication, stream: Stream, m: nat)
    ensures StablePrefix(kind, PolicyOf(rep), stream, m) <==> Agreed(kind, rep, Successes(stream, m))
  {
  }

  lemma ConfiguredStop(kind: Kind, rep: Replication, stream: Stream, pol: Policy, s: CellState)
    requires pol == PolicyOf(rep) && s == Alone(kind, pol, stream, rep.maxReplicates)
    ensures StopsAsConfigured(kind, rep, stream, s)
  {
    if rep.maxReplicates > 0 {
      var n := StopAt(kind, pol, stream);
      AloneIsPrefix(kind, pol, stream, rep.maxReplicates);
      StopAgreed(kind, rep, stream, pol, n);
      PrefixConfigured(kind, rep, stream, n, s);
    }
  }

  lemma StopAgreed(kind: Kind, rep: Replication, stream: Stream, pol: Policy, n: nat)
    requires pol == PolicyOf(rep) && rep.maxReplicates > 0 && n == StopAt(kind, pol, stream)
    ensures StopsAtFirst(kind, rep, stream, n)
  {
    StopIsFirst(kind, pol, stream, 1);
    AgreedIff(kind, rep, stream, n);
    NoneAgreedBefore(kind, rep, stream, pol, n);
  }

  lemma PrefixConfigured(kind: Kind, rep: Replication, stream: Stream, n: nat, s: CellState)
    requires n > 0 && s == Prefix(kind, stream, n, true) && StopsAtFirst(kind, rep, stream, n)
    ensures StopsAsConfigured(kind, rep, stream, s)
  {
    assert |s.records| + s.failures == n;
  }

  lemma NoneAgreedBefore(kind: Kind, rep: Replication, stream: Stream, pol: Policy, n: nat)
    requires pol == PolicyOf(rep) && forall m | 1 <= m < n :: !StablePrefix(kind, pol, stream, m)
    ensures forall m | 0 < m < n :: !Agreed(kind, rep, Successes(stream, m))
  {
    forall m | 0 < m < n ensures !Agreed(kind, rep, Successes(stream, m)) {
      AgreedIff(kind, rep, stream, m);
    }
  }

  /** The run under a replication policy, with the stability verdict as the gate. */
  method Run(entries: seq<MatrixEntry>, rep: Replication, oracle: Oracle)
    returns (cells: seq<CellAcc>, ghost pol: Policy, ghost rounds: seq<seq<seq<CellState>>>)
    ensures pol == PolicyOf(rep)
    ensures |cells| == |entries|
    ensures forall i | 0 <= i < |cells| ::
              cells[i].State() == Alone(entries[i].kind, pol, StreamOf(oracle, i), pol.maxReplicates)
    ensures forall i | 0 <= i < |cells| ::
              StopsAsConfigured(entries[i].kind, rep, (attempt: nat) => oracle(i, attempt), cells[i].State())
    ensures Witnessed(rounds, entries, pol, oracle)
    ensures States(cells) == Snapshot(entries, pol, oracle, |rounds|, 0)
    ensures forall r: nat | r < |rounds| :: !AllDone(Snapshot(entries, pol, oracle, r, 0))
    ensures |rounds| < pol.maxReplicates ==> AllDone(States(cells))
  {
    pol := PolicyOf(rep);
    cells, rounds := MeasureAll(entries, PolicyOf(rep), oracle);
    forall i | 0 <= i < |cells|
      ensures cells[i].State() == Alone(entries[i].kind, pol, StreamOf(oracle, i), pol.maxReplicates)
      ensures StopsAsConfigured(entries[i].kind, rep, (attempt: nat) => oracle(i, attempt), cells[i].State())
    {
      assert cells[i].State() == States(cells)[i];
      FinalStates(entries, pol, oracle, i);
      ConfiguredStop(entries[i].kind, rep, StreamOf(oracle, i), pol, cells[i].State());
      assert StreamOf(oracle, i) == ((attempt: nat) => oracle(i, attempt));
    }
  }

  /**
    Interleaving is invisible: two runs whose oracles agree on cell i, whatever
    they do to every other cell, leave cell i in the same state after every round.
  */
  lemma {:induction false} OtherCellsDoNotMatter(kind: Kind, pol: Policy, oracle: Oracle, oracle': Oracle, i: nat, i': nat, rounds: nat)
    requires forall a: nat :: oracle(i, a) == oracle'(i', a)
    ensures Alone(kind, pol, StreamOf(oracle, i), rounds) == Alone(kind, pol, StreamOf(oracle', i'), rounds)
  {
    if rounds > 0 {
      OtherCellsDoNotMatter(kind, pol, oracle, oracle', i, i', rounds - 1);
    }
  }
}
