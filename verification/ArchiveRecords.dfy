/**
  One cell of the archive (`to_archive_record` in scripts/render_results.py): what
  is copied, what is derived, and how the dashboard reads the derived syscall rates
  (`ioMeasured` in docs/rankings.html).
*/
module ArchiveRecords {
  import opened Wrappers
  import opened Numbers
  import opened BuildIds

  /** The block of a matrix entry; an absent number is `None`. */
  datatype RawEntry = RawEntry(
    kind: string, transport: string, payloadBytes: nat, peers: Option<nat>,
    messages: Option<nat>, warmupMessages: Option<nat>, durationSecs: Option<real>)

  /** A cell as the orchestrator wrote it; an absent or empty block is an empty map. */
  datatype RawCell = RawCell(
    targetId: string, variant: Option<string>, meta: Meta, entry: RawEntry,
    latency: map<string, nat>, throughput: map<string, real>,
    syscalls: map<string, nat>, sched: map<string, nat>, stability: map<string, Json>,
    cpuSeconds: Option<real>, cpuSecondsSender: Option<real>, cpuSecondsReceiver: Option<real>,
    peakMemoryBytes: Option<nat>)

  function Get(m: map<string, nat>, k: string): nat { if k in m then m[k] else 0 }

  function GetReal(m: map<string, real>, k: string): real { if k in m then m[k] else 0.0 }

  function GetJson(m: Object, k: string, d: Json): Json { if k in m then m[k] else d }

  function Count(n: nat): Json { Num(n as real) }

  function OrZero(n: Option<nat>): nat { if n.Some? then n.value else 0 }

  function RealOrZero(x: Option<real>): real { if x.Some? then x.value else 0.0 }

  // ---------- derived fields ----------

  const SYSCALL_NAMES: set<string> := {"epoll_wait", "epoll_ctl", "sendmsg", "recvmsg", "io_uring_enter"}

  /** The calls that hand bytes to the kernel. */
  const DATA_PATH: set<string> := {"sendmsg", "recvmsg", "io_uring_enter"}

  predicate Captured(sysc: map<string, nat>) { exists k | k in DATA_PATH :: Get(sysc, k) != 0 }

  /** Truncation toward zero. */
  function Truncate(x: real): int { if x < 0.0 then -((-x).Floor) else x.Floor }

  /** The messages that flowed: counted, or for a duration cell derived from its rate. */
  function Basis(c: RawCell): int {
    var counted := OrZero(c.entry.messages) + OrZero(c.entry.warmupMessages);
    if counted == 0 && c.entry.kind != "latency" && RealOrZero(c.entry.durationSecs) != 0.0
    then Truncate(GetReal(c.throughput, "msgs_per_s") * RealOrZero(c.entry.durationSecs))
    else counted
  }

  /** Rounding half to even. */
  function RoundHalfEven(x: real): int {
    var f := x.Floor;
    if x - f as real < 0.5 then f
    else if x - f as real > 0.5 then f + 1
    else if f % 2 == 0 then f else f + 1
  }

  /** Rounding to three digits. */
  function Round3(x: real): real { RoundHalfEven(x * 1000.0) as real / 1000.0 }

  /** Calls per thousand messages. */
  function PerK(count: nat, basis: int): real
    requires basis > 0
  {
    Round3(count as real / (basis as real / 1000.0))
  }

  function SyscallsPerK(sysc: map<string, nat>, basis: int): Json {
    if Captured(sysc) && basis > 0 then Obj(map k | k in SYSCALL_NAMES :: Num(PerK(Get(sysc, k), basis))) else Null
  }

  function LatencyBlock(c: RawCell): Json {
    if c.entry.kind == "latency" then
      Obj(map["min" := Count(Get(c.latency, "min_ns")), "p50" := Count(Get(c.latency, "p50_ns")),
              "p90" := Count(Get(c.latency, "p90_ns")), "p99" := Count(Get(c.latency, "p99_ns")),
              "p999" := Count(Get(c.latency, "p999_ns")), "max" := Count(Get(c.latency, "max_ns"))])
    else Null
  }

  function ThroughputBlock(c: RawCell): Json {
    if c.entry.kind == "latency" then Null
    else Obj(map["msgs_per_s" := Num(GetReal(c.throughput, "msgs_per_s")), "mbps" := Num(GetReal(c.throughput, "mbps"))])
  }

  /** The spreads of a replication block, zero where it has none. */
  function SpreadBlock(st: Object): Object {
    map["outliers_dropped" := GetJson(st, "outliers_dropped", Num(0.0)), "median" := GetJson(st, "median", Num(0.0)),
        "iqr" := GetJson(st, "iqr", Num(0.0)), "rel_iqr" := GetJson(st, "rel_iqr", Num(0.0)),
        "cv" := GetJson(st, "cv", Num(0.0)), "min" := GetJson(st, "min", Num(0.0)), "max" := GetJson(st, "max", Num(0.0))]
  }

  /** Its counts and verdicts; a record without a block counts as a single draw that is not stable. */
  function VerdictBlock(st: Object): Object {
    var draws := Num(if st == map[] then 1.0 else 0.0);
    map["n" := GetJson(st, "n", draws), "replicates" := GetJson(st, "replicates", draws),
        "stable" := Bool(GetJson(st, "stable", Bool(false)) == Bool(true)), "inverted" := Bool(false)]
  }

  function StabilityBlock(st: Object): Object { SpreadBlock(st) + VerdictBlock(st) }

  const SYSCALL_KEYS: set<string> := {"syscalls", "syscalls_captured", "syscalls_per_kmsg"}

  function SyscallFields(sysc: map<string, nat>, basis: int): (o: Object)
    ensures o.Keys == SYSCALL_KEYS
  {
    map[
      "syscalls" := Obj(map k | k in SYSCALL_NAMES :: Count(Get(sysc, k))),
      "syscalls_captured" := Bool(Captured(sysc)),
      "syscalls_per_kmsg" := SyscallsPerK(sysc, basis)
    ]
  }

  const ENTRY_KEYS: set<string> := {"kind", "transport", "payload_bytes", "peers", "latency_ns", "throughput"}

  function EntryFields(c: RawCell): (o: Object)
    ensures o.Keys == ENTRY_KEYS
  {
    map[
      "kind" := Str(c.entry.kind), "transport" := Str(c.entry.transport),
      "payload_bytes" := Count(c.entry.payloadBytes),
      "peers" := if c.entry.peers.Some? then Count(c.entry.peers.value) else Null,
      "latency_ns" := LatencyBlock(c), "throughput" := ThroughputBlock(c)
    ]
  }

  const COST_KEYS: set<string> := {
    "cpu_seconds", "cpu_seconds_sender", "cpu_seconds_receiver", "messages_basis", "sched",
    "peak_memory_bytes", "stability"}

  function CostFields(c: RawCell): (o: Object)
    ensures o.Keys == COST_KEYS
  {
    map[
      "cpu_seconds" := Num(RealOrZero(c.cpuSeconds)),
      "cpu_seconds_sender" := Num(RealOrZero(c.cpuSecondsSender)),
      "cpu_seconds_receiver" := Num(RealOrZero(c.cpuSecondsReceiver)),
      "messages_basis" := Num(Basis(c) as real),
      "sched" := Obj(map["voluntary" := Count(Get(c.sched, "voluntary_ctxt_switches")),
                         "involuntary" := Count(Get(c.sched, "involuntary_ctxt_switches"))]),
      "peak_memory_bytes" := Count(OrZero(c.peakMemoryBytes)),
      "stability" := Obj(StabilityBlock(c.stability))
    ]
  }

  /** Everything the archive keeps of a cell besides its build id. */
  function MeasuredOf(c: RawCell): (o: Object)
    ensures o.Keys == MEASURED_KEYS
  {
    EntryFields(c) + CostFields(c) + SyscallFields(c.syscalls, Basis(c))
  }

  const MEASURED_KEYS: set<string> := ENTRY_KEYS + COST_KEYS + SYSCALL_KEYS

  // ---------- the stored fields, one by one ----------

  /** `r` has every field of `o` with its value. */
  ghost predicate Holds(r: Object, o: Object) { forall f | f in o :: f in r && r[f] == o[f] }

  /** `r` stores what the archive keeps of the cell. */
  ghost predicate Stores(r: Object, c: RawCell) { Holds(r, MeasuredOf(c)) }

  lemma HoldsParts(r: Object, x: Object, y: Object, z: Object)
    requires x.Keys !! y.Keys && x.Keys !! z.Keys && y.Keys !! z.Keys && Holds(r, x + y + z)
    ensures Holds(r, x) && Holds(r, y) && Holds(r, z)
  {
    forall f | f in x ensures f in r && r[f] == x[f] {
      assert f in x + y + z;
    }
    forall f | f in y ensures f in r && r[f] == y[f] {
      assert f in x + y + z;
    }
    forall f | f in z ensures f in r && r[f] == z[f] {
      assert f in x + y + z;
    }
  }

  lemma BlocksDisjoint()
    ensures ENTRY_KEYS !! COST_KEYS && ENTRY_KEYS !! SYSCALL_KEYS && COST_KEYS !! SYSCALL_KEYS
  {
  }

  lemma StoredParts(r: Object, c: RawCell, x: Object, y: Object, z: Object)
    requires Stores(r, c) && x == EntryFields(c) && y == CostFields(c) && z == SyscallFields(c.syscalls, Basis(c))
    ensures Holds(r, x) && Holds(r, y) && Holds(r, z)
  {
    BlocksDisjoint();
    HoldsParts(r, x, y, z);
  }

  /** The counter `k` of a block, zero when it is missing. */
  ghost predicate Reads(o: Object, name: string, m: map<string, nat>, k: string) {
    name in o && o[name] == Num(if k in m then m[k] as real else 0.0)
  }

  ghost predicate ReadsReal(o: Object, name: string, x: Option<real>) {
    name in o && o[name] == Num(if x.Some? then x.value else 0.0)
  }

  ghost predicate HasEntry(r: Object, c: RawCell) {
    && ENTRY_KEYS <= r.Keys
    && r["kind"] == Str(c.entry.kind) && r["transport"] == Str(c.entry.transport)
    && r["payload_bytes"] == Num(c.entry.payloadBytes as real)
    && r["peers"] == (if c.entry.peers.Some? then Num(c.entry.peers.value as real) else Null)
  }

  /** A latency cell stores its six times and no rate; every other cell its rate and no times. */
  ghost predicate HasFigures(times: Json, rate: Json, c: RawCell) {
    if c.entry.kind == "latency" then
      && rate == Null && times.Obj?
      && Reads(times.fields, "min", c.latency, "min_ns") && Reads(times.fields, "p50", c.latency, "p50_ns")
      && Reads(times.fields, "p90", c.latency, "p90_ns") && Reads(times.fields, "p99", c.latency, "p99_ns")
      && Reads(times.fields, "p999", c.latency, "p999_ns") && Reads(times.fields, "max", c.latency, "max_ns")
    else
      && times == Null && rate.Obj?
      && ReadsRate(rate.fields, "msgs_per_s", c.throughput) && ReadsRate(rate.fields, "mbps", c.throughput)
  }

  ghost predicate ReadsRate(o: Object, name: string, m: map<string, real>) {
    name in o && o[name] == Num(if name in m then m[name] else 0.0)
  }

  lemma FiguresMean(c: RawCell)
    ensures HasFigures(LatencyBlock(c), ThroughputBlock(c), c)
  {
  }

  lemma EntryFieldsMean(c: RawCell, o: Object)
    requires o == EntryFields(c)
    ensures HasEntry(o, c) && o["latency_ns"] == LatencyBlock(c) && o["throughput"] == ThroughputBlock(c)
  {
  }

  lemma EntryHeld(r: Object, o: Object, c: RawCell)
    requires Holds(r, o) && o.Keys == ENTRY_KEYS && HasEntry(o, c)
    ensures HasEntry(r, c) && r["latency_ns"] == o["latency_ns"] && r["throughput"] == o["throughput"]
  {
    forall f | f in ENTRY_KEYS ensures f in r && r[f] == o[f] {
      assert f in o;
    }
  }

  /** What the archive stores of the matrix entry and of the measured figures. */
  lemma EntryStored(r: Object, c: RawCell)
    requires Stores(r, c)
    ensures HasEntry(r, c) && HasFigures(r["latency_ns"], r["throughput"], c)
  {
    StoredParts(r, c, EntryFields(c), CostFields(c), SyscallFields(c.syscalls, Basis(c)));
    EntryFieldsMean(c, EntryFields(c));
    EntryHeld(r, EntryFields(c), c);
    FiguresMean(c);
  }

  ghost predicate HasCosts(r: Object, c: RawCell) {
    && COST_KEYS <= r.Keys
    && ReadsReal(r, "cpu_seconds", c.cpuSeconds)
    && ReadsReal(r, "cpu_seconds_sender", c.cpuSecondsSender)
    && ReadsReal(r, "cpu_seconds_receiver", c.cpuSecondsReceiver)
    && r["messages_basis"] == Num(Basis(c) as real)
    && r["peak_memory_bytes"] == Num(if c.peakMemoryBytes.Some? then c.peakMemoryBytes.value as real else 0.0)
    && HasSched(r["sched"], c.sched)
    && r["stability"] == Obj(StabilityBlock(c.stability))
  }

  ghost predicate HasSched(j: Json, sched: map<string, nat>) {
    && j.Obj?
    && Reads(j.fields, "voluntary", sched, "voluntary_ctxt_switches")
    && Reads(j.fields, "involuntary", sched, "involuntary_ctxt_switches")
  }

  lemma CostFieldsMean(c: RawCell, o: Object)
    requires o == CostFields(c)
    ensures HasCosts(o, c)
  {
  }

  lemma CostsHeld(r: Object, o: Object, c: RawCell)
    requires Holds(r, o) && o.Keys == COST_KEYS && HasCosts(o, c)
    ensures HasCosts(r, c)
  {
    forall f | f in COST_KEYS ensures f in r && r[f] == o[f] {
      assert f in o;
    }
  }

  /** What it stores of what the cell cost, and of its replication. */
  lemma CostStored(r: Object, c: RawCell)
    requires Stores(r, c)
    ensures HasCosts(r, c)
  {
    StoredParts(r, c, EntryFields(c), CostFields(c), SyscallFields(c.syscalls, Basis(c)));
    CostFieldsMean(c, CostFields(c));
    CostsHeld(r, CostFields(c), c);
  }

  ghost predicate HasSyscalls(r: Object, sysc: map<string, nat>, basis: int) {
    && SYSCALL_KEYS <= r.Keys
    && HasCounters(r["syscalls"], sysc)
    && r["syscalls_captured"] == Bool(exists k :: k in {"sendmsg", "recvmsg", "io_uring_enter"} && k in sysc && sysc[k] != 0)
    && r["syscalls_per_kmsg"] == SyscallsPerK(sysc, basis)
  }

  ghost predicate HasCounters(j: Json, sysc: map<string, nat>) {
    j.Obj? && forall k | k in {"epoll_wait", "epoll_ctl", "sendmsg", "recvmsg", "io_uring_enter"} :: Reads(j.fields, k, sysc, k)
  }

  lemma SyscallFieldsMean(sysc: map<string, nat>, basis: int, o: Object)
    requires o == SyscallFields(sysc, basis)
    ensures HasSyscalls(o, sysc, basis)
  {
    assert forall k :: k in {"sendmsg", "recvmsg", "io_uring_enter"} <==> k in DATA_PATH;
  }

  lemma SyscallsHeld(r: Object, o: Object, sysc: map<string, nat>, basis: int)
    requires Holds(r, o) && o.Keys == SYSCALL_KEYS && HasSyscalls(o, sysc, basis)
    ensures HasSyscalls(r, sysc, basis)
  {
    forall f | f in SYSCALL_KEYS ensures f in r && r[f] == o[f] {
      assert f in o;
    }
  }

  /** What it stores of the kernel work: the counters, whether the data path was captured, and the rates. */
  lemma SyscallsStored(r: Object, c: RawCell)
    requires Stores(r, c)
    ensures HasSyscalls(r, c.syscalls, Basis(c))
  {
    StoredParts(r, c, EntryFields(c), CostFields(c), SyscallFields(c.syscalls, Basis(c)));
    SyscallFieldsMean(c.syscalls, Basis(c), SyscallFields(c.syscalls, Basis(c)));
    SyscallsHeld(r, SyscallFields(c.syscalls, Basis(c)), c.syscalls, Basis(c));
  }

  /** The replication block keeps what the cell has, with zero for what it lacks; a cell without one is one unstable draw. */
  lemma StabilityStored(st: Object)
    ensures var b := StabilityBlock(st);
            && (forall k | k in {"outliers_dropped", "median", "iqr", "rel_iqr", "cv", "min", "max"} ::
                  k in b && b[k] == if k in st then st[k] else Num(0.0))
            && (forall k | k in {"n", "replicates"} ::
                  k in b && b[k] == if k in st then st[k] else Num(if st == map[] then 1.0 else 0.0))
            && "stable" in b && b["stable"] == Bool("stable" in st && st["stable"] == Bool(true))
            && "inverted" in b && b["inverted"] == Bool(false)
  {
    SpreadStored(st, SpreadBlock(st));
    VerdictStored(st, VerdictBlock(st));
  }

  lemma SpreadStored(st: Object, b: Object)
    requires b == SpreadBlock(st)
    ensures b.Keys == {"outliers_dropped", "median", "iqr", "rel_iqr", "cv", "min", "max"}
    ensures forall k | k in b :: b[k] == if k in st then st[k] else Num(0.0)
  {
  }

  lemma VerdictStored(st: Object, b: Object)
    requires b == VerdictBlock(st)
    ensures b.Keys == {"n", "replicates", "stable", "inverted"}
    ensures forall k | k in {"n", "replicates"} :: b[k] == if k in st then st[k] else Num(if st == map[] then 1.0 else 0.0)
    ensures b["stable"] == Bool("stable" in st && st["stable"] == Bool(true)) && b["inverted"] == Bool(false)
  {
  }

  /** The messages counted, if any; else, for a timed cell that reports a rate, the rate times the duration, truncated. */
  lemma BasisMeans(c: RawCell, counted: nat)
    requires counted == (if c.entry.messages.Some? then c.entry.messages.value else 0)
                        + (if c.entry.warmupMessages.Some? then c.entry.warmupMessages.value else 0)
    ensures counted > 0 ==> Basis(c) == counted
    ensures counted == 0 && (c.entry.kind == "latency" || c.entry.durationSecs.None? || c.entry.durationSecs.value == 0.0)
            ==> Basis(c) == 0
    ensures counted == 0 && c.entry.kind != "latency" && c.entry.durationSecs.Some? && "msgs_per_s" in c.throughput
            && c.throughput["msgs_per_s"] >= 0.0 && c.entry.durationSecs.value > 0.0
            ==> Basis(c) as real <= c.throughput["msgs_per_s"] * c.entry.durationSecs.value < Basis(c) as real + 1.0
  {
  }

  /** A stored rate is within half a thousandth of the calls per thousand messages. */
  lemma PerKNearest(count: nat, basis: int, x: real)
    requires basis > 0 && x == count as real / (basis as real / 1000.0)
    ensures x - 0.0005 <= PerK(count, basis) <= x + 0.0005
  {
  }

  // ---------- the dashboard's reading ----------

  function Field(o: Object, k: string): Json { if k in o then o[k] else Null }

  function NumberAt(o: Object, k: string): real { if k in o && o[k].Num? then o[k].r else 0.0 }

  /** Whether the dashboard takes the record's kernel work as measured. */
  predicate IoMeasured(r: Object) { MeasuredBy(Field(r, "syscalls_per_kmsg"), Field(r, "syscalls_captured")) }

  predicate MeasuredBy(perK: Json, captured: Json) {
    && perK.Obj? && captured != Bool(false)
    && NumberAt(perK.fields, "io_uring_enter") + NumberAt(perK.fields, "sendmsg") + NumberAt(perK.fields, "recvmsg") > 0.0
  }

  lemma RoundsUpIff(x: real)
    requires x >= 0.0
    ensures Round3(x) >= 0.0
    ensures Round3(x) > 0.0 <==> x * 1000.0 > 0.5
  {
    var y := x * 1000.0;
    assert y >= 0.0;
  }

  lemma Quotient(c: real, b: real, y: real)
    requires b > 0.0 && y == c / (b / 1000.0) * 1000.0
    ensures y * b == c * 1000000.0
  {
    var d := b / 1000.0;
    var x := c / d;
    assert x * d == c;
    assert x * 1000.0 * (d * 1000.0) == (x * d) * 1000000.0;
  }

  lemma HalfBelow(y: real, b: real, z: real)
    requires b > 0.0 && y * b == z
    ensures y > 0.5 <==> 2.0 * z > b
  {
    if y > 0.5 {
      PositiveProduct(y - 0.5, b);
      assert (y - 0.5) * b == z - b / 2.0;
    } else {
      assert (0.5 - y) * b >= 0.0;
      assert (0.5 - y) * b == b / 2.0 - z;
    }
  }

  /** A rate survives the rounding exactly when there is more than one call to two million messages. */
  lemma PerKPositiveIff(count: nat, basis: int)
    requires basis > 0
    ensures PerK(count, basis) >= 0.0
    ensures PerK(count, basis) > 0.0 <==> 2000000 * count > basis
  {
    var b := basis as real;
    var x := count as real / (b / 1000.0);
    assert x >= 0.0;
    RoundsUpIff(x);
    Quotient(count as real, b, x * 1000.0);
    HalfBelow(x * 1000.0, b, count as real * 1000000.0);
  }

  /** Some data-path call was made more than once in two million of the messages. */
  predicate Visible(sysc: map<string, nat>, basis: int) {
    basis > 0 && exists k | k in DATA_PATH :: 2000000 * Get(sysc, k) > basis
  }

  lemma RatesAt(sysc: map<string, nat>, basis: int, k: string)
    requires Captured(sysc) && basis > 0 && k in SYSCALL_NAMES
    ensures SyscallsPerK(sysc, basis).Obj?
    ensures var x := NumberAt(SyscallsPerK(sysc, basis).fields, k);
            x >= 0.0 && (x > 0.0 <==> 2000000 * Get(sysc, k) > basis)
  {
    PerKPositiveIff(Get(sysc, k), basis);
  }

  lemma MeasuredByIff(sysc: map<string, nat>, basis: int)
    ensures MeasuredBy(SyscallsPerK(sysc, basis), Bool(Captured(sysc))) <==> Visible(sysc, basis)
  {
    if Captured(sysc) && basis > 0 {
      RatesAt(sysc, basis, "io_uring_enter");
      RatesAt(sysc, basis, "sendmsg");
      RatesAt(sysc, basis, "recvmsg");
    }
  }

  lemma SyscallsRead(sysc: map<string, nat>, basis: int)
    ensures SyscallFields(sysc, basis)["syscalls_per_kmsg"] == SyscallsPerK(sysc, basis)
    ensures SyscallFields(sysc, basis)["syscalls_captured"] == Bool(Captured(sysc))
  {
  }

  /**
    The dashboard takes a cell's kernel work as measured exactly when messages
    flowed and some data-path call was made more than once in two million of them.
    A counter that moved less often was captured, and rounds to zero.
  */
  lemma IoMeasuredIff(c: RawCell, r: Object)
    requires Stores(r, c)
    ensures IoMeasured(r) <==> Visible(c.syscalls, Basis(c))
  {
    assert "syscalls_per_kmsg" in MEASURED_KEYS && "syscalls_captured" in MEASURED_KEYS;
    SyscallsRead(c.syscalls, Basis(c));
    MeasuredByIff(c.syscalls, Basis(c));
  }

  /** So a cell whose data path was captured is shown as not measured exactly when all its data-path calls are that rare. */
  lemma CapturedButHiddenIff(c: RawCell, r: Object)
    requires Stores(r, c)
    requires Captured(c.syscalls) && Basis(c) > 0
    ensures !IoMeasured(r) <==> forall k | k in DATA_PATH :: 2000000 * Get(c.syscalls, k) <= Basis(c)
  {
    IoMeasuredIff(c, r);
  }
}
