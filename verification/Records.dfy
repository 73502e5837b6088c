/** The matrix entry, the replication policy and the record of one measured replicate. */
module Records {
  import opened Wrappers
  import opened Stats

  datatype Kind = Throughput | Latency | PubSub | FanOut | FanIn

  datatype Transport = TcpNetns | Ipc | Inproc

  datatype MatrixEntry = MatrixEntry(
    targetId: string, variant: Option<string>, transport: Transport, kind: Kind,
    peers: Option<nat>, payloadBytes: nat, messages: nat, warmupMessages: nat)

  datatype Replication = Replication(
    minReplicates: nat, maxReplicates: nat, warmupReplicates: nat,
    targetRelIqr: real, madK: real, maxOutlierFrac: real)

  datatype LatencySnapshot = LatencySnapshot(
    count: nat, minNs: nat, maxNs: nat, p50Ns: nat, p90Ns: nat, p99Ns: nat, p999Ns: nat)

  datatype ThroughputFigures = ThroughputFigures(msgsPerS: real, mbps: real)

  datatype SyscallCounters = SyscallCounters(
    epollCtl: nat, epollWait: nat, sendmsg: nat, recvmsg: nat, ioUringEnter: nat)

  datatype SchedCounters = SchedCounters(voluntary: nat, involuntary: nat)

  datatype CellRecord = CellRecord(
    runId: string, cellId: string, entry: MatrixEntry,
    latency: LatencySnapshot, throughput: ThroughputFigures,
    cpuSeconds: real, cpuSecondsSender: real, cpuSecondsReceiver: real,
    syscalls: SyscallCounters, sched: SchedCounters,
    peakMemoryBytes: nat, stability: Option<Stability>)

  /** The metric a cell's replicates converge on: p50 for latency, the receive rate otherwise. */
  function PrimaryMetric(kind: Kind, r: CellRecord): real {
    if kind.Latency? then r.latency.p50Ns as real else r.throughput.msgsPerS
  }

  /** The primary metrics of successful replicates, aligned with the records. */
  function Primaries(kind: Kind, records: seq<CellRecord>): (ps: seq<real>)
    ensures |ps| == |records|
  {
    seq(|records|, i requires 0 <= i < |records| => PrimaryMetric(kind, records[i]))
  }

  /** The percentiles are in order. */
  ghost predicate PercentilesOrdered(l: LatencySnapshot) {
    l.minNs <= l.p50Ns <= l.p90Ns <= l.p99Ns <= l.p999Ns <= l.maxNs
  }
}
