/** Cell identifiers (orchestrator/src/main.rs): the padded index at the end keeps them apart. */
module CellIds {
  import opened Wrappers
  import opened Records

  function Digit(d: nat): char
    requires d < 10
  {
    "0123456789"[d]
  }

  function DigitValue(c: char): nat { if '0' <= c <= '9' then (c - '0') as nat else 0 }

  /** Decimal notation without leading zeros. */
  function Decimal(n: nat): (s: string)
    ensures |s| > 0
  {
    if n < 10 then [Digit(n)] else Decimal(n / 10) + [Digit(n % 10)]
  }

  /** Decimal notation padded with zeros to at least three digits. */
  function Padded(n: nat): string {
    var s := Decimal(n);
    if |s| == 1 then "00" + s else if |s| == 2 then "0" + s else s
  }

  /** The value of a decimal numeral. */
  function Value(s: string): nat {
    if |s| == 0 then 0 else 10 * Value(s[..|s| - 1]) + DigitValue(s[|s| - 1])
  }

  function TransportName(t: Transport): string {
    match t
    case TcpNetns => "TcpNetns"
    case Ipc => "Ipc"
    case Inproc => "Inproc"
  }

  function KindName(k: Kind): string {
    match k
    case Throughput => "Throughput"
    case Latency => "Latency"
    case PubSub => "PubSub"
    case FanOut => "FanOut"
    case FanIn => "FanIn"
  }

  function LowerChar(c: char): char { if 'A' <= c <= 'Z' then c - 'A' + 'a' else c }

  function Lower(s: string): (r: string)
    ensures |r| == |s|
  {
    seq(|s|, i requires 0 <= i < |s| => LowerChar(s[i]))
  }

  /** The identifier up to the dash before the index. The variant is not part of it. */
  function Stem(e: MatrixEntry): string {
    e.targetId + "-" + TransportName(e.transport) + "-" + KindName(e.kind) + "-"
    + Decimal(e.payloadBytes) + "b-p" + Decimal(if e.peers.Some? then e.peers.value else 0)
  }

  function CellId(e: MatrixEntry, index: nat): string {
    Lower(Stem(e) + "-" + Padded(index))
  }

  /** The text after the last dash. */
  function AfterLastDash(s: string): string {
    if |s| == 0 || s[|s| - 1] == '-' then ""
    else AfterLastDash(s[..|s| - 1]) + [s[|s| - 1]]
  }

  function DecodeIndex(id: string): nat { Value(AfterLastDash(id)) }

  ghost predicate AllDigits(s: string) { forall c | c in s :: '0' <= c <= '9' }

  lemma {:induction false} DecimalDigits(n: nat)
    ensures AllDigits(Decimal(n)) && Value(Decimal(n)) == n
  {
    if n >= 10 {
      DecimalDigits(n / 10);
      var s := Decimal(n);
      assert s[..|s| - 1] == Decimal(n / 10);
    }
  }

  lemma {:induction false} LeadingZero(s: string)
    ensures Value("0" + s) == Value(s)
  {
    var z := "0" + s;
    if |s| == 0 {
      assert z[..0] == "";
    } else {
      LeadingZero(s[..|s| - 1]);
      assert z[..|z| - 1] == "0" + s[..|s| - 1];
    }
  }

  lemma PaddedValue(n: nat)
    ensures AllDigits(Padded(n)) && Value(Padded(n)) == n
  {
    DecimalDigits(n);
    var s := Decimal(n);
    LeadingZero(s);
    LeadingZero("0" + s);
    assert "00" + s == "0" + ("0" + s);
  }

  lemma {:induction false} AfterDash(stem: string, tail: string)
    requires '-' !in tail
    ensures AfterLastDash(stem + "-" + tail) == tail
  {
    var s := stem + "-" + tail;
    if |tail| > 0 {
      AfterDash(stem, tail[..|tail| - 1]);
      assert s[..|s| - 1] == stem + "-" + tail[..|tail| - 1];
    }
  }

  lemma LowerAppend(s: string, t: string)
    ensures Lower(s + t) == Lower(s) + Lower(t)
  {
  }

  lemma LowerDigits(s: string)
    requires AllDigits(s)
    ensures Lower(s) == s
  {
    forall i | 0 <= i < |s| ensures Lower(s)[i] == s[i] {
      assert s[i] in s;
    }
  }

  /** The number after the last dash of an identifier is the entry's position in the matrix. */
  lemma IndexDecodes(e: MatrixEntry, index: nat)
    ensures DecodeIndex(CellId(e, index)) == index
  {
    var tail := Padded(index);
    PaddedValue(index);
    LowerDigits(tail);
    LowerAppend(Stem(e) + "-", tail);
    LowerAppend(Stem(e), "-");
    assert Lower("-") == "-";
    AfterDash(Lower(Stem(e)), tail);
  }

  /** Distinct positions never share an identifier, so no record file is overwritten, even between variants of one target. */
  lemma CellIdsDistinct(e: MatrixEntry, e': MatrixEntry, i: nat, j: nat)
    ensures CellId(e, i) == CellId(e', j) ==> i == j
    ensures CellId(e, i) + ".json" == CellId(e', j) + ".json" ==> i == j
  {
    IndexDecodes(e, i);
    IndexDecodes(e', j);
    if CellId(e, i) + ".json" == CellId(e', j) + ".json" {
      var a, b := CellId(e, i), CellId(e', j);
      assert (a + ".json")[..|a|] == a && (b + ".json")[..|b|] == b;
    }
  }

  /** Entries that differ only in the variant share everything but the index, which alone tells them apart. */
  lemma VariantsToldApartByIndex(e: MatrixEntry, variant: Option<string>, i: nat, j: nat)
    ensures CellId(e.(variant := variant), i) == CellId(e, j) <==> i == j
  {
    CellIdsDistinct(e.(variant := variant), e, i, j);
    assert Stem(e.(variant := variant)) == Stem(e);
  }

  // ---------- the whole identifier ----------

  /** The words of the identifier, lower-cased. */
  function TransportWord(t: Transport): string {
    match t
    case TcpNetns => "tcpnetns"
    case Ipc => "ipc"
    case Inproc => "inproc"
  }

  function KindWord(k: Kind): string {
    match k
    case Throughput => "throughput"
    case Latency => "latency"
    case PubSub => "pubsub"
    case FanOut => "fanout"
    case FanIn => "fanin"
  }

  lemma WordsLower(t: Transport, k: Kind)
    ensures Lower(TransportName(t)) == TransportWord(t) && Lower(KindName(k)) == KindWord(k)
  {
    assert Lower("TcpNetns") == "tcpnetns" && Lower("Ipc") == "ipc" && Lower("Inproc") == "inproc";
    assert Lower("Throughput") == "throughput" && Lower("Latency") == "latency" && Lower("PubSub") == "pubsub";
    assert Lower("FanOut") == "fanout" && Lower("FanIn") == "fanin";
  }

  /** `s` is the decimal notation of `n`, of at least `width` digits. */
  ghost predicate Denotes(s: string, n: nat, width: nat) { AllDigits(s) && Value(s) == n && |s| >= width }

  /**
    The identifier names the target, transport, kind, payload, number of peers (zero
    when there are none) and position, in this order and in these forms.
  */
  lemma IdReads(e: MatrixEntry, index: nat) returns (payload: string, peers: string, position: string)
    ensures CellId(e, index) ==
            Lower(e.targetId) + "-" + TransportWord(e.transport) + "-" + KindWord(e.kind)
            + "-" + payload + "b-p" + peers + "-" + position
    ensures Denotes(payload, e.payloadBytes, 1)
    ensures Denotes(peers, if e.peers.Some? then e.peers.value else 0, 1)
    ensures Denotes(position, index, 3)
  {
    payload, peers, position := Decimal(e.payloadBytes), Decimal(if e.peers.Some? then e.peers.value else 0), Padded(index);
    DecimalDigits(e.payloadBytes);
    DecimalDigits(if e.peers.Some? then e.peers.value else 0);
    PaddedValue(index);
    WordsLower(e.transport, e.kind);
    LowerDigits(payload);
    LowerDigits(peers);
    LowerDigits(position);
    LowerPieces(e.targetId, TransportName(e.transport), KindName(e.kind), payload, peers, position);
  }

  lemma LowerPieces(target: string, transport: string, kind: string, payload: string, peers: string, position: string)
    ensures Lower(target + "-" + transport + "-" + kind + "-" + payload + "b-p" + peers + "-" + position) ==
            Lower(target) + "-" + Lower(transport) + "-" + Lower(kind) + "-" + Lower(payload) + "b-p" + Lower(peers)
            + "-" + Lower(position)
  {
    assert Lower("-") == "-" && Lower("b-p") == "b-p";
    LowerAppend(target, "-");
    LowerAppend(target + "-", transport);
    LowerAppend(target + "-" + transport, "-");
    LowerAppend(target + "-" + transport + "-", kind);
    LowerAppend(target + "-" + transport + "-" + kind, "-");
    LowerAppend(target + "-" + transport + "-" + kind + "-", payload);
    LowerAppend(target + "-" + transport + "-" + kind + "-" + payload, "b-p");
    LowerAppend(target + "-" + transport + "-" + kind + "-" + payload + "b-p", peers);
    LowerAppend(target + "-" + transport + "-" + kind + "-" + payload + "b-p" + peers, "-");
    LowerAppend(target + "-" + transport + "-" + kind + "-" + payload + "b-p" + peers + "-", position);
  }
}
