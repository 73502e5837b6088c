/**
  The schema-2 archive: records refer to their build by id (`main` and
  `to_archive_record` in scripts/render_results.py), and the dashboard flattens
  them again on load (`denormalize` in docs/rankings.html).
*/
module Archive {
  import opened Wrappers
  import opened BuildIds
  import opened ArchiveRecords

  const CLASS_KEYS: set<string> := {
    "variant", "engine", "io", "threading", "language", "lib_version", "binding_version",
    "lib_language", "impl", "ffi_to", "concurrency"}

  type Registry = map<string, Registered>

  /** A cell reduced to what the archive stores: the id and classification of its build, and its measurements. */
  datatype Tagged = Tagged(id: string, classification: Object, measured: Object)

  function TagOf(reg: Registry, targetId: string, variant: Option<string>, meta: Meta, measured: Object): Tagged {
    var (id, classification) := BuildOf(reg, targetId, variant, meta);
    Tagged(id, classification, measured)
  }

  function Tag(reg: Registry, c: RawCell): Tagged {
    TagOf(reg, c.targetId, c.variant, c.meta, MeasuredOf(c))
  }

  /** The archive record: the build id and the measurements. */
  function RecordOf(t: Tagged): Object { map["build" := Str(t.id)] + t.measured }

  /** The `builds` map: the classification of the last cell with each id. */
  function Builds(ts: seq<Tagged>): map<string, Object> {
    if |ts| == 0 then map[]
    else Builds(ts[..|ts| - 1])[ts[|ts| - 1].id := ts[|ts| - 1].classification]
  }

  datatype ArchiveFile = ArchiveFile(builds: Option<map<string, Object>>, records: seq<Object>)

  function Rendered(ts: seq<Tagged>): ArchiveFile {
    ArchiveFile(Some(Builds(ts)), seq(|ts|, i requires 0 <= i < |ts| => RecordOf(ts[i])))
  }

  function Tags(reg: Registry, cells: seq<RawCell>): (ts: seq<Tagged>)
    ensures |ts| == |cells|
  {
    seq(|cells|, i requires 0 <= i < |cells| => Tag(reg, cells[i]))
  }

  /** The rendered archive, built as the source does: one list and one dict. */
  method Render(reg: Registry, cells: seq<RawCell>) returns (a: ArchiveFile)
    ensures a == Rendered(Tags(reg, cells))
  {
    a := RenderTagged(Tags(reg, cells));
  }

  method RenderTagged(ts: seq<Tagged>) returns (a: ArchiveFile)
    ensures a == Rendered(ts)
  {
    var records: seq<Object> := [];
    var builds: map<string, Object> := map[];
    for i := 0 to |ts|
      invariant |records| == i && forall j | 0 <= j < i :: records[j] == RecordOf(ts[j])
      invariant builds == Builds(ts[..i])
    {
      records := records + [RecordOf(ts[i])];
      builds := builds[ts[i].id := ts[i].classification];
      assert ts[..i + 1][..i] == ts[..i];
    }
    assert ts[..|ts|] == ts;
    a := ArchiveFile(Some(builds), records);
  }

  /** The flattened record: the build's fields under the record's own. */
  function Flatten(builds: map<string, Object>, r: Object): Object {
    if "build" in r && r["build"].Str? && r["build"].s in builds then builds[r["build"].s] + r else r
  }

  /** Archives without a builds map pass through. */
  function Denormalize(a: ArchiveFile): (rs: seq<Object>)
    ensures |rs| == |a.records|
  {
    match a.builds
    case None => a.records
    case Some(builds) => seq(|a.records|, i requires 0 <= i < |a.records| => Flatten(builds, a.records[i]))
  }

  // ---------- the shape of the stored objects ----------

  /** Classifications have the keys `ck`, measurements the keys `mk`, and neither clashes with the other or with the reference. */
  ghost predicate Shaped(ts: seq<Tagged>, ck: set<string>, mk: set<string>) {
    && ck !! mk && "build" !in ck && "build" !in mk
    && forall t | t in ts :: t.classification.Keys == ck && t.measured.Keys == mk
  }

  lemma TagOfShaped(reg: Registry, targetId: string, variant: Option<string>, meta: Meta, measured: Object)
    ensures TagOf(reg, targetId, variant, meta, measured).classification.Keys == CLASS_KEYS
    ensures TagOf(reg, targetId, variant, meta, measured).measured == measured
  {
  }

  lemma TagShaped(reg: Registry, c: RawCell)
    ensures Tag(reg, c).classification.Keys == CLASS_KEYS && Tag(reg, c).measured.Keys == MEASURED_KEYS
  {
    TagOfShaped(reg, c.targetId, c.variant, c.meta, MeasuredOf(c));
  }

  /** What the renderer stores is shaped. */
  lemma CellsShaped(reg: Registry, cells: seq<RawCell>, ts: seq<Tagged>)
    requires ts == Tags(reg, cells)
    ensures Shaped(ts, CLASS_KEYS, MEASURED_KEYS)
  {
    forall t | t in ts ensures t.classification.Keys == CLASS_KEYS && t.measured.Keys == MEASURED_KEYS {
      var i :| 0 <= i < |ts| && ts[i] == t;
      TagShaped(reg, cells[i]);
    }
  }

  // ---------- round trip ----------

  /** The builds map holds, under each id, the classification of some cell with that id, and holds every cell's id. */
  lemma {:induction false} BuildsHoldClasses(ts: seq<Tagged>, id: string)
    ensures id in Builds(ts) <==> exists t :: t in ts && t.id == id
    ensures id in Builds(ts) ==> exists t :: t in ts && t.id == id && Builds(ts)[id] == t.classification
  {
    if |ts| > 0 {
      var last, before := ts[|ts| - 1], ts[..|ts| - 1];
      BuildsHoldClasses(before, id);
      assert forall t :: t in ts <==> t == last || t in before;
    }
  }

  /** Of the cells with one id, the last gives the classification. */
  lemma {:induction false} BuildsHoldLast(ts: seq<Tagged>, i: nat)
    requires i < |ts| && forall j | i < j < |ts| :: ts[j].id != ts[i].id
    ensures ts[i].id in Builds(ts) && Builds(ts)[ts[i].id] == ts[i].classification
  {
    if i < |ts| - 1 {
      BuildsHoldLast(ts[..|ts| - 1], i);
    }
  }

  /** A loaded record shows its own fields first, then its build's; a record without a known build is left alone. */
  lemma FlattenMeans(builds: map<string, Object>, r: Object, id: string)
    ensures "build" in r && r["build"] == Str(id) && id in builds ==>
              && (forall f | f in r :: f in Flatten(builds, r) && Flatten(builds, r)[f] == r[f])
              && (forall f | f in builds[id] && f !in r :: f in Flatten(builds, r) && Flatten(builds, r)[f] == builds[id][f])
              && (forall f | f in Flatten(builds, r) :: f in r || f in builds[id])
    ensures "build" !in r ==> Flatten(builds, r) == r
  {
  }

  /** Archives written before builds were kept apart load unchanged. */
  lemma OldArchivesPassThrough(records: seq<Object>)
    ensures Denormalize(ArchiveFile(None, records)) == records
  {
  }

  lemma RecordResolves(builds: map<string, Object>, t: Tagged, ck: set<string>, mk: set<string>, r: Object)
    requires t.id in builds && builds[t.id].Keys == ck && t.measured.Keys == mk
    requires ck !! mk && "build" !in ck && "build" !in mk && r == Flatten(builds, RecordOf(t))
    ensures r.Keys == ck + mk + {"build"} && r["build"] == Str(t.id)
    ensures forall f | f in ck :: r[f] == builds[t.id][f]
    ensures forall f | f in mk :: r[f] == t.measured[f]
  {
  }

  /** Every record's build id resolves; flattening adds the resolved classification and keeps every measurement. */
  lemma EveryRecordResolves(ts: seq<Tagged>, ck: set<string>, mk: set<string>, i: nat)
    requires i < |ts| && Shaped(ts, ck, mk)
    ensures ts[i].id in Builds(ts) && Builds(ts)[ts[i].id].Keys == ck
    ensures var r := Denormalize(Rendered(ts))[i];
            && r.Keys == ck + mk + {"build"} && r["build"] == Str(ts[i].id)
            && (forall f | f in ck :: r[f] == Builds(ts)[ts[i].id][f])
            && (forall f | f in mk :: r[f] == ts[i].measured[f])
  {
    var t := ts[i];
    assert t in ts;
    BuildsHoldClasses(ts, t.id);
    RecordResolves(Builds(ts), t, ck, mk, Denormalize(Rendered(ts))[i]);
  }

  /** Equal ids carry equal classifications. */
  ghost predicate Consistent(ts: seq<Tagged>) {
    forall t, t' | t in ts && t' in ts && t.id == t'.id :: t.classification == t'.classification
  }

  /** Cell `i` reads back with its own classification. */
  ghost predicate ReadsBack(ts: seq<Tagged>, i: nat)
    requires i < |ts|
  {
    var r := Denormalize(Rendered(ts))[i];
    forall f | f in ts[i].classification :: f in r && r[f] == ts[i].classification[f]
  }

  lemma ReadsBackIff(ts: seq<Tagged>, ck: set<string>, mk: set<string>, i: nat)
    requires i < |ts| && Shaped(ts, ck, mk)
    ensures ts[i].id in Builds(ts)
    ensures ReadsBack(ts, i) <==> Builds(ts)[ts[i].id] == ts[i].classification
  {
    EveryRecordResolves(ts, ck, mk, i);
    assert ts[i] in ts;
    AgreeIffEqual(Builds(ts)[ts[i].id], ts[i].classification, Denormalize(Rendered(ts))[i]);
  }

  /** A flattened record that extends `held` shows every field of `own` exactly when the two are equal. */
  lemma AgreeIffEqual(held: Object, own: Object, r: Object)
    requires held.Keys == own.Keys
    requires forall f | f in held :: f in r && r[f] == held[f]
    ensures (forall f | f in own :: f in r && r[f] == own[f]) <==> held == own
  {
    if forall f | f in own :: f in r && r[f] == own[f] {
      assert forall f | f in own :: held[f] == own[f];
    }
  }

  /** Rendering and loading returns every cell's own classification exactly when equal ids carry equal classifications. */
  lemma RoundTripIff(ts: seq<Tagged>, ck: set<string>, mk: set<string>)
    requires Shaped(ts, ck, mk)
    ensures Consistent(ts) <==> forall i: nat | i < |ts| :: ReadsBack(ts, i)
  {
    if Consistent(ts) {
      forall i: nat | i < |ts| ensures ReadsBack(ts, i) {
        ReadsBackIff(ts, ck, mk, i);
        BuildsHoldClasses(ts, ts[i].id);
      }
    }
    if forall i: nat | i < |ts| :: ReadsBack(ts, i) {
      forall t, t' | t in ts && t' in ts && t.id == t'.id ensures t.classification == t'.classification {
        var i: nat :| i < |ts| && ts[i] == t;
        var j: nat :| j < |ts| && ts[j] == t';
        ReadsBackIff(ts, ck, mk, i);
        ReadsBackIff(ts, ck, mk, j);
      }
    }
  }

  /** The same for the archive of a run, `ts` being its tagged cells: every id resolves, and the round trip is exact iff ids are consistent. */
  lemma ArchiveRoundTrip(reg: Registry, cells: seq<RawCell>, ts: seq<Tagged>)
    requires ts == Tags(reg, cells)
    ensures forall i | 0 <= i < |ts| :: ts[i].id in Builds(ts)
    ensures Consistent(ts) <==> forall i: nat | i < |ts| :: ReadsBack(ts, i)
  {
    CellsShaped(reg, cells, ts);
    RoundTripIff(ts, CLASS_KEYS, MEASURED_KEYS);
    forall i | 0 <= i < |ts| ensures ts[i].id in Builds(ts) {
      EveryRecordResolves(ts, CLASS_KEYS, MEASURED_KEYS, i);
    }
  }

  /** On the loaded archive every cell has what the archive keeps of it. */
  lemma LoadedStores(reg: Registry, cells: seq<RawCell>, ts: seq<Tagged>, i: nat)
    requires ts == Tags(reg, cells) && i < |cells|
    ensures Stores(Denormalize(Rendered(ts))[i], cells[i])
  {
    CellsShaped(reg, cells, ts);
    EveryRecordResolves(ts, CLASS_KEYS, MEASURED_KEYS, i);
  }

  /** Where ids are consistent it also has its own classification, as its target reported it. */
  lemma LoadedClassifies(reg: Registry, cells: seq<RawCell>, ts: seq<Tagged>, i: nat)
    requires ts == Tags(reg, cells) && i < |cells| && Consistent(ts)
    ensures var r, c := Denormalize(Rendered(ts))[i], cells[i];
            && ClassifiesShape(r, reg, VariantKey(c.targetId, c.variant), c.meta) && ClassifiesStack(r, c.meta)
  {
    ArchiveRoundTrip(reg, cells, ts);
    assert ReadsBack(ts, i);
    ShapeMeans(reg, cells[i].targetId, cells[i].variant, cells[i].meta);
    StackMeans(reg, cells[i].targetId, cells[i].variant, cells[i].meta);
    ClassificationCarries(ts[i].classification, Denormalize(Rendered(ts))[i], reg,
                          VariantKey(cells[i].targetId, cells[i].variant), cells[i].meta);
  }

  lemma ClassificationCarries(c: Object, r: Object, reg: Registry, vkey: string, tm: Meta)
    requires ClassifiesShape(c, reg, vkey, tm) && ClassifiesStack(c, tm)
    requires forall f | f in c :: f in r && r[f] == c[f]
    ensures ClassifiesShape(r, reg, vkey, tm) && ClassifiesStack(r, tm)
  {
  }

  /** On the loaded archive the dashboard takes a cell's kernel work as measured exactly under this condition on the cell itself. */
  lemma LoadedIoMeasuredIff(reg: Registry, cells: seq<RawCell>, ts: seq<Tagged>, i: nat)
    requires ts == Tags(reg, cells) && i < |cells|
    ensures IoMeasured(Denormalize(Rendered(ts))[i]) <==> Visible(cells[i].syscalls, Basis(cells[i]))
  {
    LoadedStores(reg, cells, ts, i);
    IoMeasuredIff(cells[i], Denormalize(Rendered(ts))[i]);
  }
}
