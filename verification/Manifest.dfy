/**
  The archive's manifest (`write_archive` in scripts/render_results.py): a list
  of dated entries, rebuilt through a dict on every render.
*/
module Manifest {
  import opened Wrappers
  import opened Sorting

  datatype Entry = Entry(date: string, file: string)

  function FileName(date: string): string { date + "-run.json" }

  /** Lexicographic order of strings. */
  predicate StrLe(a: string, b: string) {
    if |a| == 0 then true
    else if |b| == 0 then false
    else if a[0] != b[0] then a[0] < b[0]
    else StrLe(a[1..], b[1..])
  }

  lemma {:induction false} StrTotal(a: string, b: string)
    ensures StrLe(a, b) || StrLe(b, a)
  {
    if |a| > 0 && |b| > 0 {
      StrTotal(a[1..], b[1..]);
    }
  }

  lemma {:induction false} StrTransitive(a: string, b: string, c: string)
    requires StrLe(a, b) && StrLe(b, c)
    ensures StrLe(a, c)
  {
    if |a| > 0 && |b| > 0 && |c| > 0 && a[0] == b[0] == c[0] {
      StrTransitive(a[1..], b[1..], c[1..]);
    }
  }

  lemma {:induction false} StrAntisymmetric(a: string, b: string)
    requires StrLe(a, b) && StrLe(b, a)
    ensures a == b
  {
    if |a| > 0 && |b| > 0 {
      StrAntisymmetric(a[1..], b[1..]);
      assert a == [a[0]] + a[1..] && b == [b[0]] + b[1..];
    }
  }

  predicate ByDate(e: Entry, e': Entry) { StrLe(e.date, e'.date) }

  /** The dict's values in insertion order: an existing date keeps its place and takes the new entry. */
  function Put(es: seq<Entry>, e: Entry): seq<Entry> {
    if |es| == 0 then [e]
    else if es[0].date == e.date then [e] + es[1..]
    else [es[0]] + Put(es[1..], e)
  }

  /** The dict built from a list of entries: later entries replace earlier ones of the same date. */
  function DictOf(runs: seq<Entry>): seq<Entry> {
    if |runs| == 0 then [] else Put(DictOf(runs[..|runs| - 1]), runs[|runs| - 1])
  }

  /** The manifest after one more render. */
  function Upsert(runs: seq<Entry>, date: string): seq<Entry> {
    Sort(Put(DictOf(runs), Entry(date, FileName(date))), ByDate)
  }

  /** The last entry for a date. */
  function Lookup(runs: seq<Entry>, d: string): (o: Option<Entry>)
    ensures o.Some? ==> o.value.date == d && o.value in runs
  {
    if |runs| == 0 then None
    else if runs[|runs| - 1].date == d then Some(runs[|runs| - 1])
    else Lookup(runs[..|runs| - 1], d)
  }

  ghost predicate UniqueDates(es: seq<Entry>) {
    forall p, q | 0 <= p < q < |es| :: es[p].date != es[q].date
  }

  /** Strictly ascending dates: sorted, and each date once. */
  ghost predicate Ascending(es: seq<Entry>) {
    UniqueDates(es) && forall p, q | 0 <= p < q < |es| :: StrLe(es[p].date, es[q].date)
  }

  // ---------- the dict ----------

  lemma {:induction false} PutUnique(es: seq<Entry>, e: Entry)
    requires UniqueDates(es)
    ensures UniqueDates(Put(es, e))
    ensures forall x :: x in Put(es, e) <==> x == e || (x in es && x.date != e.date)
  {
    if |es| > 0 {
      if es[0].date == e.date {
        forall x ensures x in Put(es, e) <==> x == e || (x in es && x.date != e.date) {
          if x in es {
            var p :| 0 <= p < |es| && es[p] == x;
            assert p > 0 ==> x in es[1..];
          }
        }
      } else {
        PutUnique(es[1..], e);
        var r := Put(es[1..], e);
        forall q | 0 <= q < |r| ensures r[q].date != es[0].date {
          assert r[q] in r;
        }
        forall x ensures x in Put(es, e) <==> x == e || (x in es && x.date != e.date) {
          assert x in es <==> x == es[0] || x in es[1..];
        }
      }
    }
  }

  lemma {:induction false} LookupUnique(es: seq<Entry>, x: Entry)
    requires UniqueDates(es)
    ensures Lookup(es, x.date) == Some(x) <==> x in es
    ensures Lookup(es, x.date) == None <==> forall y | y in es :: y.date != x.date
  {
    if |es| > 0 {
      var last, before := es[|es| - 1], es[..|es| - 1];
      LookupUnique(before, x);
      assert forall y :: y in es <==> y == last || y in before;
      assert last.date == x.date && x in before ==> false by {
        if x in before {
          var p :| 0 <= p < |before| && before[p] == x;
          assert es[p] == x;
        }
      }
    }
  }

  /** Two lists of unique dates with the same entries answer every lookup alike. */
  lemma LookupSame(es: seq<Entry>, es': seq<Entry>, d: string)
    requires UniqueDates(es) && UniqueDates(es') && forall x :: x in es <==> x in es'
    ensures Lookup(es, d) == Lookup(es', d)
  {
    LookupUnique(es, Entry(d, ""));
    LookupUnique(es', Entry(d, ""));
    if Lookup(es, d).Some? {
      LookupUnique(es', Lookup(es, d).value);
    }
  }

  lemma LookupPut(es: seq<Entry>, e: Entry, d: string)
    requires UniqueDates(es)
    ensures Lookup(Put(es, e), d) == if d == e.date then Some(e) else Lookup(es, d)
  {
    var r := Put(es, e);
    PutUnique(es, e);
    if d == e.date {
      LookupUnique(r, e);
    } else {
      LookupUnique(es, Entry(d, ""));
      LookupUnique(r, Entry(d, ""));
      if Lookup(es, d).Some? {
        LookupUnique(r, Lookup(es, d).value);
      }
    }
  }

  lemma {:induction false} DictFaithful(runs: seq<Entry>, d: string)
    ensures UniqueDates(DictOf(runs)) && Lookup(DictOf(runs), d) == Lookup(runs, d)
  {
    if |runs| > 0 {
      var before := runs[..|runs| - 1];
      DictFaithful(before, d);
      PutUnique(DictOf(before), runs[|runs| - 1]);
      LookupPut(DictOf(before), runs[|runs| - 1], d);
    }
  }

  // ---------- sorting by date ----------

  lemma {:induction false} InsertAscending(x: Entry, s: seq<Entry>)
    requires Ascending(s) && forall y | y in s :: y.date != x.date
    ensures Ascending(Insert(x, s, ByDate))
    ensures forall y :: y in Insert(x, s, ByDate) <==> y == x || y in s
  {
    if |s| == 0 {
    } else if ByDate(x, s[0]) {
      forall q | 0 <= q < |s| ensures s[q].date != x.date && StrLe(x.date, s[q].date) {
        assert s[q] in s;
        if q > 0 {
          StrTransitive(x.date, s[0].date, s[q].date);
        }
      }
    } else {
      var tail := s[1..];
      assert forall y | y in tail :: y in s;
      InsertAscending(x, tail);
      StrTotal(x.date, s[0].date);
      var r := Insert(x, tail, ByDate);
      forall q | 0 <= q < |r| ensures r[q].date != s[0].date && StrLe(s[0].date, r[q].date) {
        assert r[q] in r;
        if r[q] != x {
          var p :| 0 <= p < |tail| && tail[p] == r[q];
          assert s[p + 1] == r[q];
        } else {
          assert s[0] in s;
        }
      }
      assert Insert(x, s, ByDate) == [s[0]] + r;
      forall y ensures y in Insert(x, s, ByDate) <==> y == x || y in s {
        assert y in s <==> y == s[0] || y in tail;
      }
    }
  }

  lemma {:induction false} SortAscending(s: seq<Entry>)
    requires UniqueDates(s)
    ensures Ascending(Sort(s, ByDate)) && forall y :: y in Sort(s, ByDate) <==> y in s
  {
    if |s| > 0 {
      var tail := s[1..];
      SortAscending(tail);
      forall y | y in tail ensures y.date != s[0].date {
        var p :| 0 <= p < |tail| && tail[p] == y;
        assert s[p + 1] == y;
      }
      InsertAscending(s[0], Sort(tail, ByDate));
    }
  }

  /** One render: dates are unique and ascending, the rendered date has its new entry, every other date what it had. */
  lemma UpsertCorrect(runs: seq<Entry>, date: string, d: string)
    ensures Ascending(Upsert(runs, date))
    ensures Lookup(Upsert(runs, date), d) == if d == date then Some(Entry(date, FileName(date))) else Lookup(runs, d)
  {
    var dict, e := DictOf(runs), Entry(date, FileName(date));
    DictFaithful(runs, d);
    PutUnique(dict, e);
    LookupPut(dict, e, d);
    SortAscending(Put(dict, e));
    LookupSame(Sort(Put(dict, e), ByDate), Put(dict, e), d);
  }

  // ---------- the directory over many renders ----------

  /** The history directory: the manifest (`None` when there is none or it cannot be read) and the archive files. */
  datatype History<A> = History(manifest: Option<seq<Entry>>, files: map<string, A>)

  function Runs<A>(h: History<A>): seq<Entry> {
    match h.manifest case Some(runs) => runs case None => []
  }

  /** One render of an archive under a date. */
  function Write<A>(h: History<A>, date: string, archive: A): History<A> {
    History(Some(Upsert(Runs(h), date)), h.files[FileName(date) := archive])
  }

  function WriteAll<A>(h: History<A>, renders: seq<(string, A)>): History<A> {
    if |renders| == 0 then h
    else
      var r := renders[|renders| - 1];
      Write(WriteAll(h, renders[..|renders| - 1]), r.0, r.1)
  }

  /** The last archive rendered under a date. */
  function LastRender<A>(renders: seq<(string, A)>, d: string): Option<A> {
    if |renders| == 0 then None
    else if renders[|renders| - 1].0 == d then Some(renders[|renders| - 1].1)
    else LastRender(renders[..|renders| - 1], d)
  }

  /** Some render writes the archive file `f`. */
  ghost predicate Writes<A>(renders: seq<(string, A)>, f: string) {
    exists i :: 0 <= i < |renders| && FileName(renders[i].0) == f
  }

  /** Both directories hold the same under `f`. */
  ghost predicate SameFile<A>(h: History<A>, h': History<A>, f: string) {
    && (f in h.files <==> f in h'.files)
    && (f in h.files ==> h.files[f] == h'.files[f])
  }

  /** Renders touch no file but their own. */
  lemma {:induction false} OtherFilesUntouched<A>(h: History<A>, renders: seq<(string, A)>, f: string)
    requires !Writes(renders, f)
    ensures SameFile(h, WriteAll(h, renders), f)
  {
    if |renders| > 0 {
      var r, before := renders[|renders| - 1], renders[..|renders| - 1];
      assert FileName(r.0) != f;
      forall i | 0 <= i < |before| ensures FileName(before[i].0) != f {
        assert before[i] == renders[i];
      }
      OtherFilesUntouched(h, before, f);
    }
  }

  lemma FileNameInjective(d: string, d': string)
    ensures FileName(d) == FileName(d') ==> d == d'
  {
    if FileName(d) == FileName(d') {
      assert FileName(d)[..|d|] == d && FileName(d')[..|d'|] == d';
    }
  }

  /**
    After any sequence of renders, whatever the directory held before: the dates
    are unique and ascending; a rendered date is listed with its file, and that
    file holds the last archive rendered for it; every other date is listed as it
    was, and every file that no render names is what it was.
  */
  lemma {:induction false} HistoryFaithful<A>(h: History<A>, renders: seq<(string, A)>, d: string)
    ensures var h' := WriteAll(h, renders);
            && (|renders| > 0 ==> Ascending(Runs(h')))
            && match LastRender(renders, d)
               case Some(a) =>
                 && Lookup(Runs(h'), d) == Some(Entry(d, d + "-run.json"))
                 && d + "-run.json" in h'.files && h'.files[d + "-run.json"] == a
               case None => Lookup(Runs(h'), d) == Lookup(Runs(h), d)
    ensures forall f | !Writes(renders, f) :: SameFile(h, WriteAll(h, renders), f)
  {
    forall f | !Writes(renders, f) ensures SameFile(h, WriteAll(h, renders), f) {
      OtherFilesUntouched(h, renders, f);
    }
    if |renders| > 0 {
      var r, before := renders[|renders| - 1], renders[..|renders| - 1];
      HistoryFaithful(h, before, d);
      UpsertCorrect(Runs(WriteAll(h, before)), r.0, d);
      FileNameInjective(r.0, d);
    }
  }

  /** The directory as the script updates it. */
  class HistoryDir<A> {
    var manifest: Option<seq<Entry>>
    var files: map<string, A>

    constructor (manifest: Option<seq<Entry>>, files: map<string, A>)
      ensures State() == History(manifest, files)
    {
      this.manifest, this.files := manifest, files;
    }

    function State(): History<A>
      reads this
    {
      History(manifest, files)
    }

    /** Writes the archive file, then reads, updates, sorts and rewrites the manifest. */
    method WriteArchive(date: string, archive: A)
      modifies this
      ensures State() == Write(old(State()), date, archive)
      ensures Ascending(Runs(State()))
    {
      var fname := FileName(date);
      files := files[fname := archive];
      var runs := if manifest.Some? then manifest.value else [];
      var dict: seq<Entry> := [];
      for i := 0 to |runs|
        invariant dict == DictOf(runs[..i])
        invariant State() == History(old(manifest), old(files)[fname := archive])
      {
        assert runs[..i + 1][..i] == runs[..i];
        dict := Put(dict, runs[i]);
      }
      assert runs[..|runs|] == runs;
      dict := Put(dict, Entry(date, fname));
      var values := new Entry[|dict|](i requires 0 <= i < |dict| => dict[i]);
      assert values[..] == dict;
      SortInPlace(values, ByDate);
      UpsertCorrect(runs, date, date);
      manifest := Some(values[..]);
    }
  }
}
