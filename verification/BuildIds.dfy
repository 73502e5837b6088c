/**
  Identities of measured builds (`variant_key`, `build_id`, `build_of` in
  scripts/render_results.py).
*/
module BuildIds {
  import opened Wrappers

  /** A JSON value without arrays. */
  datatype Json = Null | Bool(b: bool) | Str(s: string) | Num(r: real) | Obj(fields: map<string, Json>)

  type Object = map<string, Json>

  /** What a target reported about itself; an absent key is `None`. */
  datatype Meta = Meta(
    engine: Option<string>, io: Option<string>, threading: Option<string>, language: Option<string>,
    libVersion: Option<string>, bindingVersion: Option<string>, libLanguage: Option<string>,
    impl: Option<string>, ffiTo: Option<string>, concurrency: Option<string>)

  datatype Registered = Registered(engine: string, io: string, threading: string)

  /** Python truthiness of an optional string. */
  predicate Truthy(s: Option<string>) { s.Some? && s.value != "" }

  function Or(s: Option<string>, d: string): string { if Truthy(s) then s.value else d }

  function GetOr(s: Option<string>, d: string): string { if s.Some? then s.value else d }

  function OrNull(s: Option<string>): Json { if s.Some? then Str(s.value) else Null }

  function VariantKey(targetId: string, variant: Option<string>): string {
    if !Truthy(variant) || variant.value == "default" then targetId
    else if targetId == "omq_tokio" && variant.value == "multi_thread" then "omq_tokio_mt"
    else if targetId == "omq_tokio" && variant.value == "blocking" then "omq_blocking"
    else if targetId == "monocoque" && variant.value == "tokio" then "monocoque_tokio"
    else targetId + "_" + variant.value
  }

  function BuildId(vkey: string, engine: string, lib: string, binding: Option<string>): string {
    var own := if Truthy(binding) then binding.value else if lib != "" then lib else "unknown";
    var ident := vkey + "@" + own;
    if Truthy(binding) && lib != "" then ident + ("+" + engine + "-") + lib else ident
  }

  /** The (id, classification) pair for the build of a target. */
  function BuildOf(registry: map<string, Registered>, targetId: string, variant: Option<string>, tm: Meta): (string, Object) {
    var vkey := VariantKey(targetId, variant);
    var m := if vkey in registry then registry[vkey] else Registered(vkey, "unknown", "unknown");
    var engine := Or(tm.engine, m.engine);
    var language := Or(tm.language, if vkey == "libzmq" then "C++" else "Rust");
    var lib := GetOr(tm.libVersion, "");
    (BuildId(vkey, engine, lib, tm.bindingVersion),
     map[
       "variant" := Str(vkey), "engine" := Str(engine),
       "io" := Str(Or(tm.io, m.io)), "threading" := Str(Or(tm.threading, m.threading)),
       "language" := Str(language), "lib_version" := Str(lib),
       "binding_version" := OrNull(tm.bindingVersion),
       "lib_language" := Str(GetOr(tm.libLanguage, language)), "impl" := Str(GetOr(tm.impl, "")),
       "ffi_to" := OrNull(tm.ffiTo), "concurrency" := Str(GetOr(tm.concurrency, ""))
     ])
  }

  // ---------- the documented identities and the classification ----------

  /** A native engine is identified by its own version, a binding by its version and the engine's. */
  lemma DocumentedIds()
    ensures BuildId("monocoque", "monocoque", "0.4.0", None) == "monocoque@0.4.0"
    ensures BuildId("tmq", "libzmq", "4.3.4", Some("0.5.0")) == "tmq@0.5.0+libzmq-4.3.4"
    ensures BuildId("tmq", "libzmq", "", Some("0.5.0")) == "tmq@0.5.0"
    ensures BuildId("tmq", "libzmq", "", None) == "tmq@unknown"
  {
    assert "tmq" + "@" + "0.5.0" + ("+" + "libzmq" + "-") + "4.3.4" == "tmq@0.5.0+libzmq-4.3.4";
  }

  /** The reported value, when there is one that is not empty, and `d` otherwise. */
  ghost predicate Reported(j: Json, reported: Option<string>, d: string) {
    if reported.Some? && reported.value != "" then j == Str(reported.value) else j == Str(d)
  }

  /** The reported value, even an empty one, and `d` when nothing was reported. */
  ghost predicate Given(j: Json, reported: Option<string>, d: Json) {
    if reported.Some? then j == Str(reported.value) else j == d
  }

  /** What the target reported of its shape, then the registry, then the defaults. */
  ghost predicate ClassifiesShape(c: Object, registry: map<string, Registered>, vkey: string, tm: Meta) {
    && {"variant", "engine", "io", "threading", "language"} <= c.Keys
    && c["variant"] == Str(vkey)
    && Reported(c["engine"], tm.engine, if vkey in registry then registry[vkey].engine else vkey)
    && Reported(c["io"], tm.io, if vkey in registry then registry[vkey].io else "unknown")
    && Reported(c["threading"], tm.threading, if vkey in registry then registry[vkey].threading else "unknown")
    && Reported(c["language"], tm.language, if vkey == "libzmq" then "C++" else "Rust")
  }

  /** What the target reported of its stack, as it is. */
  ghost predicate ClassifiesStack(c: Object, tm: Meta) {
    && {"lib_version", "binding_version", "lib_language", "language", "impl", "ffi_to", "concurrency"} <= c.Keys
    && Given(c["lib_version"], tm.libVersion, Str(""))
    && Given(c["binding_version"], tm.bindingVersion, Null)
    && Given(c["lib_language"], tm.libLanguage, c["language"])
    && Given(c["impl"], tm.impl, Str(""))
    && Given(c["ffi_to"], tm.ffiTo, Null)
    && Given(c["concurrency"], tm.concurrency, Str(""))
  }

  lemma ShapeMeans(registry: map<string, Registered>, targetId: string, variant: Option<string>, tm: Meta)
    ensures ClassifiesShape(BuildOf(registry, targetId, variant, tm).1, registry, VariantKey(targetId, variant), tm)
  {
  }

  lemma StackMeans(registry: map<string, Registered>, targetId: string, variant: Option<string>, tm: Meta)
    ensures ClassifiesStack(BuildOf(registry, targetId, variant, tm).1, tm)
  {
  }

  /** A target's default variant keeps its name, three have names of their own, and the others append theirs. */
  lemma VariantKeyMeans(targetId: string, variant: Option<string>, vkey: string)
    requires vkey == VariantKey(targetId, variant)
    ensures variant.None? || variant.value == "" || variant.value == "default" ==> vkey == targetId
    ensures VariantKey("omq_tokio", Some("multi_thread")) == "omq_tokio_mt"
    ensures VariantKey("omq_tokio", Some("blocking")) == "omq_blocking"
    ensures VariantKey("monocoque", Some("tokio")) == "monocoque_tokio"
    ensures variant.Some? && variant.value != "" && variant.value != "default"
            && (targetId, variant.value) !in {("omq_tokio", "multi_thread"), ("omq_tokio", "blocking"), ("monocoque", "tokio")}
            ==> vkey == targetId + "_" + variant.value
  {
  }

  /** The engine of an identity is the classified one, its versions those of the classification. */
  lemma IdMatchesClassification(registry: map<string, Registered>, targetId: string, variant: Option<string>, tm: Meta)
    ensures var (id, c) := BuildOf(registry, targetId, variant, tm);
            && "engine" in c && c["engine"].Str? && "lib_version" in c && c["lib_version"].Str?
            && id == BuildId(VariantKey(targetId, variant), c["engine"].s, c["lib_version"].s, tm.bindingVersion)
  {
  }

  // ---------- when two builds share an identity ----------

  /** The identity of a binding with both versions known. */
  lemma BindingIdShape(vkey: string, engine: string, lib: string, binding: string)
    requires lib != "" && binding != ""
    ensures BuildId(vkey, engine, lib, Some(binding)) == vkey + "@" + (binding + ("+" + engine + "-") + lib)
  {
    var sep := "+" + engine + "-";
    assert (vkey + "@" + binding) + sep + lib == vkey + "@" + (binding + sep + lib);
  }

  lemma CommonPrefix(p: string, s: string, t: string)
    requires p + s == p + t
    ensures s == t
  {
    assert (p + s)[|p|..] == s && (p + t)[|p|..] == t;
  }

  /** The shorter of two bindings sharing an identity is followed, inside the longer one, by a plus sign. */
  lemma ShorterThenPlus(b: string, b': string, sep: string, l: string, l': string)
    requires |b| < |b'| && |sep| > 0 && b + sep + l == b' + sep + l'
    ensures b'[..|b|] == b && b'[|b|] == sep[0]
  {
    var s, s' := b + sep + l, b' + sep + l';
    assert s[..|b|] == b && s'[..|b|] == b'[..|b|];
    assert s[|b|] == sep[0] && s'[|b|] == b'[|b|];
  }

  lemma EqualBindings(b: string, b': string, sep: string, l: string, l': string)
    requires |b| == |b'| && b + sep + l == b' + sep + l'
    ensures b == b' && l == l'
  {
    var s, s' := b + sep + l, b' + sep + l';
    assert s[..|b|] == b && s'[..|b|] == b';
    assert s[|b + sep|..] == l && s'[|b' + sep|..] == l';
  }

  /** For one variant and engine, bindings whose version has no plus sign are identified by both versions. */
  lemma BindingIdInjective(vkey: string, engine: string, b: string, l: string, b': string, l': string)
    requires b != "" && l != "" && b' != "" && l' != "" && '+' !in b && '+' !in b'
    requires BuildId(vkey, engine, l, Some(b)) == BuildId(vkey, engine, l', Some(b'))
    ensures b == b' && l == l'
  {
    var sep := "+" + engine + "-";
    BindingIdShape(vkey, engine, l, b);
    BindingIdShape(vkey, engine, l', b');
    CommonPrefix(vkey + "@", b + sep + l, b' + sep + l');
    if |b| < |b'| {
      ShorterThenPlus(b, b', sep, l, l');
    } else if |b'| < |b| {
      ShorterThenPlus(b', b, sep, l', l);
    } else {
      EqualBindings(b, b', sep, l, l');
    }
  }

  // ---------- when versions differ and the identity does not ----------

  /** What is known of a stack's versions; the empty string counts as unknown. */
  datatype Stack = Unversioned | Lib(lib: string) | Binding(binding: string) | Both(binding: string, lib: string)

  function StackOf(lib: string, binding: Option<string>): Stack {
    if Truthy(binding) then (if lib != "" then Both(binding.value, lib) else Binding(binding.value))
    else if lib != "" then Lib(lib)
    else Unversioned
  }

  /** What the identity shows of a stack with at most one known version. */
  function Shown(s: Stack): string
    requires !s.Both?
  {
    match s
    case Unversioned => "unknown"
    case Lib(l) => l
    case Binding(b) => b
  }

  function Separator(engine: string): string { "+" + engine + "-" }

  /** `s` and `s'`, though different, are given one identity. */
  predicate Confused(engine: string, s: Stack, s': Stack) {
    match s
    case Unversioned => (s'.Lib? || s'.Binding?) && Shown(s') == "unknown"
    case Lib(l) => s' == Binding(l)
    case Binding(_) => false
    case Both(b, l) =>
      var sep := Separator(engine);
      match s'
      case Unversioned => false
      case Lib(l') => l' == b + sep + l
      case Binding(b') => b' == b + sep + l
      case Both(b', l') => |b| < |b'| && b + sep <= b' + sep && l == (b' + sep)[|b + sep|..] + l'
  }

  /** The identity of a stack with at most one known version. */
  lemma PartialIdShape(vkey: string, engine: string, lib: string, binding: Option<string>)
    requires !StackOf(lib, binding).Both?
    ensures BuildId(vkey, engine, lib, binding) == vkey + "@" + Shown(StackOf(lib, binding))
  {
  }

  lemma PrefixesOfOne(p: string, p': string, l: string, l': string)
    requires |p| <= |p'|
    ensures p + l == p' + l' <==> p <= p' && l == p'[|p|..] + l'
  {
    if p + l == p' + l' {
      var s, s' := p + l, p' + l';
      assert s[..|p|] == p && s'[..|p|] == p'[..|p|];
      assert s[|p|..] == l && s'[|p|..] == p'[|p|..] + l';
    }
    if p <= p' && l == p'[|p|..] + l' {
      assert p' == p + p'[|p|..];
    }
  }

  /** Two bindings with both versions known share an identity when they are equal, or one version continues the other. */
  lemma BothConfusedIff(engine: string, b: string, l: string, b': string, l': string)
    requires |b| <= |b'|
    ensures var sep := Separator(engine);
            b + sep + l == b' + sep + l' <==> (b == b' && l == l') || Confused(engine, Both(b, l), Both(b', l'))
  {
    var sep := Separator(engine);
    PrefixesOfOne(b + sep, b' + sep, l, l');
    if |b| == |b'| && b + sep <= b' + sep {
      assert b == (b + sep)[..|b|] == (b' + sep)[..|b'|] == b';
    }
  }

  lemma UnknownHasNoSeparator(engine: string, b: string, l: string)
    ensures b + Separator(engine) + l != "unknown"
  {
    var s := b + Separator(engine) + l;
    assert s[|b|] == '+' && '+' in s;
    assert '+' !in "unknown";
  }

  /** The part of the identity after the variant, in every case. */
  function Suffix(engine: string, s: Stack): string {
    match s
    case Both(b, l) => b + Separator(engine) + l
    case _ => Shown(s)
  }

  lemma IdShape(vkey: string, engine: string, lib: string, binding: Option<string>)
    ensures BuildId(vkey, engine, lib, binding) == vkey + "@" + Suffix(engine, StackOf(lib, binding))
  {
    if StackOf(lib, binding).Both? {
      BindingIdShape(vkey, engine, lib, binding.value);
    } else {
      PartialIdShape(vkey, engine, lib, binding);
    }
  }

  lemma SuffixSharedIff(engine: string, s: Stack, s': Stack)
    ensures Suffix(engine, s) == Suffix(engine, s') <==>
            s == s' || Confused(engine, s, s') || Confused(engine, s', s)
  {
    match s {
      case Both(b, l) =>
        UnknownHasNoSeparator(engine, b, l);
        if s'.Both? {
          if |b| <= |s'.binding| {
            BothConfusedIff(engine, b, l, s'.binding, s'.lib);
          } else {
            BothConfusedIff(engine, s'.binding, s'.lib, b, l);
          }
        }
      case _ =>
        if s'.Both? {
          UnknownHasNoSeparator(engine, s'.binding, s'.lib);
        }
    }
  }

  /**
    For one variant and engine, and for any versions, known or not: the identity
    is shared exactly when the known versions are the same or one of the listed
    confusions applies.
  */
  lemma IdSharedIff(vkey: string, engine: string, lib: string, binding: Option<string>, lib': string, binding': Option<string>)
    ensures var s, s' := StackOf(lib, binding), StackOf(lib', binding');
            BuildId(vkey, engine, lib, binding) == BuildId(vkey, engine, lib', binding') <==>
            s == s' || Confused(engine, s, s') || Confused(engine, s', s)
  {
    var s, s' := StackOf(lib, binding), StackOf(lib', binding');
    IdShape(vkey, engine, lib, binding);
    IdShape(vkey, engine, lib', binding');
    if BuildId(vkey, engine, lib, binding) == BuildId(vkey, engine, lib', binding') {
      CommonPrefix(vkey + "@", Suffix(engine, s), Suffix(engine, s'));
    }
    SuffixSharedIff(engine, s, s');
  }

  /** Whether some engine versions make two binding versions share an identity. */
  ghost predicate Collide(vkey: string, engine: string, b: string, b': string) {
    exists l, l' :: l != "" && l' != "" && BuildId(vkey, engine, l, Some(b)) == BuildId(vkey, engine, l', Some(b'))
  }

  lemma SeparatorCollides(vkey: string, engine: string, b: string, b': string)
    requires b != "" && b' != "" && b != b' && b + Separator(engine) <= b' + Separator(engine)
    ensures Collide(vkey, engine, b, b') && Collide(vkey, engine, b', b)
  {
    var sep := Separator(engine);
    var l, l' := (b' + sep)[|b + sep|..] + "x", "x";
    assert b == (b + sep)[..|b|] == (b' + sep)[..|b|] == b'[..|b|];
    assert b'[..|b'|] == b';
    assert Confused(engine, Both(b, l), Both(b', l'));
    IdSharedIff(vkey, engine, l, Some(b), l', Some(b'));
  }

  /** Two distinct binding versions can share an identity exactly when one, followed by "+engine-", begins the other so followed. */
  lemma BindingsCollideIff(vkey: string, engine: string, b: string, b': string)
    requires b != "" && b' != "" && b != b'
    ensures var sep := Separator(engine);
            Collide(vkey, engine, b, b') <==> b + sep <= b' + sep || b' + sep <= b + sep
  {
    var sep := Separator(engine);
    if b + sep <= b' + sep {
      SeparatorCollides(vkey, engine, b, b');
    } else if b' + sep <= b + sep {
      SeparatorCollides(vkey, engine, b', b);
    } else if Collide(vkey, engine, b, b') {
      var l, l' :| l != "" && l' != "" && BuildId(vkey, engine, l, Some(b)) == BuildId(vkey, engine, l', Some(b'));
      IdSharedIff(vkey, engine, l, Some(b), l', Some(b'));
    }
  }

  /** For an engine name without a plus sign that means: one version continues the other with "+engine-". */
  lemma PlainEngineOverlap(engine: string, b: string, b': string)
    requires '+' !in engine
    ensures var sep := Separator(engine);
            b + sep <= b' + sep <==> b == b' || b + sep <= b'
  {
    var sep := Separator(engine);
    var s, s' := b + sep, b' + sep;
    assert sep[1..] == engine + "-";
    assert forall o | 0 < o < |sep| :: sep[o] == sep[1..][o - 1] != '+';
    assert forall i | |b| < i < |s| :: s[i] == sep[i - |b|];
    if s <= s' {
      assert s'[|b'|] == '+';
      assert b == s[..|b|] == s'[..|b|] == b'[..|b|];
      if |s| <= |b'| {
        assert s == s'[..|s|] == b'[..|s|];
      } else {
        assert |b'| == |b|;
      }
    }
    if s <= b' {
      assert s == b'[..|s|] == s'[..|s|];
    }
  }

  /** Leaving the engine version out of a binding's identity would merge stacks that differ in it. */
  lemma EngineVersionSeparates(vkey: string, engine: string, b: string, l: string, l': string)
    requires b != "" && l != "" && l' != "" && l != l'
    ensures BuildId(vkey, engine, l, Some(b)) != BuildId(vkey, engine, l', Some(b))
    ensures BuildId(vkey, engine, "", Some(b)) == vkey + "@" + b
  {
    var sep := "+" + engine + "-";
    if BuildId(vkey, engine, l, Some(b)) == BuildId(vkey, engine, l', Some(b)) {
      CommonPrefix(vkey + "@" + b + sep, l, l');
    }
  }
}
