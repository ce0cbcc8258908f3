/** Which sources are converted: the validation of what was compiled fails for no
    reason but the digests and the includes. */
module Acceptance {
  import opened Base
  import opened Cbor
  import opened CborEncode
  import opened Database
  import opened Schema
  import opened Compiler
  import opened Conversion
  import opened IncludeCounts
  import CompileLimits
  import DecodeOrder
  import FallbackLoads
  import DS = DocumentSchema
  import G = IncludeGraph

  // ----- Known attributes stand on executable paths -----

  lemma KindOfTag(tag: string)
    ensures KindId(tag).Some? ==> KindName(Kind(tag)) == Some(tag)
    ensures KindId(tag).None? ==> KindName(Kind(tag)).None? && forall parent, inOptions, ancestor ::
              !ExecutablePath(tag, parent, inOptions, ancestor)
                  && !ExecutablePath("unknown", parent, inOptions, ancestor)
  {
  }

  lemma NothingAllowed(attrs: seq<XmlAttr>)
    ensures CompileAttrs(attrs, {}) == Some([])
    decreases |attrs|
  {
    hide IndexOf;
    if attrs != [] { NothingAllowed(attrs[..|attrs| - 1]); }
  }

  /** Under an inactive ancestor the parent does not matter. */
  lemma {:induction false} CompiledActive(x: Xml, parent: string, known: string, inOptions: bool, ancestor: bool,
                                          depth: nat)
    requires Compile(x, parent, inOptions, ancestor, depth).Some? && (parent == known || !ancestor)
    ensures ActiveOnly(Compile(x, parent, inOptions, ancestor, depth).value, known, inOptions, ancestor)
    decreases x, 0
  {
    hide Assemble, CompileAttrs, ExecutableAttributes, InertAttrs, KindId, KindName, Kind, Optional, IndexOf, Fields;
    var active := ExecutablePath(x.tag, parent, inOptions, ancestor);
    var allowed := Allowed(x.tag, parent, inOptions, ancestor);
    var attrs, inert := CompileAttrs(x.attrs, allowed).value, InertAttrs(x.attrs, allowed);
    var children := CompileAll(x.children, x.tag, inOptions, active, depth + 1).value;
    AssembledFields(x, attrs, inert, children);
    KindOfTag(x.tag);
    NoFields();
    if !active { NothingAllowed(x.attrs); }
    var tag := if KindName(Kind(x.tag)).Some? then x.tag else "unknown";
    assert ExecutablePath(tag, known, inOptions, ancestor) == active;
    AllCompiledActive(x.children, x.tag, tag, inOptions, active, depth + 1);
  }

  lemma NoFields()
    ensures Fields(Map([]))
  {
  }

  lemma {:induction false} AllCompiledActive(xs: seq<Xml>, parent: string, known: string, inOptions: bool,
                                             ancestor: bool, depth: nat)
    requires CompileAll(xs, parent, inOptions, ancestor, depth).Some? && (parent == known || !ancestor)
    ensures ActiveOnlyAll(CompileAll(xs, parent, inOptions, ancestor, depth).value, known, inOptions, ancestor)
    decreases xs, 0
  {
    hide Compile, ActiveOnly;
    if xs != [] {
      CompiledActive(xs[0], parent, known, inOptions, ancestor, depth);
      AllCompiledActive(xs[1..], parent, known, inOptions, ancestor, depth);
      var vs := CompileAll(xs, parent, inOptions, ancestor, depth).value;
      assert vs[1..] == CompileAll(xs[1..], parent, inOptions, ancestor, depth).value;
    }
  }

  predicate NoneKnown(v: Value) { Fields(v) && forall e | e in v.entries :: e.key.n >= |ATTRIBUTES| }

  lemma NoneKnownCanonical(v: Value)
    requires Encodable(v)
    ensures NoneKnown(Canonical(v)) <==> NoneKnown(v)
  {
    hide CanonicalEntries, SortEntries;
    DecodeOrder.FieldsCanonical(v);
    if v.Map? { DecodeOrder.CanonicalMembers(v.entries); }
  }

  lemma {:induction false} ActiveCanonical(v: Value, parent: string, inOptions: bool, ancestor: bool)
    requires Encodable(v)
    ensures ActiveOnly(Canonical(v), parent, inOptions, ancestor) <==> ActiveOnly(v, parent, inOptions, ancestor)
    decreases Items(v), 0, 0
  {
    hide Optional, Encodable, Canonical, KindName, ExecutablePath, Fields;
    DecodeOrder.OptionalCanonical(v, 0);
    DecodeOrder.OptionalCanonical(v, 1);
    DecodeOrder.OptionalCanonical(v, 2);
    DecodeOrder.CanonicalLeaf(Optional(v, 0));
    DecodeOrder.CanonicalLeaf(Optional(v, 2));
    if Optional(v, 1).Some? { NoneKnownCanonical(Optional(v, 1).value); }
    if Optional(v, 0).Some? && Optional(v, 0).value.Int? && Optional(v, 0).value.n >= 0
        && Optional(v, 2).Some? && Optional(v, 2).value.Array? {
      var children := Optional(v, 2).value;
      var kind: nat := Optional(v, 0).value.n;
      var tag := if KindName(kind).Some? then KindName(kind).value else "unknown";
      DecodeOrder.EncodableItems(children);
      DecodeOrder.CanonicalArray(children.items);
      DS.OptionalFits(v);
      AllActiveCanonical(children.items, tag, inOptions, ExecutablePath(tag, parent, inOptions, ancestor));
    }
  }

  lemma {:induction false} AllActiveCanonical(vs: seq<Value>, parent: string, inOptions: bool, ancestor: bool)
    requires forall i | 0 <= i < |vs| :: Encodable(vs[i])
    ensures ActiveOnlyAll(DecodeOrder.CanonicalAll(vs), parent, inOptions, ancestor) <==>
            ActiveOnlyAll(vs, parent, inOptions, ancestor)
    decreases ItemsAll(vs), 1, |vs|
  {
    hide Encodable, Canonical, ActiveOnly;
    if vs != [] {
      ActiveCanonical(vs[0], parent, inOptions, ancestor);
      AllActiveCanonical(vs[1..], parent, inOptions, ancestor);
      assert DecodeOrder.CanonicalAll(vs)[1..] == DecodeOrder.CanonicalAll(vs[1..]);
    }
  }

  // ----- The manifest -----

  lemma ManifestMembers(s: Sources)
    requires Encodable(ManifestOf(s))
    ensures Canonical(ManifestOf(s)).Map? && |Canonical(ManifestOf(s)).entries| == |s.profiles| + 1
    ensures forall f :: f in Canonical(ManifestOf(s)).entries <==> f in ManifestOf(s).entries
  {
    hide EncodableEntry, CanonicalEntry, ManifestOf;
    var m := ManifestOf(s);
    AllBlobs(s);
    assert Map(m.entries) == m;
    DecodeOrder.CanonicalMembers(m.entries);
    forall e | e in m.entries
      ensures EncodableEntry(e) && CanonicalEntry(e) == e
    { FallbackLoads.BlobEntry(e); }
  }

  lemma AllBlobs(s: Sources)
    ensures forall e | e in ManifestOf(s).entries :: e.value.Blob?
  {
  }

  lemma {:induction false} PathsCount(es: seq<Entry>)
    requires DistinctKeys(es) && forall e | e in es :: e.key.Text?
    ensures |DS.Paths(es)| == |es|
    decreases |es|
  {
    if es != [] {
      var init, last := es[..|es| - 1], es[|es| - 1];
      assert es == init + [last];
      PathsCount(init);
      forall e | e in init
        ensures e.key != last.key
      {
        var i :| 0 <= i < |init| && init[i] == e;
        assert es[i] == e;
      }
      assert last.key.text !in DS.Paths(init);
      assert DS.Paths(es) == DS.Paths(init) + {last.key.text};
    }
  }

  predicate DigestsWhole(s: Sources) { |s.digest| == 32 && forall p | p in s.profiles :: |p.digest| == 32 }

  predicate NamedWell(s: Sources) { forall p | p in s.profiles :: ProfileId(p.id) }

  /** The manifest of well-named sources is read back exactly if its digests are whole. */
  lemma ManifestReads(s: Sources)
    requires Encodable(ManifestOf(s)) && NamedWell(s) && |s.profiles| <= MAX_PROFILES
    ensures ReadManifest(Canonical(ManifestOf(s))).Some? <==> DigestsWhole(s)
    ensures DigestsWhole(s) ==>
              var paths := ReadManifest(Canonical(ManifestOf(s))).value;
              |paths| == |s.profiles| + 1 && forall p | p in s.profiles :: PathOf(p.id) in paths
  {
    hide ManifestOf, Canonical, Encodable, ReadManifest, SourcePath, ProfileId, PathOf;
    var m := ManifestOf(s);
    var c := Canonical(m);
    ManifestMembers(s);
    FallbackLoads.AcceptedKeys(m);
    ManifestIs(s);
    PathsCount(m.entries);
    assert DS.Paths(c.entries) == DS.Paths(m.entries);
    ReadIff(c);
  }

  /** Its entries, one by one. */
  lemma ManifestIs(s: Sources)
    requires NamedWell(s)
    ensures forall e | e in ManifestOf(s).entries :: e.key.Text? && SourcePath(e.key.text)
    ensures "options.xml" in DS.Paths(ManifestOf(s).entries)
    ensures forall p | p in s.profiles :: PathOf(p.id) in DS.Paths(ManifestOf(s).entries)
    ensures (forall e | e in ManifestOf(s).entries :: IsDigest(e.value)) <==> DigestsWhole(s)
  {
    hide ProfileId, PathOf, SourcePath;
    var es, n := ManifestOf(s).entries, |s.profiles|;
    assert es[n] == Entry(Text("options.xml"), Blob(s.digest)) && es[n] in es;
    assert forall i | 0 <= i < n :: es[i] == Entry(Text(PathOf(s.profiles[i].id)), Blob(s.profiles[i].digest));
    OptionsPath();
    forall e | e in es
      ensures e.key.Text? && SourcePath(e.key.text)
    {
      var i :| 0 <= i <= n && es[i] == e;
      if i < n { ProfilePath(s.profiles[i].id); }
    }
    forall p | p in s.profiles
      ensures Entry(Text(PathOf(p.id)), Blob(p.digest)) in es
    { var i :| 0 <= i < n && s.profiles[i] == p; assert es[i] in es; }
    if DigestsWhole(s) {
      forall e | e in es
        ensures IsDigest(e.value)
      { var i :| 0 <= i <= n && es[i] == e; }
    }
  }

  lemma OptionsPath()
    ensures SourcePath("options.xml")
  {
  }

  lemma ProfilePath(id: string)
    requires ProfileId(id)
    ensures SourcePath(PathOf(id))
  {
    hide ProfileId, DS.ProfileName;
    DS.ProfileNameMeans(id);
    DS.SourcePathMeans(PathOf(id));
  }

  lemma ReadIff(c: Value)
    requires c.Map? && (forall e | e in c.entries :: e.key.Text? && SourcePath(e.key.text))
    requires "options.xml" in DS.Paths(c.entries) && |DS.Paths(c.entries)| <= MAX_PROFILES + 1
    ensures ReadManifest(c).Some? <==> forall e | e in c.entries :: IsDigest(e.value)
    ensures ReadManifest(c).Some? ==> ReadManifest(c).value == DS.Paths(c.entries)
  {
    hide SourcePath, IsDigest;
  }

  // ----- The profiles -----

  lemma Decodes(x: Xml, v: Value, inOptions: bool)
    requires Compile(x, "", inOptions, true, 0) == Some(v) && Encodable(v) && NoNul(x)
    ensures DecodeNode(Canonical(v), "", inOptions) == Some(View(Owned(x), "", inOptions, true))
    ensures ActiveOnly(Canonical(v), "", inOptions, true)
  {
    hide Compile, DecodeNode, Canonical, View, Owned, Encodable, NoNul, ActiveOnly;
    DecodeOrder.DecodeIgnoresOrder(v, "", inOptions);
    CompiledDecodes(x, "", inOptions, true, 0);
    CompiledActive(x, "", "", inOptions, true, 0);
    ActiveCanonical(v, "", inOptions, true);
  }

  predicate ProfilesClean(ps: seq<Profile>) { forall p | p in ps :: NoNul(p.root) }

  lemma {:induction false} CompiledNames(ps: seq<Profile>)
    requires CompileProfiles(ps).Some?
    ensures forall p | p in ps :: ProfileId(p.id)
    decreases |ps|
  {
    hide Compile, ProfileId;
    if ps != [] {
      CompiledNames(ps[..|ps| - 1]);
      assert ps == ps[..|ps| - 1] + [ps[|ps| - 1]];
    }
  }

  lemma OneDecodes(ps: seq<Profile>, paths: set<string>, k: nat)
    requires CompileProfiles(ps).Some? && ProfilesClean(ps) && k < |ps| == |CompileProfiles(ps).value|
    requires EncodableEntry(CompileProfiles(ps).value[k])
    requires forall p | p in ps :: PathOf(p.id) in paths
    ensures var f := CanonicalEntry(CompileProfiles(ps).value[k]);
            && DS.ProfileOk(f, paths) && ActiveOnly(f.value, "", false, true)
  {
    hide Compile, CompileProfiles, DecodeNode, Canonical, Encodable, NoNul, ActiveOnly, DS.ProfileOk, ProfileId, PathOf;
    CompiledProfiles(ps, k);
    CompiledNames(ps);
    var e := CompileProfiles(ps).value[k];
    assert ps[k] in ps;
    Decodes(ps[k].root, e.value, false);
    DS.ProfileMeans(CanonicalEntry(e), paths);
  }

  /** Compiled profiles are all decoded. */
  lemma ProfilesDecode(ps: seq<Profile>, cs: seq<Entry>, paths: set<string>)
    requires CompileProfiles(ps).Some? && ProfilesClean(ps) && Encodable(Map(CompileProfiles(ps).value))
    requires Map(cs) == Canonical(Map(CompileProfiles(ps).value))
    requires forall p | p in ps :: PathOf(p.id) in paths
    ensures DecodeProfiles(cs, paths).Some? && |DecodeProfiles(cs, paths).value| == |ps| == |cs|
    ensures forall f | f in cs :: ActiveOnly(f.value, "", false, true)
  {
    hide Compile, CompileProfiles, DecodeNode, DecodeProfiles, ProfilesClean, ActiveOnly, DS.ProfileOk, PathOf,
      EncodableEntry, CanonicalEntry;
    var es := CompileProfiles(ps).value;
    CompiledLength(ps);
    SameLength(es);
    DecodeOrder.CanonicalMembers(es);
    forall f | f in cs
      ensures DS.ProfileOk(f, paths) && ActiveOnly(f.value, "", false, true)
    {
      var e :| e in es && EncodableEntry(e) && f == CanonicalEntry(e);
      var k :| 0 <= k < |es| && es[k] == e;
      OneDecodes(ps, paths, k);
    }
    DS.ProfilesMean(cs, paths);
    TextKeys(cs, paths);
    PathsCount(cs);
  }

  lemma SameLength(es: seq<Entry>)
    requires Encodable(Map(es))
    ensures Canonical(Map(es)).Map? && |Canonical(Map(es)).entries| == |es|
  {
  }

  lemma TextKeys(cs: seq<Entry>, paths: set<string>)
    requires forall f | f in cs :: DS.ProfileOk(f, paths)
    ensures forall f | f in cs :: f.key.Text?
  {
    hide DS.NodeOk, DS.ProfileName;
  }

  // ----- The include graph -----

  /** The sources by name, as the loader would own them. */
  function SourceProfiles(ps: seq<Profile>): map<string, Node>
    decreases |ps|
  { if ps == [] then map[] else SourceProfiles(ps[..|ps| - 1])[ps[|ps| - 1].id := Owned(ps[|ps| - 1].root)] }

  lemma {:induction false} SourceAt(ps: seq<Profile>, i: nat)
    requires i < |ps| && forall j, k | 0 <= j < k < |ps| :: ps[j].id != ps[k].id
    ensures ps[i].id in SourceProfiles(ps) && SourceProfiles(ps)[ps[i].id] == Owned(ps[i].root)
    decreases |ps|
  {
    hide Owned;
    if i < |ps| - 1 { SourceAt(ps[..|ps| - 1], i); }
  }

  lemma {:induction false} SourceOf(ps: seq<Profile>, id: string) returns (i: nat)
    requires id in SourceProfiles(ps)
    ensures i < |ps| && ps[i].id == id
    decreases |ps|
  {
    hide Owned;
    i := |ps| - 1;
    if ps[i].id != id { i := SourceOf(ps[..i], id); }
  }

  lemma FileIsKept(n: Node)
    requires n.tag == "include"
    ensures Attr(View(n, "monitor", false, true), "file") == Attr(n, "file")
  {
    hide IndexOf, ExecutableAttributes, SourceInteger, ViewAll;
    FileExecutes();
  }

  lemma FileExecutes()
    ensures AttributeId("file") == Some(9) && ExecutableAttributes("include", "monitor", false) == {9}
  {
    hide IndexOf;
    assert ATTRIBUTES[9] == "file" && "file" in ATTRIBUTES;
    DecodeOrder.AttributesDistinct(9);
  }

  lemma {:induction false} IncludesViewed(ns: seq<Node>)
    ensures IncludesOf(ViewAll(ns, "monitor", false, true)) == IncludesOf(ns)
  {
    hide View, Attr;
    if ns != [] {
      IncludesViewed(ns[1..]);
      SameTag(ns[0]);
      if ns[0].tag == "include" { FileIsKept(ns[0]); }
      var vs := ViewAll(ns, "monitor", false, true);
      assert vs[1..] == ViewAll(ns[1..], "monitor", false, true);
    }
  }

  lemma SameTag(n: Node)
    ensures View(n, "monitor", false, true).tag == n.tag
  {
  }

  lemma RootViewed(n: Node)
    requires n.tag == "monitor"
    ensures View(n, "", false, true).children == ViewAll(n.children, "monitor", false, true)
  {
    assert 0 in ExecutableAttributes("monitor", "", false);
  }

  lemma SameGraph(ps: seq<Profile>, cs: seq<Entry>, paths: set<string>)
    requires CompileProfiles(ps).Some? && Encodable(Map(CompileProfiles(ps).value))
    requires Map(cs) == Canonical(Map(CompileProfiles(ps).value)) && DecodeProfiles(cs, paths).Some?
    ensures ProfileGraph(DecodeProfiles(cs, paths).value) == ProfileGraph(SourceProfiles(ps))
    ensures forall id :: id in DecodeProfiles(cs, paths).value <==> exists p | p in ps :: p.id == id
  {
    hide Compile, CompileProfiles, DecodeProfiles, Canonical, View, ViewAll, Owned, IncludesOf, SourceProfiles;
    var decoded, sources := DecodeProfiles(cs, paths).value, SourceProfiles(ps);
    FallbackLoads.AcceptedKeys(Map(CompileProfiles(ps).value));
    DistinctProfiles(ps);
    forall i | 0 <= i < |ps|
      ensures ps[i].id in decoded && ps[i].id in sources
      ensures IncludesOf(decoded[ps[i].id].children) == IncludesOf(sources[ps[i].id].children)
    {
      ProfileIsView(ps, i, cs, paths);
      SourceAt(ps, i);
      OwnedTag(ps[i].root);
      RootViewed(Owned(ps[i].root));
      IncludesViewed(Owned(ps[i].root).children);
    }
    forall id
      ensures id in decoded <==> exists p | p in ps :: p.id == id
      ensures id in sources <==> exists p | p in ps :: p.id == id
      ensures id in decoded ==> IncludesOf(decoded[id].children) == IncludesOf(sources[id].children)
    {
      if id in decoded { var i := ProfileIndex(ps, cs, paths, id); assert ps[i] in ps; }
      if id in sources { var i := SourceOf(ps, id); assert ps[i] in ps; }
      if p :| p in ps && p.id == id { var i :| 0 <= i < |ps| && ps[i] == p; }
    }
  }

  lemma OwnedTag(x: Xml)
    ensures Owned(x).tag == x.tag
  {
  }

  // ----- The converter -----

  lemma HeaderStands(revision: string, options: Value, profiles: seq<Entry>, manifest: Value, snapshot: Bytes)
    requires Encodable(RootOf(revision, options, profiles, manifest, snapshot)) && revision != ""
    ensures var c := Canonical(RootOf(revision, options, profiles, manifest, snapshot));
            && Header(c) && RequiredExtensions(c, 7) == Some(false)
            && Optional(c, 9) == Some(Blob(snapshot))
  {
    hide Lookup, Canonical, Encodable, RequiredExtensions, RootOf, Optional, Fields;
    var root := RootOf(revision, options, profiles, manifest, snapshot);
    HeaderFields(revision, options, profiles, manifest, snapshot);
    PlainField(root, 0, Blob(MAGIC));
    PlainField(root, 1, Int(1));
    PlainField(root, 2, Text(revision));
    PlainField(root, 3, Int(3));
    PlainField(root, 4, Text("ddccontrol-db"));
    PlainField(root, 9, Blob(snapshot));
    RootFields(revision, options, profiles, manifest, snapshot);
    DecodeOrder.FieldsCanonical(root);
    DecodeOrder.RequiredExtensionsCanonical(root, 7);
    FallbackLoads.NoDatabaseFeature(root);
  }

  lemma HeaderFields(revision: string, options: Value, profiles: seq<Entry>, manifest: Value, snapshot: Bytes)
    ensures var root := RootOf(revision, options, profiles, manifest, snapshot);
            && Fields(root)
            && Optional(root, 0) == Some(Blob(MAGIC)) && Optional(root, 1) == Some(Int(1))
            && Optional(root, 2) == Some(Text(revision)) && Optional(root, 3) == Some(Int(3))
            && Optional(root, 4) == Some(Text("ddccontrol-db")) && Optional(root, 9) == Some(Blob(snapshot))
  {
    hide Items, Lookup;
    var es := RootOf(revision, options, profiles, manifest, snapshot).entries;
    assert Numbered(es);
    LookupNumbered(es, 0);
    LookupNumbered(es, 1);
    LookupNumbered(es, 2);
    LookupNumbered(es, 3);
    LookupNumbered(es, 4);
    LookupNumbered(es, 9);
  }

  lemma PlainField(root: Value, key: nat, v: Value)
    requires Encodable(root) && key < 256 && Optional(root, key) == Some(v) && !v.Map? && !v.Array?
    ensures Optional(Canonical(root), key) == Some(v)
  {
    hide Canonical, Encodable, Optional;
    DecodeOrder.OptionalCanonical(root, key);
    PlainCanonical(v);
  }

  lemma PlainCanonical(v: Value)
    requires Encodable(v) && !v.Map? && !v.Array?
    ensures Canonical(v) == v
  {
  }

  /** The includes of every profile are complete, at most 256 deep, and expand to a
      bounded number of visits. */
  ghost predicate IncludesResolve(ps: seq<Profile>) {
    forall p | p in ps :: G.Kept(ProfileGraph(SourceProfiles(ps)), true, p.id)
  }

  /** A canonical root of compiled sources is valid exactly if the digests are whole
      and the includes resolve. */
  lemma ValidIff(s: Sources, revision: string, options: Value, profiles: seq<Entry>, snapshot: Bytes,
                 sha: Bytes -> Bytes)
    requires s.options.tag == "options" && 1 <= |s.profiles| <= MAX_PROFILES && revision != ""
    requires NoNul(s.options) && ProfilesClean(s.profiles)
    requires Compile(s.options, "", true, true, 0) == Some(options) && CompileProfiles(s.profiles) == Some(profiles)
    requires EncodeSpec(ManifestOf(s)).Some? && snapshot == sha(EncodeSpec(ManifestOf(s)).value)
    requires Encodable(RootOf(revision, options, profiles, ManifestOf(s), snapshot))
    ensures Valid(Canonical(RootOf(revision, options, profiles, ManifestOf(s), snapshot)), sha) <==>
            DigestsWhole(s) && |snapshot| == 32 && IncludesResolve(s.profiles)
  {
    hide Compile, CompileProfiles, DecodeNode, DecodeProfiles, Canonical, Encodable, Optional, Header,
      RequiredExtensions, ReadManifest, EncodeSpec, ActiveOnly, Guarded, G.Kept, ProfileGraph, NoNul, ProfilesClean,
      PathOf, ManifestOf, RootOf, IncludesResolve, DigestsWhole;
    var manifest := ManifestOf(s);
    var root := RootOf(revision, options, profiles, manifest, snapshot);
    var c := Canonical(root);
    HeaderStands(revision, options, profiles, manifest, snapshot);
    RootFields(revision, options, profiles, manifest, snapshot);
    DecodeOrder.OptionalCanonical(root, 5);
    DecodeOrder.OptionalCanonical(root, 6);
    DecodeOrder.OptionalCanonical(root, 8);
    CompiledNames(s.profiles);
    ManifestReads(s);
    FallbackLoads.SameEncoding(manifest);
    Decodes(s.options, options, true);
    ViewedTag(s.options);
    SameLength(profiles);
    var cs := Canonical(Map(profiles)).entries;
    if DigestsWhole(s) {
      var paths := ReadManifest(Canonical(manifest)).value;
      ProfilesDecode(s.profiles, cs, paths);
      ClosedIff(s.profiles, cs, paths);
    }
  }

  lemma ViewedTag(x: Xml)
    ensures View(Owned(x), "", true, true).tag == x.tag
  {
  }

  lemma ClosedIff(ps: seq<Profile>, cs: seq<Entry>, paths: set<string>)
    requires |ps| >= 1 && CompileProfiles(ps).Some? && Encodable(Map(CompileProfiles(ps).value))
    requires Map(cs) == Canonical(Map(CompileProfiles(ps).value)) && DecodeProfiles(cs, paths).Some?
    ensures var decoded := DecodeProfiles(cs, paths).value;
            && Guarded(decoded) != map[]
            && ((forall id | id in Guarded(decoded) :: G.Kept(ProfileGraph(Guarded(decoded)), true, id)) <==>
                IncludesResolve(ps))
  {
    hide CompileProfiles, DecodeProfiles, Canonical, Encodable, G.Kept, SourceProfiles, IncludesOf;
    var decoded := DecodeProfiles(cs, paths).value;
    SameGraph(ps, cs, paths);
    GuardedKeys(decoded);
    assert ProfileGraph(Guarded(decoded)) == ProfileGraph(decoded);
    assert ps[0] in ps && ps[0].id in decoded;
  }

  /** Sources that the converter accepts, for a revision that may be asked for. */
  ghost predicate Convertible(s: Sources, given: Option<string>, sha: Bytes -> Bytes) {
    && s.options.tag == "options" && 1 <= |s.profiles| <= 65_536
    && DigestsWhole(s) && IncludesResolve(s.profiles)
    && (forall p | p in s.profiles :: p.root.tag == "monitor" && ProfileId(p.id))
    && CompilesWhole(s.options, true) && (forall p | p in s.profiles :: CompilesWhole(p.root, false))
    && RevisionIs(s, given) != None && RevisionIs(s, given) != Some("")
    && EncodeSpec(ManifestOf(s)).Some? && |sha(EncodeSpec(ManifestOf(s)).value)| == 32
    && EncodeSpec(Written(s, given, sha)).Some?
  }

  /** The nesting bound and the numbers of every element. */
  ghost predicate CompilesWhole(x: Xml, inOptions: bool) {
    forall path | CompileLimits.ElementAt(x, path).Some? :: CompileLimits.Compilable(x, [], inOptions, 0, path)
  }

  function Compiled(x: Xml, inOptions: bool): Value {
    if Compile(x, "", inOptions, true, 0).Some? then Compile(x, "", inOptions, true, 0).value else Null
  }

  /** The revision asked for, or the date of the options. */
  function RevisionIs(s: Sources, given: Option<string>): Option<string> { Revision(given, Compiled(s.options, true)) }

  /** What is written for the sources. */
  ghost function Written(s: Sources, given: Option<string>, sha: Bytes -> Bytes): Value {
    var revision := if RevisionIs(s, given).Some? then RevisionIs(s, given).value else "";
    var snapshot := if EncodeSpec(ManifestOf(s)).Some? then sha(EncodeSpec(ManifestOf(s)).value) else [];
    RootOf(revision, Compiled(s.options, true), CompiledEntries(s.profiles), ManifestOf(s), snapshot)
  }

  function CompiledEntries(ps: seq<Profile>): (r: seq<Entry>)
    ensures |r| == |ps| && forall i | 0 <= i < |ps| :: r[i] == Entry(Text(ps[i].id), Compiled(ps[i].root, false))
  { seq(|ps|, i requires 0 <= i < |ps| => Entry(Text(ps[i].id), Compiled(ps[i].root, false))) }

  lemma {:induction false} ProfilesCompile(ps: seq<Profile>)
    ensures CompileProfiles(ps).Some? <==>
            forall p | p in ps :: p.root.tag == "monitor" && ProfileId(p.id) && CompilesWhole(p.root, false)
    ensures CompileProfiles(ps).Some? ==> CompileProfiles(ps).value == CompiledEntries(ps)
    decreases |ps|
  {
    hide Compile, ProfileId, CompilesWhole, Compiled;
    if ps != [] {
      var init, last := ps[..|ps| - 1], ps[|ps| - 1];
      assert ps == init + [last];
      ProfilesCompile(init);
      WholeIff(last.root, false);
      CompiledIs(last.root, false);
      if CompileProfiles(ps).Some? {
        assert CompiledEntries(ps) == CompiledEntries(init) + [CompiledEntries(ps)[|ps| - 1]];
      }
    }
  }

  lemma CompiledIs(x: Xml, inOptions: bool)
    ensures Compile(x, "", inOptions, true, 0).Some? ==>
            Compile(x, "", inOptions, true, 0) == Some(Compiled(x, inOptions))
  {
  }

  lemma WholeIff(x: Xml, inOptions: bool)
    ensures CompilesWhole(x, inOptions) <==> Compile(x, "", inOptions, true, 0).Some?
  {
    hide Compile, CompileLimits.Compilable, CompileLimits.ElementAt;
    CompileLimits.CompileMeans(x, inOptions);
  }

  /** Clean sources are converted exactly if they are convertible, and then what is
      written is the canonical form of what they compile to. */
  lemma ConvertMeans(s: Sources, given: Option<string>, sha: Bytes -> Bytes)
    requires NoNul(s.options) && ProfilesClean(s.profiles)
    ensures Convert(s, given, sha).Some? <==> Convertible(s, given, sha)
    ensures Convertible(s, given, sha) ==>
              && Encodable(Written(s, given, sha))
              && Convert(s, given, sha) == Some(Canonical(Written(s, given, sha)))
  {
    hide Compile, CompileProfiles, Canonical, Encodable, EncodeSpec, ReadDocument, Valid, NoNul, ProfilesClean,
      ManifestOf, RootOf, CompiledEntries, IncludesResolve, DigestsWhole, CompilesWhole, ProfileId, Revision;
    WholeIff(s.options, true);
    ProfilesCompile(s.profiles);
    var options, profiles := Compile(s.options, "", true, true, 0), CompileProfiles(s.profiles);
    var revision := RevisionIs(s, given);
    if s.options.tag == "options" && 1 <= |s.profiles| <= MAX_PROFILES && options.Some? && profiles.Some?
        && EncodeSpec(ManifestOf(s)).Some? && revision.Some? && revision.value != "" {
      var snapshot := sha(EncodeSpec(ManifestOf(s)).value);
      var root := RootOf(revision.value, options.value, profiles.value, ManifestOf(s), snapshot);
      assert root == Written(s, given, sha);
      if EncodeSpec(root).Some? {
        EncodedReadsBack(root);
        EncodedIsEncodable(root);
        ValidIff(s, revision.value, options.value, profiles.value, snapshot, sha);
      }
    }
  }

  lemma EncodedIsEncodable(v: Value)
    requires EncodeSpec(v).Some?
    ensures Encodable(v)
  {
  }
}
