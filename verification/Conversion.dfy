/** Whole databases: the decoder of a document, the converter from XML sources, and
    the meaning they preserve between them. */
module Conversion {
  import opened Base
  import opened Cbor
  import opened CborEncode
  import opened Caps
  import opened Database
  import opened Schema
  import opened Compiler
  import opened ViewLoads
  import opened IncludeCounts
  import Utf8
  import Loader
  import DecodeOrder
  import G = IncludeGraph

  // ----- The decoder of a document -----

  /** A decoded database. */
  datatype Decoded = Decoded(options: Node, profiles: map<string, Node>)

  const MAGIC: Bytes := [0x44, 0x44, 0x43, 0x44, 0x42]
  const MAX_PROFILES: nat := 65_536

  predicate ProfileId(id: string) { |id| <= 255 && ValidName(id) }

  function PathOf(id: string): string { "monitor/" + id + ".xml" }

  predicate SourcePath(path: string) {
    path == "options.xml" ||
    (|path| >= 12 && path[..8] == "monitor/" && path[|path| - 4..] == ".xml" && ProfileId(path[8..|path| - 4]))
  }

  predicate IsDigest(v: Value) { v.Blob? && |v.bytes| == 32 }

  /** The source paths a manifest vouches for. */
  function ReadManifest(v: Value): Option<set<string>> {
    if !v.Map? || !(forall e | e in v.entries :: e.key.Text? && SourcePath(e.key.text) && IsDigest(e.value)) then None
    else
      var paths := set e | e in v.entries && e.key.Text? :: e.key.text;
      if "options.xml" !in paths || |paths| > MAX_PROFILES + 1 then None else Some(paths)
  }

  predicate Header(root: Value) {
    && Fields(root)
    && Optional(root, 0) == Some(Blob(MAGIC)) && Optional(root, 1) == Some(Int(1))
    && Optional(root, 2).Some? && Optional(root, 2).value.Text? && Optional(root, 2).value.text != ""
    && Optional(root, 3) == Some(Int(3)) && Optional(root, 4) == Some(Text("ddccontrol-db"))
  }

  /** The digest field matches the canonical encoding of the manifest. */
  ghost predicate Sealed(root: Value, manifest: Value, sha: Bytes -> Bytes) {
    && Optional(root, 9).Some? && IsDigest(Optional(root, 9).value)
    && EncodeSpec(manifest).Some? && Optional(root, 9).value.bytes == sha(EncodeSpec(manifest).value)
  }

  function DecodeProfiles(es: seq<Entry>, paths: set<string>): Option<map<string, Node>>
    decreases |es|
  {
    if es == [] then Some(map[])
    else
      var last := es[|es| - 1];
      match DecodeProfiles(es[..|es| - 1], paths)
      case None => None
      case Some(profiles) =>
        if !last.key.Text? || !ProfileId(last.key.text) || PathOf(last.key.text) !in paths then None
        else
          match DecodeNode(last.value, "", false)
          case None => None
          case Some(n) => if n.tag == "monitor" then Some(profiles[last.key.text := n]) else None
  }

  function ProfileGraph(profiles: map<string, Node>): G.Graph { map id | id in profiles ::
      IncludesOf(profiles[id].children) }

  /** A profile with a damaged include closure is unavailable. */
  ghost function Guarded(profiles: map<string, Node>): map<string, Node> {
    map id | id in profiles ::
        if G.Kept(ProfileGraph(profiles), false, id) then profiles[id] else profiles[id].(required := true)
  }

  /** `decode_value`. */
  ghost function DecodeValue(root: Value, consumer: bool, sha: Bytes -> Bytes): Option<Decoded> {
    if !Header(root) || RequiredExtensions(root, 7).None? || (RequiredExtensions(root, 7).value && consumer) then None
    else
      match (Optional(root, 8), Optional(root, 5), Optional(root, 6))
      case (Some(manifest), Some(optionsValue), Some(Map(entries))) =>
        if !Sealed(root, manifest, sha) || ReadManifest(manifest).None? || |entries| > MAX_PROFILES then None
        else
          (match (DecodeNode(optionsValue, "", true), DecodeProfiles(entries, ReadManifest(manifest).value))
           case (Some(options), Some(profiles)) =>
             if options.tag != "options" || |ReadManifest(manifest).value| != |profiles| + 1 then None
             else Some(Decoded(options, Guarded(profiles)))
           case (_, _) => None)
      case (_, _, _) => None
  }

  /** The sweep of `decode_value`, as it runs on the decoded profiles. */
  method Guard(profiles: map<string, Node>) returns (guarded: map<string, Node>)
    ensures guarded == Guarded(profiles)
  {
    hide G.Kept, G.Unkept, G.Sized, IncludesOf, ProfileGraph, G.Lists;
    var g := ProfileGraph(profiles);
    var ids := ListIds(profiles.Keys);
    GraphKeys(profiles);
    ListsAll(ids, g);
    var invalid, _, _ := G.InvalidProfiles(ids, g, false);
    forall id | id in invalid
      ensures id in profiles
    { G.RejectedIffUnkept(g, false, ids, id); }
    guarded := Mark(profiles, invalid);
    forall id | id in profiles
      ensures id in invalid <==> !G.Kept(g, false, id)
    { G.RejectedIffUnkept(g, false, ids, id); }
    assert guarded == Guarded(profiles);
  }

  /** The marking loop. */
  method Mark(profiles: map<string, Node>, invalid: seq<string>) returns (marked: map<string, Node>)
    requires forall id | id in invalid :: id in profiles
    ensures marked.Keys == profiles.Keys
    ensures forall id | id in profiles ::
              marked[id] == if id in invalid then profiles[id].(required := true) else profiles[id]
  {
    marked := profiles;
    for k := 0 to |invalid|
      invariant marked.Keys == profiles.Keys
      invariant forall id | id in profiles ::
                  marked[id] == if id in invalid[..k] then profiles[id].(required := true) else profiles[id]
    {
      assert invalid[k] in invalid && invalid[..k + 1] == invalid[..k] + [invalid[k]];
      marked := marked[invalid[k] := marked[invalid[k]].(required := true)];
    }
    assert invalid[..|invalid|] == invalid;
  }

  /** The keys in some order; the sweep's verdict depends on none. */
  method ListIds(keys: set<string>) returns (ids: seq<string>)
    ensures forall id :: id in ids <==> id in keys
    ensures forall i, j | 0 <= i < j < |ids| :: ids[i] != ids[j]
  {
    ids := [];
    var left := keys;
    while left != {}
      invariant left <= keys
      invariant forall id :: id in ids <==> id in keys && id !in left
      invariant forall i, j | 0 <= i < j < |ids| :: ids[i] != ids[j]
      decreases left
    {
      var id :| id in left;
      assert forall i | 0 <= i < |ids| :: ids[i] in ids;
      assert id !in ids;
      ids, left := ids + [id], left - {id};
    }
  }

  lemma GraphKeys(profiles: map<string, Node>)
    ensures ProfileGraph(profiles).Keys == profiles.Keys
  {
  }

  lemma ListsAll(ids: seq<string>, g: G.Graph)
    requires forall id :: id in ids <==> id in g
    requires forall i, j | 0 <= i < j < |ids| :: ids[i] != ids[j]
    ensures G.Lists(ids, g)
  {
  }

  // ----- Validation -----

  /** No executable attribute on a node outside every executable path. */
  predicate ActiveOnly(v: Value, parent: string, inOptions: bool, ancestor: bool)
    decreases Items(v), 0, 0
  {
    match (Optional(v, 0), Optional(v, 1), Optional(v, 2))
    case (Some(Int(kind)), Some(attributes), Some(Array(children))) =>
      kind >= 0 &&
      var tag := if KindName(kind).Some? then KindName(kind).value else "unknown";
      var active := ExecutablePath(tag, parent, inOptions, ancestor);
      && (active || (Fields(attributes) && forall e | e in attributes.entries :: e.key.n >= |ATTRIBUTES|))
      && ActiveOnlyAll(children, tag, inOptions, active)
    case (_, _, _) => false
  }

  predicate ActiveOnlyAll(vs: seq<Value>, parent: string, inOptions: bool, ancestor: bool)
    decreases ItemsAll(vs), 1, |vs|
  {
    vs == [] || (ActiveOnly(vs[0], parent, inOptions, ancestor) && ActiveOnlyAll(vs[1..], parent, inOptions, ancestor))
  }

  /** `validate` on a document that was read. */
  ghost predicate Valid(root: Value, sha: Bytes -> Bytes) {
    && DecodeValue(root, false, sha).Some?
    && var profiles := DecodeValue(root, false, sha).value.profiles;
    && profiles != map[]
    && (forall id | id in profiles :: G.Kept(ProfileGraph(profiles), true, id))
    && Optional(root, 5).Some? && ActiveOnly(Optional(root, 5).value, "", true, true)
    && Optional(root, 6).Some? && Optional(root, 6).value.Map?
    && forall e | e in Optional(root, 6).value.entries :: ActiveOnly(e.value, "", false, true)
  }

  // ----- Conversion -----

  datatype Profile = Profile(id: string, root: Xml, digest: Bytes)

  /** One snapshot of the XML sources with the digests of its files. */
  datatype Sources = Sources(options: Xml, digest: Bytes, profiles: seq<Profile>)

  function CompileProfiles(ps: seq<Profile>): Option<seq<Entry>>
    decreases |ps|
  {
    if ps == [] then Some([])
    else
      var last := ps[|ps| - 1];
      if last.root.tag != "monitor" || !ProfileId(last.id) then None
      else
        match (CompileProfiles(ps[..|ps| - 1]), Compile(last.root, "", false, true, 0))
        case (Some(before), Some(v)) => Some(before + [Entry(Text(last.id), v)])
        case (_, _) => None
  }

  function ManifestOf(s: Sources): (m: Value)
    ensures m.Map? && |m.entries| == |s.profiles| + 1
  {
    Map(seq(|s.profiles|,
            i requires 0 <= i < |s.profiles| => Entry(Text(PathOf(s.profiles[i].id)), Blob(s.profiles[i].digest))) +
        [Entry(Text("options.xml"), Blob(s.digest))])
  }

  /** The revision given, or the date of the options. */
  function Revision(given: Option<string>, options: Value): Option<string> {
    if given.Some? then given
    else
      match Optional(options, 1)
      case None => None
      case Some(attrs) =>
        match Optional(attrs, 13)
        case Some(Text(date)) => Some(date)
        case _ => None
  }

  function RootOf(revision: string, options: Value, profiles: seq<Entry>, manifest: Value, snapshot: Bytes): Value {
    Map([Entry(Int(0), Blob(MAGIC)), Entry(Int(1), Int(1)), Entry(Int(2), Text(revision)), Entry(Int(3), Int(3)),
         Entry(Int(4), Text("ddccontrol-db")), Entry(Int(5), options), Entry(Int(6), Map(profiles)),
             Entry(Int(8), manifest),
         Entry(Int(9), Blob(snapshot))])
  }

  /** `convert` after its sources were read: compile, encode, read back, validate. */
  ghost function Convert(s: Sources, given: Option<string>, sha: Bytes -> Bytes): Option<Value> {
    if s.options.tag != "options" || s.profiles == [] || |s.profiles| > MAX_PROFILES then None
    else
      match (Compile(s.options, "", true, true, 0), CompileProfiles(s.profiles), EncodeSpec(ManifestOf(s)))
      case (Some(options), Some(profiles), Some(manifest)) =>
        var revision := Revision(given, options);
        if revision.None? || revision.value == "" then None
        else Checked(RootOf(revision.value, options, profiles, ManifestOf(s), sha(manifest)), sha)
      case (_, _, _) => None
  }

  ghost function Checked(root: Value, sha: Bytes -> Bytes): Option<Value> {
    if EncodeSpec(root).None? then None
    else
      match ReadDocument(EncodeSpec(root).value)
      case Some(v) => if Valid(v, sha) then Some(v) else None
      case None => None
  }

  // ----- Contexts -----

  function ElementCount(x: Xml): nat { 1 + ElementCountAll(x.children) }

  function ElementCountAll(xs: seq<Xml>): nat { if xs == [] then 0 else ElementCount(xs[0]) + ElementCountAll(xs[1..]) }

  predicate XmlFits(x: Xml, depth: nat) {
    && depth <= MAX_DEPTH
    && (forall i | 0 <= i < |x.attrs| && x.attrs[i].space.None? :: ShortAttr(x.attrs[i]))
    && XmlFitsAll(x.children, depth + 1)
  }

  predicate ShortAttr(a: XmlAttr) { |Utf8.Encode(a.name)| <= MAX_TEXT && |Utf8.Encode(a.value)| <= MAX_TEXT }

  predicate XmlFitsAll(xs: seq<Xml>, depth: nat) { xs == [] || (XmlFits(xs[0], depth) && XmlFitsAll(xs[1..], depth)) }

  /** The loader's own `parse_xml`, with its limits. */
  function ReadXml(x: Xml): Option<Node> { if XmlFits(x, 0) && ElementCount(x) <= MAX_ITEMS then Some(Owned(x))
                                           else None }

  function XmlProfiles(ps: seq<Profile>): map<string, Option<Node>>
    decreases |ps|
  {
    if ps == [] then map[] else XmlProfiles(ps[..|ps| - 1])[ps[|ps| - 1].id := ReadXml(ps[|ps| - 1].root)]
  }

  function ContextOf(options: Option<Node>, profiles: map<string, Option<Node>>): Option<Context> {
    if options.None? then None
    else
      match LoadOptions(options.value)
      case None => None
      case Some(o) => Some(Context(profiles, o, None))
  }

  /** `load_context` without a compiled database. */
  function XmlContext(s: Sources): Option<Context> { ContextOf(ReadXml(s.options), XmlProfiles(s.profiles)) }

  /** `load_context` on the bytes of a compiled database. */
  ghost function CborContext(bytes: Bytes, sha: Bytes -> Bytes): Option<Context> {
    match ReadDocument(bytes)
    case None => None
    case Some(root) =>
      match DecodeValue(root, true, sha)
      case None => None
      case Some(db) => ContextOf(Some(db.options), Available(db.profiles))
  }

  // ----- The decoder and the loader of contexts, as they run -----

  /** `decode_value`. */
  method Decode(root: Value, consumer: bool, sha: Bytes -> Bytes) returns (db: Option<Decoded>)
    ensures db == DecodeValue(root, consumer, sha)
  {
    hide Header, RequiredExtensions, Optional, ReadManifest, DecodeNode, DecodeProfiles, Guarded, EncodeSpec;
    if !Header(root) { return None; }
    var needs := RequiredExtensions(root, 7);
    if needs.None? || (needs.value && consumer) { return None; }
    var manifest, snapshot := Optional(root, 8), Optional(root, 9);
    if manifest.None? { return None; }
    var paths := ReadManifest(manifest.value);
    if paths.None? || snapshot.None? || !IsDigest(snapshot.value) { return None; }
    var wire := Encode(manifest.value);
    if wire.None? || snapshot.value.bytes != sha(wire.value) { return None; }
    var optionsValue := Optional(root, 5);
    if optionsValue.None? { return None; }
    var options := DecodeNode(optionsValue.value, "", true);
    if options.None? || options.value.tag != "options" { return None; }
    var entries := Optional(root, 6);
    if entries.None? || !entries.value.Map? || |entries.value.entries| > MAX_PROFILES { return None; }
    var profiles := DecodeProfiles(entries.value.entries, paths.value);
    if profiles.None? || |paths.value| != |profiles.value| + 1 { return None; }
    var guarded := Guard(profiles.value);
    db := Some(Decoded(options.value, guarded));
  }

  /** What is installed: a compiled database, a snapshot manifest, XML sources. */
  datatype Installed = Installed(cbor: Option<Bytes>, manifest: Option<Bytes>, sources: Sources)

  function ProfileDigests(ps: seq<Profile>): map<string, Bytes>
    decreases |ps|
  { if ps == [] then map[] else ProfileDigests(ps[..|ps| - 1])[PathOf(ps[|ps| - 1].id) := ps[|ps| - 1].digest] }

  function FileDigests(s: Sources): map<string, Bytes> { ProfileDigests(s.profiles)["options.xml" := s.digest] }

  /** `verify_manifest`: the manifest lists exactly the files, with their digests. */
  predicate Verified(bytes: Bytes, files: map<string, Bytes>) {
    match ReadDocument(bytes)
    case None => false
    case Some(v) =>
      && v != Bool(false) && ReadManifest(v).Some? && |ReadManifest(v).value| == |files|
      && forall e | e in v.entries :: e.key.text in files && e.value == Blob(files[e.key.text])
  }

  /** `load_context`: a compiled database excludes the XML sources; a manifest must
      vouch for them. */
  ghost function LoadContext(i: Installed, sha: Bytes -> Bytes): Option<Context> {
    if i.cbor.Some? then CborContext(i.cbor.value, sha)
    else if i.manifest.Some? && !Verified(i.manifest.value, FileDigests(i.sources)) then None
    else XmlContext(i.sources)
  }

  method LoadInstalled(i: Installed, sha: Bytes -> Bytes) returns (ctx: Option<Context>)
    ensures ctx == LoadContext(i, sha)
  {
    hide ReadDocument, DecodeValue, LoadOptions, Verified, XmlContext;
    if i.cbor.Some? {
      var root := ReadDocument(i.cbor.value);
      if root.None? { return None; }
      var db := Decode(root.value, true, sha);
      if db.None? { return None; }
      return ContextOf(Some(db.value.options), Available(db.value.profiles));
    }
    if i.manifest.Some? && !Verified(i.manifest.value, FileDigests(i.sources)) { return None; }
    ctx := XmlContext(i.sources);
  }

  // ----- What the decoder reads of a converted database -----

  lemma {:induction false} KeptUnbounded(g: G.Graph, id: string, h: nat)
    requires G.Resolves(g, true, id, h)
    ensures G.Resolves(g, false, id, h)
    decreases h
  {
    forall t | t in g[id]
      ensures t.Some? && G.Resolves(g, false, t.value, h - 1)
    { KeptUnbounded(g, t.value, h - 1); }
  }

  /** In a validated database no include closure is damaged. */
  lemma ValidIsUnguarded(profiles: map<string, Node>)
    requires forall id | id in profiles :: G.Kept(ProfileGraph(Guarded(profiles)), true, id)
    ensures Guarded(profiles) == profiles
  {
    hide IncludesOf, G.Resolves;
    assert ProfileGraph(Guarded(profiles)) == ProfileGraph(profiles);
    forall id | id in profiles
      ensures G.Kept(ProfileGraph(profiles), false, id)
    { KeptUnbounded(ProfileGraph(profiles), id, G.MAX_INCLUDE_DEPTH); }
  }

  /** The fields of a converted root that meaning depends on. */
  lemma RootFields(revision: string, options: Value, profiles: seq<Entry>, manifest: Value, snapshot: Bytes)
    ensures var root := RootOf(revision, options, profiles, manifest, snapshot);
            && Optional(root, 5) == Some(options) && Optional(root, 6) == Some(Map(profiles))
                && Optional(root, 7) == None
            && Optional(root, 8) == Some(manifest)
  {
    hide Items, Lookup;
    var es := RootOf(revision, options, profiles, manifest, snapshot).entries;
    assert Numbered(es);
    LookupNumbered(es, 5);
    LookupNumbered(es, 6);
    LookupNumbered(es, 7);
    LookupNumbered(es, 8);
  }

  /** Entries with the keys 0 to 6, 8 and 9. */
  predicate Numbered(es: seq<Entry>) {
    |es| == 9 && forall i | 0 <= i < 9 :: es[i].key.Int? && es[i].key.n == if i < 7 then i else i + 1
  }

  lemma LookupNumbered(es: seq<Entry>, key: nat)
    requires Numbered(es) && key <= 9
    ensures Lookup(es, key) == if key == 7 then None else Some(es[if key < 7 then key else key - 1].value)
  {
    assert DistinctKeys(es);
    var e := es[if key < 7 then key else key - 1];
    DecodeOrder.LookupMember(es, key, e);
    if key == 7 {
      forall f | f in es
        ensures f.key != Int(7)
      { var i :| 0 <= i < |es| && es[i] == f; }
    }
  }

  lemma {:induction false} ProfilesMeaning(es: seq<Entry>, paths: set<string>)
    requires DistinctKeys(es) && DecodeProfiles(es, paths).Some?
    ensures forall e | e in es :: e.key.Text? && e.key.text in DecodeProfiles(es, paths).value
                                  && DecodeNode(e.value, "", false) == Some(DecodeProfiles(es, paths).value[e.key.text])
    ensures forall id | id in DecodeProfiles(es, paths).value :: exists e | e in es :: e.key == Text(id)
    decreases |es|
  {
    hide DecodeNode, ProfileId, PathOf;
    if es != [] {
      var init, last := es[..|es| - 1], es[|es| - 1];
      assert es == init + [last];
      ProfilesMeaning(init, paths);
      forall e | e in init
        ensures e.key != last.key
      {
        var i :| 0 <= i < |init| && init[i] == e;
        assert es[i] == e;
      }
    }
  }

  lemma {:induction false} CompiledProfiles(ps: seq<Profile>, i: nat)
    requires CompileProfiles(ps).Some? && i < |ps|
    ensures |CompileProfiles(ps).value| == |ps| && Compile(ps[i].root, "", false, true, 0).Some?
            && ps[i].root.tag == "monitor"
    ensures CompileProfiles(ps).value[i] == Entry(Text(ps[i].id), Compile(ps[i].root, "", false, true, 0).value)
    decreases |ps|
  {
    hide Compile, ProfileId;
    var init := ps[..|ps| - 1];
    if i < |ps| - 1 {
      CompiledProfiles(init, i);
    } else if init != [] {
      CompiledProfiles(init, 0);
    }
  }

  lemma {:induction false} XmlProfileAt(ps: seq<Profile>, i: nat)
    requires i < |ps| && forall j, k | 0 <= j < k < |ps| :: ps[j].id != ps[k].id
    ensures ps[i].id in XmlProfiles(ps) && XmlProfiles(ps)[ps[i].id] == ReadXml(ps[i].root)
    decreases |ps|
  {
    hide ReadXml;
    if i < |ps| - 1 { XmlProfileAt(ps[..|ps| - 1], i); }
  }

  lemma {:induction false} XmlProfileOf(ps: seq<Profile>, id: string) returns (i: nat)
    requires id in XmlProfiles(ps)
    ensures i < |ps| && ps[i].id == id
    decreases |ps|
  {
    hide ReadXml;
    i := |ps| - 1;
    if ps[i].id != id { i := XmlProfileOf(ps[..i], id); }
  }

  /** Every source is within the limits of the loader's XML reader. */
  predicate Readable(s: Sources) {
    ReadXml(s.options).Some? && forall i | 0 <= i < |s.profiles| :: ReadXml(s.profiles[i].root).Some?
  }

  lemma DecodedProfile(v: Value, x: Xml)
    requires Compile(x, "", false, true, 0) == Some(v) && Encodable(v)
    requires DecodeNode(Canonical(v), "", false).Some?
    ensures DecodeNode(Canonical(v), "", false).value == View(Owned(x), "", false, true)
  {
    hide Compile, DecodeNode, Canonical, View, Owned, Encodable;
    DecodeOrder.DecodeIgnoresOrder(v, "", false);
    CompiledDecodes(x, "", false, true, 0);
  }

  /** The decoded profiles are the executable views of the sources. */
  lemma ProfilesAreViews(s: Sources, paths: set<string>, options: Options)
    requires Readable(s) && CompileProfiles(s.profiles).Some?
    requires Encodable(Map(CompileProfiles(s.profiles).value))
    requires Canonical(Map(CompileProfiles(s.profiles).value)).Map?
    requires DecodeProfiles(Canonical(Map(CompileProfiles(s.profiles).value)).entries, paths).Some?
    ensures var profiles := DecodeProfiles(Canonical(Map(CompileProfiles(s.profiles).value)).entries, paths).value;
            Context(Available(profiles), options, None) ==
            ViewContext(Context(XmlProfiles(s.profiles), options, None))
    ensures MonitorRoots(Context(XmlProfiles(s.profiles), options, None))
  {
    hide Compile, Canonical, View, ReadXml, DecodeProfiles, XmlProfiles, CompileProfiles, Encodable;
    var ps := s.profiles;
    var cs := Canonical(Map(CompileProfiles(ps).value)).entries;
    var profiles := DecodeProfiles(cs, paths).value;
    forall id | id in profiles || id in XmlProfiles(ps)
      ensures id in profiles && ViewPair(profiles, XmlProfiles(ps), id)
    {
      var i: nat;
      if id in profiles { i := ProfileIndex(ps, cs, paths, id); } else { i := XmlProfileOf(ps, id); }
      ProfileViewAt(s, cs, paths, i);
    }
  }

  predicate ViewPair(profiles: map<string, Node>, xml: map<string, Option<Node>>, id: string)
    requires id in profiles
  { id in xml && xml[id].Some? && xml[id].value.tag == "monitor" && Some(profiles[id]) == ViewRoot(xml[id]) }

  lemma ProfileViewAt(s: Sources, cs: seq<Entry>, paths: set<string>, i: nat)
    requires Readable(s) && i < |s.profiles| && CompileProfiles(s.profiles).Some?
             && Encodable(Map(CompileProfiles(s.profiles).value))
    requires Map(cs) == Canonical(Map(CompileProfiles(s.profiles).value)) && DecodeProfiles(cs, paths).Some?
    ensures s.profiles[i].id in DecodeProfiles(cs, paths).value
    ensures ViewPair(DecodeProfiles(cs, paths).value, XmlProfiles(s.profiles), s.profiles[i].id)
  {
    hide Compile, Canonical, View, ReadXml, DecodeProfiles, XmlProfiles, CompileProfiles;
    DistinctProfiles(s.profiles);
    XmlProfileAt(s.profiles, i);
    OwnedOf(s.profiles[i].root);
    ProfileIsView(s.profiles, i, cs, paths);
  }

  lemma ProfileIndex(ps: seq<Profile>, cs: seq<Entry>, paths: set<string>, id: string) returns (i: nat)
    requires CompileProfiles(ps).Some? && Encodable(Map(CompileProfiles(ps).value))
    requires Map(cs) == Canonical(Map(CompileProfiles(ps).value)) && DecodeProfiles(cs, paths).Some?
    requires id in DecodeProfiles(cs, paths).value
    ensures i < |ps| && ps[i].id == id
  {
    hide Compile, Canonical, DecodeNode, DecodeProfiles, CompileProfiles, Encodable;
    var es := CompileProfiles(ps).value;
    DecodeOrder.CanonicalMembers(es);
    ProfilesMeaning(cs, paths);
    var f :| f in cs && f.key == Text(id);
    var e :| e in es && EncodableEntry(e) && f == CanonicalEntry(e);
    i :| i < |es| && es[i] == e;
    CompiledLength(ps);
    CompiledProfiles(ps, i);
  }

  lemma {:induction false} CompiledLength(ps: seq<Profile>)
    requires CompileProfiles(ps).Some?
    ensures |CompileProfiles(ps).value| == |ps|
    decreases |ps|
  {
    hide Compile, ProfileId;
    if ps != [] { CompiledLength(ps[..|ps| - 1]); }
  }

  lemma OwnedOf(x: Xml)
    requires ReadXml(x).Some?
    ensures ReadXml(x).value == Owned(x)
  {
  }

  lemma DistinctProfiles(ps: seq<Profile>)
    requires CompileProfiles(ps).Some? && DistinctKeys(CompileProfiles(ps).value)
    ensures forall j, k | 0 <= j < k < |ps| :: ps[j].id != ps[k].id
  {
    hide Compile, CompileProfiles;
    forall j, k | 0 <= j < k < |ps|
      ensures ps[j].id != ps[k].id
    {
      CompiledProfiles(ps, j);
      CompiledProfiles(ps, k);
    }
  }

  lemma ProfileIsView(ps: seq<Profile>, i: nat, cs: seq<Entry>, paths: set<string>)
    requires i < |ps| && CompileProfiles(ps).Some? && Encodable(Map(CompileProfiles(ps).value))
    requires Map(cs) == Canonical(Map(CompileProfiles(ps).value)) && DecodeProfiles(cs, paths).Some?
    ensures ps[i].id in DecodeProfiles(cs, paths).value && ps[i].root.tag == "monitor"
    ensures DecodeProfiles(cs, paths).value[ps[i].id] == View(Owned(ps[i].root), "", false, true)
  {
    hide Compile, DecodeNode, Canonical, View, DecodeProfiles, CompileProfiles, Encodable;
    var es := CompileProfiles(ps).value;
    DecodeOrder.CanonicalMembers(es);
    ProfilesMeaning(cs, paths);
    CompiledProfiles(ps, i);
    assert es[i] in es && CanonicalEntry(es[i]) in cs;
    DecodedProfile(es[i].value, ps[i].root);
  }

  // ----- Meaning is preserved -----

  /** A converted database reads back, is accepted by the consumer, and its context
      is the executable view of the XML sources' context. */
  lemma ConvertedContext(s: Sources, given: Option<string>, sha: Bytes -> Bytes)
    requires Convert(s, given, sha).Some? && Readable(s)
    ensures EncodeSpec(Convert(s, given, sha).value).Some?
    ensures var cbor, xml := CborContext(EncodeSpec(Convert(s, given, sha).value).value, sha), XmlContext(s);
            && (cbor.Some? <==> xml.Some?)
            && (xml.Some? ==>
                  xml.value.monitorFile.None? && MonitorRoots(xml.value) && cbor.value == ViewContext(xml.value))
  {
    hide Compile, CompileProfiles, DecodeNode, DecodeProfiles, Valid, Canonical, Encodable, ReadXml, Optional,
      XmlProfiles, LoadOptions, ViewContext, MonitorRoots, View, ReadDocument, EncodeSpec, DecodeValue;
    var options, profiles := Compile(s.options, "", true, true, 0).value, CompileProfiles(s.profiles).value;
    var manifest := ManifestOf(s);
    var revision, snapshot := Revision(given, options).value, sha(EncodeSpec(manifest).value);
    var root := RootOf(revision, options, profiles, manifest, snapshot);
    Stored(root, sha);
    var c := Convert(s, given, sha).value;
    RootFields(revision, options, profiles, manifest, snapshot);
    DecodeOrder.OptionalCanonical(root, 5);
    DecodeOrder.OptionalCanonical(root, 6);
    DecodeOrder.RequiredExtensionsCanonical(root, 7);
    ValidParts(c, sha);
    var paths := ReadManifest(Optional(c, 8).value).value;
    OwnedOf(s.options);
    DecodeOrder.DecodeIgnoresOrder(options, "", true);
    CompiledDecodes(s.options, "", true, true, 0);
    ViewOptions(Owned(s.options));
    var o := LoadOptions(Owned(s.options));
    if o.Some? { ProfilesAreViews(s, paths, o.value); }
  }

  /** A checked root is the canonical form of what was built, and is stored and read
      back as it is. */
  lemma Stored(root: Value, sha: Bytes -> Bytes)
    requires Checked(root, sha).Some?
    ensures Encodable(root) && Checked(root, sha).value == Canonical(root) && Valid(Canonical(root), sha)
    ensures EncodeSpec(Canonical(root)).Some? && ReadDocument(EncodeSpec(Canonical(root)).value) ==
            Some(Canonical(root))
  {
    hide Valid, Canonical, Encodable, ReadDocument, Document, Wire;
    EncodedReadsBack(root);
    ReadThenEncode(EncodeSpec(root).value);
  }

  /** What a validated root without a required database feature gives a consumer. */
  lemma ValidParts(c: Value, sha: Bytes -> Bytes)
    requires Valid(c, sha) && RequiredExtensions(c, 7) == Some(false)
    ensures Optional(c, 5).Some? && DecodeNode(Optional(c, 5).value, "", true).Some?
    ensures Optional(c, 8).Some? && ReadManifest(Optional(c, 8).value).Some?
    ensures Optional(c, 6).Some? && Optional(c, 6).value.Map?
    ensures DecodeProfiles(Optional(c, 6).value.entries, ReadManifest(Optional(c, 8).value).value).Some?
    ensures DecodeValue(c, true, sha) ==
            Some(Decoded(DecodeNode(Optional(c, 5).value, "", true).value,
                         DecodeProfiles(Optional(c, 6).value.entries, ReadManifest(Optional(c, 8).value).value).value))
  {
    hide DecodeNode, DecodeProfiles, ReadManifest, Optional, Header, Sealed, ActiveOnly, Guarded, G.Kept, ProfileGraph;
    var profiles := DecodeProfiles(Optional(c, 6).value.entries, ReadManifest(Optional(c, 8).value).value).value;
    GuardedKeys(profiles);
    ValidIsUnguarded(profiles);
  }

  lemma GuardedKeys(profiles: map<string, Node>)
    ensures Guarded(profiles).Keys == profiles.Keys
  {
  }

  // ----- Limits -----

  function Available(profiles: map<string, Node>): map<string,
      Option<Node>> { map id | id in profiles :: Some(profiles[id]) }

  /** No profile of a validated database ever meets the visit limit. */
  lemma ValidatedNeverVisitLimit(root: Value, sha: Bytes -> Bytes, options: Options, b: Loader.Build, name: string,
                                 mode: Loader.Mode)
    requires Valid(root, sha) && b.visits == 0
    ensures var ctx := Context(Available(DecodeValue(root, false, sha).value.profiles), options, None);
            Loader.CreateDb(ctx, b, name, 0, mode) != Loader.Failed(Loader.VisitLimit)
  {
    hide DecodeValue, ActiveOnly, Optional, IncludesOf, G.Resolves, Loader.Elements, Loader.OpenRoot;
    var profiles := DecodeValue(root, false, sha).value.profiles;
    var ctx := Context(Available(profiles), options, None);
    assert GraphOf(ctx) == ProfileGraph(profiles);
    if name in profiles { NeverVisitLimit(ctx, b, name, mode); }
  }
}
