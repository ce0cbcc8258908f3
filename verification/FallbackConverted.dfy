/** Nothing the converter writes is necessary to understand: the XML sources of a
    converted database may always stand in for it. */
module FallbackConverted {
  import opened Base
  import opened Cbor
  import opened CborEncode
  import opened Schema
  import opened Compiler
  import opened Conversion
  import opened Fallback
  import opened DecodeOrder

  // ----- The decision does not depend on entry order -----

  lemma {:induction false} NecessaryCanonical(v: Value)
    requires Encodable(v)
    ensures Necessary(Canonical(v)) ==> Necessary(v)
    decreases v, 1
  {
    hide LooksNecessary, CanonicalEntries, SortEntries;
    match v
    case Map(es) =>
      LooksCanonical(v);
      if Necessary(Canonical(v)) && !LooksNecessary(v) {
        CanonicalMembers(es);
        var cs := Canonical(v).entries;
        var i :| 0 <= i < |cs| && NecessaryEntry(cs[i]);
        var k := OriginalEntry(es, cs[i]);
        EntryCanonical(es[k]);
      }
    case Array(items) =>
      if Necessary(Canonical(v)) {
        var i :| 0 <= i < |Canonical(v).items| && Necessary(Canonical(v).items[i]);
        NecessaryCanonical(items[i]);
      }
    case _ =>
  }

  lemma OriginalEntry(es: seq<Entry>, f: Entry) returns (k: nat)
    requires Encodable(Map(es)) && Canonical(Map(es)).Map? && f in Canonical(Map(es)).entries
    ensures k < |es| && EncodableEntry(es[k]) && f == CanonicalEntry(es[k])
  {
    hide Canonical;
    CanonicalMembers(es);
    var e :| e in es && EncodableEntry(e) && f == CanonicalEntry(e);
    k :| k < |es| && es[k] == e;
  }

  lemma {:induction false} EntryCanonical(e: Entry)
    requires EncodableEntry(e)
    ensures NecessaryEntry(CanonicalEntry(e)) ==> NecessaryEntry(e)
    decreases e, 0
  { NecessaryCanonical(e.value); }

  lemma LooksCanonical(v: Value)
    requires Encodable(v)
    ensures LooksNecessary(Canonical(v)) ==> LooksNecessary(v)
  {
    hide Optional, ValidIdentity, Encodable, Canonical;
    OptionalCanonical(v, 0);
    OptionalCanonical(v, 1);
    OptionalCanonical(v, 2);
    CanonicalLeaf(Optional(v, 0));
    if Optional(v, 1).Some? { CanonicalBool(Optional(v, 1).value); }
  }

  lemma CanonicalBool(v: Value)
    requires Encodable(v)
    ensures Canonical(v) == Bool(true) ==> v == Bool(true)
  {
  }

  lemma {:induction false} UnknownCanonical(v: Value)
    requires Encodable(v)
    ensures UnknownNode(Canonical(v)) == UnknownNode(v)
    decreases Items(v), 0, 0
  {
    hide Optional, Encodable, Canonical, UnknownKind;
    OptionalCanonical(v, 0);
    OptionalCanonical(v, 2);
    CanonicalLeaf(Optional(v, 0));
    CanonicalLeaf(Optional(v, 2));
    var children := Optional(v, 2);
    if children.Some? && children.value.Array? {
      EncodableItems(children.value);
      CanonicalArray(children.value.items);
      OptionalSmaller(v, 2);
      UnknownAllCanonical(children.value.items);
    }
  }

  lemma {:induction false} UnknownAllCanonical(vs: seq<Value>)
    requires forall i | 0 <= i < |vs| :: Encodable(vs[i])
    ensures UnknownNodes(CanonicalAll(vs)) == UnknownNodes(vs)
    decreases ItemsAll(vs), 1, |vs|
  {
    hide Encodable, Canonical, UnknownNode;
    if vs != [] {
      UnknownCanonical(vs[0]);
      UnknownAllCanonical(vs[1..]);
      assert CanonicalAll(vs)[1..] == CanonicalAll(vs[1..]);
    }
  }

  // ----- Compiled elements -----

  /** A map whose values are numbers or text, or whose keys are text. */
  lemma PlainMap(es: seq<Entry>)
    requires forall e | e in es :: e.value.Int? || e.value.Text? || e.value.Blob?
    ensures !Necessary(Map(es))
  {
    hide ValidIdentity;
    forall i | 0 <= i < |es|
      ensures !NecessaryEntry(es[i])
    { assert es[i] in es; }
    if Lookup(es, 1).Some? {
      var i := LookupIndex(es, 1);
      assert es[i] in es;
    }
    assert !LooksNecessary(Map(es));
  }

  lemma {:induction false} CompiledAttrsPlain(attrs: seq<XmlAttr>, allowed: set<nat>)
    requires CompileAttrs(attrs, allowed).Some?
    ensures forall e | e in CompileAttrs(attrs, allowed).value :: e.value.Int? || e.value.Text?
    decreases |attrs|
  {
    hide Executed, SourceInteger;
    if attrs != [] { CompiledAttrsPlain(attrs[..|attrs| - 1], allowed); }
  }

  lemma MetadataPlain(x: Xml, inert: seq<Entry>)
    requires TextOnly(inert)
    ensures !Necessary(Source(x, inert))
  {
    hide ValidIdentity, Metadata, Blank, KindId;
    PlainMap(inert);
    SourceIsOptional(x, inert);
    LookupRemembered(x, inert, 0);
    var m := Metadata(x, inert);
    assert !LooksNecessary(m);
    forall i | 0 <= i < |m.entries|
      ensures !NecessaryEntry(m.entries[i])
    { MetadataEntry(x, inert, i); }
    var es := Source(x, inert).entries;
    assert es[1] == Entry(Int(1), Bool(false));
    LookupThree(Text(SOURCE_METADATA), Bool(false), m);
    forall i | 0 <= i < 3
      ensures !NecessaryEntry(es[i])
    { }
  }

  lemma MetadataEntry(x: Xml, inert: seq<Entry>, i: nat)
    requires i < |Metadata(x, inert).entries| && TextOnly(inert)
    ensures Metadata(x, inert).Map? && !NecessaryEntry(Metadata(x, inert).entries[i])
  {
    hide Blank, KindId, ValidIdentity;
    PlainMap(inert);
    PlainMap([]);
    var e := Metadata(x, inert).entries[i];
    assert e.value.Text? || e.value == Map(inert) || e.value == Map([]);
  }

  lemma AssembledPlain(x: Xml, attrs: seq<Entry>, inert: seq<Entry>, children: seq<Value>)
    requires TextOnly(inert) && !Necessary(Map(attrs)) && !Necessary(Array(children))
    ensures !Necessary(Assemble(x, attrs, inert, children))
  {
    hide ValidIdentity, Remembered, Metadata, Source;
    var v := Assemble(x, attrs, inert, children);
    AssembledFields(x, attrs, inert, children);
    MetadataPlain(x, inert);
    var extensions := Array([Source(x, inert)]);
    assert !Necessary(extensions);
    forall i | 0 <= i < |v.entries|
      ensures !NecessaryEntry(v.entries[i])
    { AssembledEntry(x, attrs, inert, children, i); }
    assert !LooksNecessary(v);
  }

  lemma AssembledEntry(x: Xml, attrs: seq<Entry>, inert: seq<Entry>, children: seq<Value>, i: nat)
    requires !Necessary(Map(attrs)) && !Necessary(Array(children)) && !Necessary(Array([Source(x, inert)]))
    requires i < |Assemble(x, attrs, inert, children).entries|
    ensures Assemble(x, attrs, inert, children).Map? && !NecessaryEntry(Assemble(x, attrs, inert, children).entries[i])
  {
    hide ValidIdentity, Remembered, Metadata, Kind;
    var e := Assemble(x, attrs, inert, children).entries[i];
    assert e.value.Int? || e.value == Map(attrs) || e.value == Array(children) || e.value == Array([Source(x, inert)]);
  }

  lemma {:induction false} CompiledPlain(x: Xml, parent: string, inOptions: bool, ancestor: bool, depth: nat)
    requires Compile(x, parent, inOptions, ancestor, depth).Some?
    ensures !Necessary(Compile(x, parent, inOptions, ancestor, depth).value)
    ensures UnknownNode(Compile(x, parent, inOptions, ancestor, depth).value) == Some(false)
    decreases x, 0
  {
    hide Assemble, CompileAttrs, InertAttrs, Allowed, ExecutablePath, TextOnly, Optional, Necessary, UnknownKind,
      RequiredExtensions, TagOf;
    var active := ExecutablePath(x.tag, parent, inOptions, ancestor);
    var allowed := Allowed(x.tag, parent, inOptions, ancestor);
    var attrs, inert := CompileAttrs(x.attrs, allowed).value, InertAttrs(x.attrs, allowed);
    var children := CompileAll(x.children, x.tag, inOptions, active, depth + 1).value;
    InertIsText(x.attrs, allowed);
    CompiledAttrsPlain(x.attrs, allowed);
    PlainMap(attrs);
    AllCompiledPlain(x.children, x.tag, inOptions, active, depth + 1);
    PlainArray(children);
    AssembledPlain(x, attrs, inert, children);
    AssembledFields(x, attrs, inert, children);
    AssembledTag(x, attrs, inert, children);
  }

  lemma PlainArray(vs: seq<Value>)
    requires forall i | 0 <= i < |vs| :: !Necessary(vs[i])
    ensures !Necessary(Array(vs))
  {
  }

  lemma {:induction false} AllCompiledPlain(xs: seq<Xml>, parent: string, inOptions: bool, ancestor: bool, depth: nat)
    requires CompileAll(xs, parent, inOptions, ancestor, depth).Some?
    ensures forall i | 0 <= i < |CompileAll(xs, parent, inOptions, ancestor, depth).value| ::
              !Necessary(CompileAll(xs, parent, inOptions, ancestor, depth).value[i])
    ensures UnknownNodes(CompileAll(xs, parent, inOptions, ancestor, depth).value) == Some(false)
    decreases xs, 0
  {
    hide Compile, Necessary, UnknownNode;
    if xs != [] {
      CompiledPlain(xs[0], parent, inOptions, ancestor, depth);
      AllCompiledPlain(xs[1..], parent, inOptions, ancestor, depth);
      var vs := CompileAll(xs, parent, inOptions, ancestor, depth).value;
      assert vs[1..] == CompileAll(xs[1..], parent, inOptions, ancestor, depth).value;
    }
  }

  // ----- Databases -----

  lemma ProfilesPlain(ps: seq<Profile>)
    requires CompileProfiles(ps).Some?
    ensures !Necessary(Map(CompileProfiles(ps).value))
  {
    hide Compile, CompileProfiles, ValidIdentity;
    var es := CompileProfiles(ps).value;
    CompiledLength(ps);
    forall i: nat | i < |es|
      ensures !NecessaryEntry(es[i]) && es[i].key.Text?
    {
      CompiledProfiles(ps, i);
      CompiledPlain(ps[i].root, "", false, true, 0);
    }
    if Lookup(es, 1).Some? { var i := LookupKey(es, 1); }
  }

  lemma {:induction false} LookupKey(es: seq<Entry>, key: nat) returns (i: nat)
    requires Lookup(es, key).Some?
    ensures i < |es| && es[i].key.Int? && es[i].value == Lookup(es, key).value
  {
    if es[0].key.Int? && es[0].key.n == key { i := 0; } else { var j := LookupKey(es[1..], key); i := j + 1; }
  }

  lemma RootPlain(revision: string, options: Value, profiles: seq<Entry>, manifest: Value, snapshot: Bytes)
    requires !Necessary(options) && !Necessary(Map(profiles)) && !Necessary(manifest)
    ensures !Necessary(RootOf(revision, options, profiles, manifest, snapshot))
  {
    hide ValidIdentity, Lookup;
    var root := RootOf(revision, options, profiles, manifest, snapshot);
    var es := root.entries;
    assert Numbered(es);
    LookupNumbered(es, 0);
    assert Optional(root, 0) == Some(Blob(MAGIC));
    assert !LooksNecessary(root);
    forall i | 0 <= i < |es|
      ensures !NecessaryEntry(es[i])
    { RootEntry(revision, options, profiles, manifest, snapshot, i); }
  }

  lemma RootEntry(revision: string, options: Value, profiles: seq<Entry>, manifest: Value, snapshot: Bytes, i: nat)
    requires !Necessary(options) && !Necessary(Map(profiles)) && !Necessary(manifest)
    requires i < |RootOf(revision, options, profiles, manifest, snapshot).entries|
    ensures !NecessaryEntry(RootOf(revision, options, profiles, manifest, snapshot).entries[i])
  {
    hide ValidIdentity;
    var v := RootOf(revision, options, profiles, manifest, snapshot).entries[i].value;
    assert v == options || v == Map(profiles) || v == manifest || v.Int? || v.Text? || v.Blob?;
  }

  lemma {:induction false} KnownProfiles(es: seq<Entry>)
    requires forall i | 0 <= i < |es| :: UnknownNode(es[i].value) == Some(false)
    ensures UnknownProfiles(es) == Some(false)
  {
    hide UnknownNode;
    if es != [] {
      assert UnknownNode(es[0].value) == Some(false);
      forall i | 0 <= i < |es| - 1
        ensures UnknownNode(es[1..][i].value) == Some(false)
      { assert es[1..][i] == es[i + 1]; }
      KnownProfiles(es[1..]);
    }
  }

  /** The canonical profile entries hold known nodes. */
  lemma CanonicalProfilesKnown(ps: seq<Profile>, es: seq<Entry>, cs: seq<Entry>)
    requires CompileProfiles(ps) == Some(es) && Encodable(Map(es)) && Canonical(Map(es)) == Map(cs)
    ensures UnknownProfiles(cs) == Some(false)
  {
    hide Compile, CompileProfiles, Canonical, UnknownNode, Encodable;
    CanonicalMembers(es);
    CompiledLength(ps);
    forall i | 0 <= i < |cs|
      ensures UnknownNode(cs[i].value) == Some(false)
    {
      assert cs[i] in cs;
      var e :| e in es && EncodableEntry(e) && cs[i] == CanonicalEntry(e);
      var k: nat :| k < |es| && es[k] == e;
      CompiledProfiles(ps, k);
      CompiledPlain(ps[k].root, "", false, true, 0);
      UnknownCanonical(es[k].value);
    }
    KnownProfiles(cs);
  }

  /** Every converted database authorises its XML sources. */
  lemma ConvertedAuthorises(s: Sources, given: Option<string>, sha: Bytes -> Bytes)
    requires Convert(s, given, sha).Some?
    ensures var root := Convert(s, given, sha).value;
            Optional(root, 8).Some? && FallbackManifest(root) == Optional(root, 8)
                && Optional(root, 8) != Some(Bool(false))
  {
    hide Compile, CompileProfiles, Encodable, Optional, EncodeSpec, Canonical, Necessary, UnknownNode,
      UnknownProfiles, Valid, Checked, ReadManifest;
    var options, profiles := Compile(s.options, "", true, true, 0).value, CompileProfiles(s.profiles).value;
    var manifest := ManifestOf(s);
    var revision, snapshot := Revision(given, options).value, sha(EncodeSpec(manifest).value);
    var root := RootOf(revision, options, profiles, manifest, snapshot);
    Stored(root, sha);
    CompiledPlain(s.options, "", true, true, 0);
    ProfilesPlain(s.profiles);
    PlainMap(manifest.entries);
    RootPlain(revision, options, profiles, manifest, snapshot);
    NecessaryCanonical(root);
    RootFields(revision, options, profiles, manifest, snapshot);
    OptionalCanonical(root, 5);
    OptionalCanonical(root, 6);
    UnknownCanonical(options);
    CanonicalMap(Map(profiles));
    CanonicalProfilesKnown(s.profiles, profiles, Canonical(Map(profiles)).entries);
    RequiredExtensionsCanonical(root, 7);
    ValidParts(Canonical(root), sha);
    ManifestIsMap(Optional(Canonical(root), 8).value);
  }

  lemma CanonicalMap(v: Value)
    requires v.Map? && Encodable(v)
    ensures Canonical(v).Map?
  {
  }

  lemma ManifestIsMap(v: Value)
    requires ReadManifest(v).Some?
    ensures v.Map?
  {
  }
}
