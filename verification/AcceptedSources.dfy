/** Which sources the loader's own XML reader accepts, given that the converter
    accepted them: its limits add nothing but a bound on the text of numbers. */
module AcceptedSources {
  import opened Base
  import opened Cbor
  import opened CborEncode
  import opened Caps
  import opened Schema
  import opened Compiler
  import opened Conversion
  import opened ConversionLoads
  import DecodeOrder
  import Utf8
  import S = Session

  /** Text of a numeric attribute is compiled to a number, so the encoder never sees
      how long it was. */
  predicate ShortNumber(a: XmlAttr) {
    a.space.None? && AttributeId(a.name).Some? && IsNumeric(AttributeId(a.name).value) ==>
        |Utf8.Encode(a.value)| <= MAX_TEXT
  }

  predicate ShortNumbers(x: Xml) {
    (forall i | 0 <= i < |x.attrs| :: ShortNumber(x.attrs[i])) && ShortNumbersAll(x.children)
  }

  predicate ShortNumbersAll(xs: seq<Xml>) { xs == [] || (ShortNumbers(xs[0]) && ShortNumbersAll(xs[1..])) }

  // ----- Attributes -----

  lemma {:induction false} EncodeLength(s: string)
    ensures |Utf8.Encode(s)| <= 4 * |s|
  {
    if s != "" { EncodeLength(s[1..]); }
  }

  lemma ShortName(name: string)
    requires AttributeId(name).Some?
    ensures |Utf8.Encode(name)| <= MAX_TEXT
  {
    hide IndexOf, Utf8.Encode;
    EncodeLength(name);
    var i := AttributeId(name).value;
    assert ATTRIBUTES[i] == name;
    DecodeOrder.SignatureOf(i);
    assert |name| <= 9;
  }

  lemma {:induction false} ExecutedEntry(attrs: seq<XmlAttr>, allowed: set<nat>, i: nat)
    requires i < |attrs| && Executed(attrs[i], allowed) && CompileAttrs(attrs, allowed).Some?
    ensures var id := AttributeId(attrs[i].name).value;
            CompileAttr(attrs[i], id).Some? && id < 256
                && Entry(Int(id), CompileAttr(attrs[i], id).value) in CompileAttrs(attrs, allowed).value
    decreases |attrs|
  {
    hide CompileAttr, IndexOf;
    if i < |attrs| - 1 { ExecutedEntry(attrs[..|attrs| - 1], allowed, i); }
  }

  lemma {:induction false} InertEntry(attrs: seq<XmlAttr>, allowed: set<nat>, i: nat)
    requires i < |attrs| && !Executed(attrs[i], allowed)
    ensures Entry(Text(InertName(attrs[i])), Text(attrs[i].value)) in InertAttrs(attrs, allowed)
    decreases |attrs|
  {
    hide Executed, InertName;
    if i < |attrs| - 1 { InertEntry(attrs[..|attrs| - 1], allowed, i); }
  }

  lemma EntryEncodable(es: seq<Entry>, e: Entry)
    requires Encodable(Map(es)) && e in es
    ensures EncodableEntry(e)
  {
    var i :| 0 <= i < |es| && es[i] == e;
    assert EncodableEntry(es[i]);
  }

  lemma FieldEncodable(v: Value, key: nat)
    requires Encodable(v) && key < 256 && Optional(v, key).Some?
    ensures Encodable(Optional(v, key).value)
  {
    DecodeOrder.OptionalCanonical(v, key);
  }

  /** The parts of an encodable compiled element are encodable. */
  lemma PartsEncodable(x: Xml, attrs: seq<Entry>, inert: seq<Entry>, children: seq<Value>)
    requires Encodable(Assemble(x, attrs, inert, children)) && TextOnly(inert)
    ensures Encodable(Map(attrs)) && Encodable(Array(children)) && (inert != [] ==> Encodable(Map(inert)))
  {
    hide Encodable, Assemble, Metadata, Remembered, Source, Optional;
    var v := Assemble(x, attrs, inert, children);
    AssembledFields(x, attrs, inert, children);
    FieldEncodable(v, 1);
    FieldEncodable(v, 2);
    if inert != [] {
      SomethingRemembered(x, inert);
      FieldEncodable(v, 3);
      ItemEncodable(Source(x, inert));
      SourceIsOptional(x, inert);
      FieldEncodable(Source(x, inert), 2);
      LookupRemembered(x, inert, 0);
      FieldEncodable(Metadata(x, inert), 0);
    }
  }

  lemma SomethingRemembered(x: Xml, inert: seq<Entry>)
    requires inert != []
    ensures Remembered(x, inert) != []
  {
  }

  lemma ItemEncodable(v: Value)
    requires Encodable(Array([v]))
    ensures Encodable(v)
  {
    assert [v][0] == v;
  }

  lemma AttrFits(x: Xml, allowed: set<nat>, i: nat)
    requires i < |x.attrs| && CompileAttrs(x.attrs, allowed).Some? && ShortNumber(x.attrs[i]) && x.attrs[i].space.None?
    requires Encodable(Map(CompileAttrs(x.attrs, allowed).value))
    requires InertAttrs(x.attrs, allowed) != [] ==> Encodable(Map(InertAttrs(x.attrs, allowed)))
    ensures ShortAttr(x.attrs[i])
  {
    hide CompileAttrs, InertAttrs, IndexOf, SourceInteger, Utf8.Encode;
    var a := x.attrs[i];
    if Executed(a, allowed) {
      ShortName(a.name);
      ExecutedEntry(x.attrs, allowed, i);
      var id := AttributeId(a.name).value;
      EntryEncodable(CompileAttrs(x.attrs, allowed).value, Entry(Int(id), CompileAttr(a, id).value));
    } else {
      InertEntry(x.attrs, allowed, i);
      EntryEncodable(InertAttrs(x.attrs, allowed), Entry(Text(InertName(a)), Text(a.value)));
    }
  }

  // ----- Elements -----

  lemma AssembledItems(x: Xml, attrs: seq<Entry>, inert: seq<Entry>, children: seq<Value>)
    ensures ItemsAll(children) < Items(Assemble(x, attrs, inert, children))
  {
    hide Assemble;
    AssembledFields(x, attrs, inert, children);
    assert Items(Array(children)) == 1 + ItemsAll(children);
  }

  /** An accepted element is within the reader's limits, and no larger than its
      compiled form. */
  lemma {:induction false} CompiledFits(x: Xml, parent: string, inOptions: bool, ancestor: bool, depth: nat)
    requires Compile(x, parent, inOptions, ancestor, depth).Some?
             && Encodable(Compile(x, parent, inOptions, ancestor, depth).value)
    requires ShortNumbers(x)
    ensures XmlFits(x, depth) && ElementCount(x) <= Items(Compile(x, parent, inOptions, ancestor, depth).value)
    decreases x, 0
  {
    hide Encodable, Assemble, CompileAttrs, InertAttrs, ShortAttr, ShortNumber, Allowed, ExecutablePath, Items;
    var active := ExecutablePath(x.tag, parent, inOptions, ancestor);
    var allowed := Allowed(x.tag, parent, inOptions, ancestor);
    var attrs, inert := CompileAttrs(x.attrs, allowed).value, InertAttrs(x.attrs, allowed);
    var children := CompileAll(x.children, x.tag, inOptions, active, depth + 1).value;
    InertIsText(x.attrs, allowed);
    PartsEncodable(x, attrs, inert, children);
    forall i | 0 <= i < |x.attrs| && x.attrs[i].space.None?
      ensures ShortAttr(x.attrs[i])
    { AttrFits(x, allowed, i); }
    AssembledItems(x, attrs, inert, children);
    DecodeOrder.EncodableItems(Array(children));
    AllCompiledFit(x.children, x.tag, inOptions, active, depth + 1);
  }

  lemma {:induction false} AllCompiledFit(xs: seq<Xml>, parent: string, inOptions: bool, ancestor: bool, depth: nat)
    requires CompileAll(xs, parent, inOptions, ancestor, depth).Some? && ShortNumbersAll(xs)
    requires forall i | 0 <= i < |CompileAll(xs, parent, inOptions, ancestor, depth).value| ::
               Encodable(CompileAll(xs, parent, inOptions, ancestor, depth).value[i])
    ensures XmlFitsAll(xs, depth)
            && ElementCountAll(xs) <= ItemsAll(CompileAll(xs, parent, inOptions, ancestor, depth).value)
    decreases xs, 0
  {
    hide Encodable, Compile, XmlFits, ShortNumbers, ElementCount, Items;
    if xs != [] {
      var vs := CompileAll(xs, parent, inOptions, ancestor, depth).value;
      assert vs[1..] == CompileAll(xs[1..], parent, inOptions, ancestor, depth).value;
      assert Encodable(vs[0]);
      CompiledFits(xs[0], parent, inOptions, ancestor, depth);
      AllCompiledFit(xs[1..], parent, inOptions, ancestor, depth);
    }
  }

  lemma {:induction false} FitsIsShort(x: Xml, depth: nat)
    requires XmlFits(x, depth)
    ensures ShortNumbers(x)
    decreases x, 0
  {
    hide Utf8.Encode, IndexOf;
    forall i | 0 <= i < |x.attrs|
      ensures ShortNumber(x.attrs[i])
    { if x.attrs[i].space.None? { assert ShortAttr(x.attrs[i]); } }
    AllFitsIsShort(x.children, depth + 1);
  }

  lemma {:induction false} AllFitsIsShort(xs: seq<Xml>, depth: nat)
    requires XmlFitsAll(xs, depth)
    ensures ShortNumbersAll(xs)
    decreases xs, 0
  {
    hide XmlFits, ShortNumbers;
    if xs != [] {
      FitsIsShort(xs[0], depth);
      AllFitsIsShort(xs[1..], depth);
    }
  }

  // ----- Databases -----

  predicate ShortSources(s: Sources) {
    ShortNumbers(s.options) && forall i | 0 <= i < |s.profiles| :: ShortNumbers(s.profiles[i].root)
  }

  lemma {:induction false} EntryItems(es: seq<Entry>, e: Entry)
    requires e in es
    ensures Items(e.value) <= ItemsEntries(es)
  {
    hide Items;
    if e != es[0] {
      assert es == [es[0]] + es[1..];
      EntryItems(es[1..], e);
    }
  }

  /** For sources the converter accepts, the loader's reader accepts them too
      exactly when the text of every number is within the text limit. */
  lemma AcceptedIffShort(s: Sources, given: Option<string>, sha: Bytes -> Bytes)
    requires Convert(s, given, sha).Some?
    ensures Readable(s) <==> ShortSources(s)
  {
    hide XmlFits, ShortNumbers, Convert;
    if Readable(s) {
      FitsIsShort(s.options, 0);
      forall i | 0 <= i < |s.profiles|
        ensures ShortNumbers(s.profiles[i].root)
      { FitsIsShort(s.profiles[i].root, 0); }
    }
    if ShortSources(s) { ShortIsReadable(s, given, sha); }
  }

  lemma ShortIsReadable(s: Sources, given: Option<string>, sha: Bytes -> Bytes)
    requires Convert(s, given, sha).Some? && ShortSources(s)
    ensures Readable(s)
  {
    hide Compile, CompileProfiles, Encodable, Optional, EncodeSpec, Checked, XmlFits, ShortNumbers, ElementCount, Items;
    var options, profiles := Compile(s.options, "", true, true, 0).value, CompileProfiles(s.profiles).value;
    var manifest := ManifestOf(s);
    var revision, snapshot := Revision(given, options).value, sha(EncodeSpec(manifest).value);
    var root := RootOf(revision, options, profiles, manifest, snapshot);
    CheckedFits(root, sha);
    RootFields(revision, options, profiles, manifest, snapshot);
    FieldEncodable(root, 5);
    FieldEncodable(root, 6);
    FieldItems(root, 5);
    FieldItems(root, 6);
    CompiledFits(s.options, "", true, true, 0);
    forall i | 0 <= i < |s.profiles|
      ensures ReadXml(s.profiles[i].root).Some?
    {
      CompiledProfiles(s.profiles, i);
      assert profiles[i] in profiles;
      EntryEncodable(profiles, profiles[i]);
      EntryParts(profiles[i]);
      EntryItems(profiles, profiles[i]);
      MapItems(profiles);
      CompiledFits(s.profiles[i].root, "", false, true, 0);
    }
  }

  lemma EntryParts(e: Entry)
    requires EncodableEntry(e)
    ensures Encodable(e.value)
  {
  }

  lemma MapItems(es: seq<Entry>)
    ensures Items(Map(es)) == 1 + ItemsEntries(es)
  {
  }

  lemma FieldItems(v: Value, key: nat)
    requires Optional(v, key).Some?
    ensures Items(Optional(v, key).value) < Items(v)
  {
  }

  lemma CheckedFits(root: Value, sha: Bytes -> Bytes)
    requires Checked(root, sha).Some?
    ensures Encodable(root) && Items(root) <= MAX_ITEMS
  {
    hide Encodable, Canonical, Items, Wire, Valid, ReadDocument;
    CanonicalDeterministic(root);
  }

  /** Compiler correctness for every database the converter accepts, with the one
      condition under which the XML can be read at all. */
  lemma AcceptedLoadsAlike(s: Sources, given: Option<string>, sha: Bytes -> Bytes, name: string, caps: CapsTable,
                           tolerant: bool)
    requires Convert(s, given, sha).Some? && ShortSources(s)
    ensures EncodeSpec(Convert(s, given, sha).value).Some?
    ensures var cbor, xml := CborContext(EncodeSpec(Convert(s, given, sha).value).value, sha), XmlContext(s);
            && (cbor.Some? <==> xml.Some?)
            && (xml.Some? ==> S.Load(cbor.value, name, caps, tolerant) == S.Load(xml.value, name, caps, tolerant))
  {
    hide Convert, EncodeSpec, CborContext, XmlContext, Readable, ShortSources;
    AcceptedIffShort(s, given, sha);
    ConversionPreservesLoads(s, given, sha, name, caps, tolerant);
  }
}
