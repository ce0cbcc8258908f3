/** What the converter keeps of its sources beside what executes: other attributes,
    unknown tags and text are remembered, and the revision is the options' date. */
module Retained {
  import opened Base
  import opened Cbor
  import opened CborEncode
  import opened Database
  import opened Schema
  import opened Compiler
  import opened Conversion
  import DecodeOrder

  /** The attribute of the source, by a name that tells namespaces apart. */
  predicate Records(e: Entry, a: XmlAttr) {
    && e.key.Text? && e.value == Text(a.value)
    && match a.space
       case None => e.key.text == a.name
       case Some(space) => e.key.text == "{" + space + "}" + a.name
  }

  lemma NameRecords(a: XmlAttr)
    ensures Records(Entry(Text(InertName(a)), Text(a.value)), a)
  {
  }

  lemma {:induction false} InertFrom(attrs: seq<XmlAttr>, allowed: set<nat>, e: Entry) returns (a: XmlAttr)
    requires e in InertAttrs(attrs, allowed)
    ensures a in attrs && !Executed(a, allowed) && Records(e, a)
    decreases |attrs|
  {
    hide Executed, Records, InertName;
    var init, last := attrs[..|attrs| - 1], attrs[|attrs| - 1];
    if e in InertAttrs(init, allowed) {
      a := InertFrom(init, allowed, e);
    } else {
      NameRecords(last);
      a := last;
    }
  }

  lemma {:induction false} InertOf(attrs: seq<XmlAttr>, allowed: set<nat>, a: XmlAttr) returns (e: Entry)
    requires a in attrs && !Executed(a, allowed)
    ensures e in InertAttrs(attrs, allowed) && Records(e, a)
    decreases |attrs|
  {
    hide Executed, Records, InertName;
    var init, last := attrs[..|attrs| - 1], attrs[|attrs| - 1];
    if a == last {
      NameRecords(last);
      e := Entry(Text(InertName(last)), Text(last.value));
      assert InertAttrs(attrs, allowed) == InertAttrs(init, allowed) + [e];
    } else {
      assert attrs == init + [last];
      e := InertOf(init, allowed, a);
    }
  }

  /** Exactly the attributes that do not execute are remembered as text. */
  lemma InertMeans(attrs: seq<XmlAttr>, allowed: set<nat>)
    ensures forall e | e in InertAttrs(attrs, allowed) :: exists a | a in attrs ::
            !Executed(a, allowed) && Records(e, a)
    ensures forall a | a in attrs && !Executed(a, allowed) :: exists e | e in InertAttrs(attrs, allowed) ::
            Records(e, a)
  {
    hide Executed, Records, InertAttrs;
    forall e | e in InertAttrs(attrs, allowed)
      ensures exists a | a in attrs :: !Executed(a, allowed) && Records(e, a)
    { var a := InertFrom(attrs, allowed, e); }
    forall a | a in attrs && !Executed(a, allowed)
      ensures exists e | e in InertAttrs(attrs, allowed) :: Records(e, a)
    { var e := InertOf(attrs, allowed, a); }
  }

  /** The entry of an attribute that executes. */
  predicate Sets(e: Entry, a: XmlAttr) {
    && a.space.None? && e.key.Int? && 0 <= e.key.n < 16 && ATTRIBUTES[e.key.n] == a.name
    && (if e.key.n in {6, 7, 8, 12} then e.value.Int? && SourceInteger(a.value, e.key.n) == Some(e.value.n)
        else e.value == Text(a.value))
  }

  lemma {:induction false} ActiveFrom(attrs: seq<XmlAttr>, allowed: set<nat>, e: Entry) returns (a: XmlAttr)
    requires CompileAttrs(attrs, allowed).Some? && e in CompileAttrs(attrs, allowed).value
    ensures a in attrs && Executed(a, allowed) && Sets(e, a)
    decreases |attrs|
  {
    hide CompileAttr, Executed, Sets, AttributeId;
    var init, last := attrs[..|attrs| - 1], attrs[|attrs| - 1];
    if e in CompileAttrs(init, allowed).value {
      a := ActiveFrom(init, allowed, e);
    } else {
      var f := CompiledSets(last, allowed);
      a := last;
    }
  }

  lemma {:induction false} ActiveOf(attrs: seq<XmlAttr>, allowed: set<nat>, a: XmlAttr) returns (e: Entry)
    requires CompileAttrs(attrs, allowed).Some? && a in attrs && Executed(a, allowed)
    ensures e in CompileAttrs(attrs, allowed).value && Sets(e, a)
    decreases |attrs|
  {
    hide CompileAttr, Executed, Sets, AttributeId;
    var init, last := attrs[..|attrs| - 1], attrs[|attrs| - 1];
    if a == last {
      e := CompiledSets(last, allowed);
      assert CompileAttrs(attrs, allowed).value == CompileAttrs(init, allowed).value + [e];
    } else {
      assert attrs == init + [last];
      e := ActiveOf(init, allowed, a);
    }
  }

  /** And exactly those that do are compiled under their numbers. */
  lemma ActiveMeans(attrs: seq<XmlAttr>, allowed: set<nat>)
    requires CompileAttrs(attrs, allowed).Some?
    ensures var es := CompileAttrs(attrs, allowed).value;
            && (forall e | e in es :: exists a | a in attrs :: Executed(a, allowed) && Sets(e, a))
            && (forall a | a in attrs && Executed(a, allowed) :: exists e | e in es :: Sets(e, a))
  {
    hide Executed, Sets, CompileAttrs;
    var es := CompileAttrs(attrs, allowed).value;
    forall e | e in es
      ensures exists a | a in attrs :: Executed(a, allowed) && Sets(e, a)
    { var a := ActiveFrom(attrs, allowed, e); }
    forall a | a in attrs && Executed(a, allowed)
      ensures exists e | e in es :: Sets(e, a)
    { var e := ActiveOf(attrs, allowed, a); }
  }

  lemma CompiledSets(a: XmlAttr, allowed: set<nat>) returns (e: Entry)
    requires Executed(a, allowed) && CompileAttr(a, AttributeId(a.name).value).Some?
    ensures e == Entry(Int(AttributeId(a.name).value), CompileAttr(a, AttributeId(a.name).value).value) && Sets(e, a)
  {
    hide SourceInteger, IndexOf;
    var id := AttributeId(a.name).value;
    e := Entry(Int(id), CompileAttr(a, id).value);
  }

  /** A compiled element: its attributes in field 1, its children in field 2, and in
      its source metadata, if there is anything to remember, all the rest. */
  lemma CompiledKeeps(x: Xml, parent: string, inOptions: bool, ancestor: bool, depth: nat)
    requires Compile(x, parent, inOptions, ancestor, depth).Some?
    ensures var v := Compile(x, parent, inOptions, ancestor, depth).value;
            var allowed := Allowed(x.tag, parent, inOptions, ancestor);
            var inert := InertAttrs(x.attrs, allowed);
            && CompileAttrs(x.attrs, allowed).Some? && Optional(v, 1) == Some(Map(CompileAttrs(x.attrs, allowed).value))
            && Optional(v, 2).Some? && Optional(v, 2).value.Array? && |Optional(v, 2).value.items| == |x.children|
            && (Optional(v, 3).None? <==> inert == [] && KindId(x.tag).Some? && Blank(x.head) && Blank(x.tail))
            && (Optional(v, 3).Some? ==>
                  exists m :: Optional(v, 3) == Some(Array([m])) && Remembering(m, x, inert))
  {
    hide CompileAttrs, InertAttrs, Allowed, Assemble, KindId, Blank, Metadata;
    var v, allowed := Compile(x, parent, inOptions, ancestor, depth).value, Allowed(x.tag, parent, inOptions, ancestor);
    var attrs, inert := CompileAttrs(x.attrs, allowed).value, InertAttrs(x.attrs, allowed);
    var children := CompileAll(x.children, x.tag, inOptions, ExecutablePath(x.tag, parent, inOptions, ancestor),
                               depth + 1);
    AllCompiled(x.children, x.tag, inOptions, ExecutablePath(x.tag, parent, inOptions, ancestor), depth + 1);
    AssembledFields(x, attrs, inert, children.value);
    NothingRemembered(x, inert);
    SourceRemembers(x, inert);
  }

  ghost predicate Remembering(m: Value, x: Xml, inert: seq<Entry>) {
    && Optional(m, 0) == Some(Text(SOURCE_METADATA)) && Optional(m, 1) == Some(Bool(false)) && Optional(m, 2).Some?
    && var payload := Optional(m, 2).value;
       && Optional(payload, 0) == Some(Map(inert))
       && Optional(payload, 1) == (if KindId(x.tag).None? then Some(Text(x.tag)) else None)
       && Optional(payload, 2) == (if Blank(x.head) then None else Some(Text(x.head)))
       && Optional(payload, 3) == (if Blank(x.tail) then None else Some(Text(x.tail)))
  }

  lemma SourceRemembers(x: Xml, inert: seq<Entry>)
    ensures Remembering(Source(x, inert), x, inert)
  {
    hide Metadata, KindId, Blank, Lookup;
    LookupThree(Text(SOURCE_METADATA), Bool(false), Metadata(x, inert));
    forall key: nat | key < 4
      ensures Optional(Metadata(x, inert), key) ==
              if key == 0 then Some(Map(inert))
              else if key == 1 && KindId(x.tag).None? then Some(Text(x.tag))
              else if key == 2 && !Blank(x.head) then Some(Text(x.head))
              else if key == 3 && !Blank(x.tail) then Some(Text(x.tail))
              else None
    { LookupRemembered(x, inert, key); }
  }

  lemma NothingRemembered(x: Xml, inert: seq<Entry>)
    ensures Remembered(x, inert) == [] <==> inert == [] && KindId(x.tag).Some? && Blank(x.head) && Blank(x.tail)
  {
    hide KindId, Blank;
  }

  lemma {:induction false} AllCompiled(xs: seq<Xml>, parent: string, inOptions: bool, ancestor: bool, depth: nat)
    requires CompileAll(xs, parent, inOptions, ancestor, depth).Some?
    ensures |CompileAll(xs, parent, inOptions, ancestor, depth).value| == |xs|
    decreases |xs|
  {
    hide Compile;
    if xs != [] { AllCompiled(xs[1..], parent, inOptions, ancestor, depth); }
  }

  // ----- The revision -----

  /** The revision of a converted database is the one that is asked for, or else the
      date of its options. */
  lemma RevisionMeans(s: Sources, given: Option<string>, sha: Bytes -> Bytes)
    requires Convert(s, given, sha).Some?
    ensures exists revision ::
              && Optional(Convert(s, given, sha).value, 2) == Some(Text(revision)) && revision != ""
              && if given.Some? then revision == given.value
                 else exists a | a in s.options.attrs :: a.space.None? && a.name == "date" && a.value == revision
  {
    hide Compile, CompileProfiles, Valid, Canonical, Encodable, Optional, ReadDocument, EncodeSpec, DecodeValue,
      Revision, RootOf, ManifestOf;
    var options, profiles := Compile(s.options, "", true, true, 0).value, CompileProfiles(s.profiles).value;
    var manifest := ManifestOf(s);
    var revision, snapshot := Revision(given, options).value, sha(EncodeSpec(manifest).value);
    var root := RootOf(revision, options, profiles, manifest, snapshot);
    Stored(root, sha);
    RevisionField(revision, options, profiles, manifest, snapshot);
    DecodeOrder.OptionalCanonical(root, 2);
    CanonicalText(revision);
    if given.None? { DateOf(s.options, options); } else { RevisionGiven(given, options); }
  }

  lemma RevisionGiven(given: Option<string>, options: Value)
    requires given.Some?
    ensures Revision(given, options) == given
  {
  }

  lemma RevisionField(revision: string, options: Value, profiles: seq<Entry>, manifest: Value, snapshot: Bytes)
    ensures Optional(RootOf(revision, options, profiles, manifest, snapshot), 2) == Some(Text(revision))
  {
    hide Items, Lookup;
    var es := RootOf(revision, options, profiles, manifest, snapshot).entries;
    assert Numbered(es);
    LookupNumbered(es, 2);
  }

  lemma CanonicalText(text: string)
    requires Encodable(Text(text))
    ensures Canonical(Text(text)) == Text(text)
  {
  }

  lemma DateOf(x: Xml, v: Value)
    requires Compile(x, "", true, true, 0) == Some(v) && Revision(None, v).Some?
    ensures exists a | a in x.attrs :: a.space.None? && a.name == "date" && a.value == Revision(None, v).value
  {
    hide Allowed, InertAttrs, CompileAttrs, Compile, Optional, Executed, Remembering, Sets;
    CompiledKeeps(x, "", true, true, 0);
    var allowed := Allowed(x.tag, "", true, true);
    var es := CompileAttrs(x.attrs, allowed).value;
    ActiveMeans(x.attrs, allowed);
    var e := Found(es, 13);
    var a :| a in x.attrs && Executed(a, allowed) && Sets(e, a);
    SetsDate(e, a);
  }

  /** An options element has a revision of its own exactly when it has a date. */
  lemma DateFound(x: Xml, v: Value)
    requires Compile(x, "", true, true, 0) == Some(v) && x.tag == "options"
    ensures Revision(None, v).Some? <==> exists a | a in x.attrs :: a.space.None? && a.name == "date"
  {
    hide Allowed, InertAttrs, CompileAttrs, Compile, Optional, Executed, Remembering, Sets;
    if Revision(None, v).Some? { DateOf(x, v); }
    if a :| a in x.attrs && a.space.None? && a.name == "date" {
      CompiledKeeps(x, "", true, true, 0);
      DateExecutes(a);
      var text := DateCompiled(x.attrs, Allowed(x.tag, "", true, true), a);
    }
  }

  lemma DateCompiled(attrs: seq<XmlAttr>, allowed: set<nat>, a: XmlAttr) returns (text: string)
    requires CompileAttrs(attrs, allowed).Some? && a in attrs && Executed(a, allowed) && a.name == "date"
    ensures Optional(Map(CompileAttrs(attrs, allowed).value), 13) == Some(Text(text))
  {
    hide CompileAttrs, Optional, Executed, Sets;
    var es := CompileAttrs(attrs, allowed).value;
    var e := ActiveOf(attrs, allowed, a);
    DateSet(e, a);
    var f := FirstWith(es, 13, e);
    var b := ActiveFrom(attrs, allowed, f);
    SetsDate(f, b);
    text := b.value;
  }

  lemma DateExecutes(a: XmlAttr)
    requires a.space.None? && a.name == "date"
    ensures Executed(a, Allowed("options", "", true, true))
  {
    hide IndexOf;
    assert ATTRIBUTES[13] == "date" && "date" in ATTRIBUTES;
    DecodeOrder.AttributesDistinct(13);
  }

  lemma DateSet(e: Entry, a: XmlAttr)
    requires Sets(e, a) && a.name == "date"
    ensures e.key.Int? && e.key.n == 13
  {
    hide IndexOf;
    assert ATTRIBUTES[13] == "date";
    DecodeOrder.AttributesDistinct(13);
    DecodeOrder.AttributesDistinct(e.key.n);
  }

  lemma {:induction false} FirstWith(es: seq<Entry>, key: nat, e: Entry) returns (f: Entry)
    requires e in es && e.key.Int? && e.key.n == key
    ensures f in es && f.key.Int? && f.key.n == key && Optional(Map(es), key) == Some(f.value)
    decreases |es|
  {
    if es[0].key.Int? && es[0].key.n == key { f := es[0]; } else { f := FirstWith(es[1..], key, e); }
  }

  lemma SetsDate(e: Entry, a: XmlAttr)
    requires Sets(e, a) && e.key.n == 13
    ensures a.space.None? && a.name == "date" && e.value == Text(a.value)
  {
  }

  lemma {:induction false} Found(es: seq<Entry>, key: nat) returns (e: Entry)
    requires Optional(Map(es), key).Some?
    ensures e in es && e.key.Int? && e.key.n == key && Optional(Map(es), key) == Some(e.value)
    decreases |es|
  {
    if es[0].key.Int? && es[0].key.n == key { e := es[0]; } else { e := Found(es[1..], key); }
  }
}
