/** The offline compiler: an XML element tree becomes a wire value. What the decoder
    then reads is the executable view of the node the loader would own. */
module Compiler {
  import opened Base
  import opened Numbers
  import opened Cbor
  import opened CborEncode
  import opened Database
  import opened Schema

  // ----- Source -----

  datatype XmlAttr = XmlAttr(space: Option<string>, name: string, value: string)

  /** An element with the text before its first child and the text after itself. */
  datatype Xml = Xml(tag: string, attrs: seq<XmlAttr>, head: string, children: seq<Xml>, tail: string, line: nat)

  // ----- Reading XML directly -----

  /** The node the loader owns: attributes of no namespace, children in order. */
  function Owned(x: Xml): Node { Node(x.tag, OwnedAttrs(x.attrs), OwnedAll(x.children), x.line, false) }

  function OwnedAll(xs: seq<Xml>): seq<Node> { if xs == [] then [] else [Owned(xs[0])] + OwnedAll(xs[1..]) }

  function OwnedAttrs(attrs: seq<XmlAttr>): map<string, string>
    decreases |attrs|
  {
    if attrs == [] then map[]
    else
      var last := attrs[|attrs| - 1];
      var before := OwnedAttrs(attrs[..|attrs| - 1]);
      if last.space.None? then before[last.name := last.value] else before
  }

  // ----- The executable view -----

  predicate Executes(name: string, allowed: set<nat>) { AttributeId(name).Some? && AttributeId(name).value in allowed }

  /** `source_integer`: delays are decimal, everything else C-style. */
  function SourceInteger(raw: string, id: nat): (r: Option<int>)
    ensures r.Some? ==> InBounds(id, r.value) && I64_MIN <= r.value <= I64_MAX
  {
    var n := if id == 7 then ParseDecimal(SkipSpaces(raw)) else ParseInteger(SkipSpaces(raw));
    if n.Some? && InBounds(id, n.value) then n else None
  }

  /** An attribute's text with numbers in decimal. */
  function NormalText(name: string, raw: string): string {
    if AttributeId(name).Some? && IsNumeric(AttributeId(name).value)
        && SourceInteger(raw, AttributeId(name).value).Some?
    then ToDecimal(SourceInteger(raw, AttributeId(name).value).value)
    else raw
  }

  function ViewAttrs(attrs: map<string, string>, allowed: set<nat>): map<string, string> {
    map name | name in attrs && Executes(name, allowed) :: NormalText(name, attrs[name])
  }

  function Allowed(tag: string, parent: string, inOptions: bool, ancestor: bool): set<nat> {
    if ExecutablePath(tag, parent, inOptions, ancestor) then ExecutableAttributes(tag, parent, inOptions) else {}
  }

  /** What of a node can have an effect: executable attributes only, numbers in
      decimal, no line numbers. */
  function View(n: Node, parent: string, inOptions: bool, ancestor: bool): Node {
    Node(n.tag, ViewAttrs(n.attrs, Allowed(n.tag, parent, inOptions, ancestor)),
         ViewAll(n.children, n.tag, inOptions, ExecutablePath(n.tag, parent, inOptions, ancestor)), 0, n.required)
  }

  function ViewAll(ns: seq<Node>, parent: string, inOptions: bool, ancestor: bool): (r: seq<Node>)
    ensures |r| == |ns|
  {
    if ns == [] then [] else [View(ns[0], parent, inOptions, ancestor)] + ViewAll(ns[1..], parent, inOptions, ancestor)
  }

  // ----- Compilation -----

  predicate Executed(a: XmlAttr, allowed: set<nat>) { a.space.None? && Executes(a.name, allowed) }

  function CompileAttr(a: XmlAttr, id: nat): Option<Value> {
    if !IsNumeric(id) then Some(Text(a.value))
    else
      match SourceInteger(a.value, id)
      case None => None
      case Some(n) => Some(Int(n))
  }

  function CompileAttrs(attrs: seq<XmlAttr>, allowed: set<nat>): Option<seq<Entry>>
    decreases |attrs|
  {
    if attrs == [] then Some([])
    else
      var last := attrs[|attrs| - 1];
      var before := CompileAttrs(attrs[..|attrs| - 1], allowed);
      if before.None? || !Executed(last, allowed) then before
      else
        var id := AttributeId(last.name).value;
        match CompileAttr(last, id)
        case None => None
        case Some(v) => Some(before.value + [Entry(Int(id), v)])
  }

  function InertName(a: XmlAttr): string { if a.space.Some? then "{" + a.space.value + "}" + a.name else a.name }

  function InertAttrs(attrs: seq<XmlAttr>, allowed: set<nat>): seq<Entry>
    decreases |attrs|
  {
    if attrs == [] then []
    else
      var last := attrs[|attrs| - 1];
      var before := InertAttrs(attrs[..|attrs| - 1], allowed);
      if Executed(last, allowed) then before else before + [Entry(Text(InertName(last)), Text(last.value))]
  }

  /** The attribute loop. */
  method SplitAttributes(attributes: seq<XmlAttr>, allowed: set<nat>)
      returns (attrs: Option<seq<Entry>>, inert: seq<Entry>)
    ensures attrs == CompileAttrs(attributes, allowed)
    ensures attrs.Some? ==> inert == InertAttrs(attributes, allowed)
  {
    hide CompileAttr, IndexOf, InertName;
    var pushed: seq<Entry> := [];
    inert := [];
    for k := 0 to |attributes|
      invariant CompileAttrs(attributes[..k], allowed) == Some(pushed)
      invariant InertAttrs(attributes[..k], allowed) == inert
    {
      var a := attributes[k];
      assert attributes[..k + 1][..k] == attributes[..k];
      if Executed(a, allowed) {
        var id := AttributeId(a.name).value;
        var v := CompileAttr(a, id);
        if v.None? {
          StaysRefused(attributes, k + 1, allowed);
          return None, inert;
        }
        pushed := pushed + [Entry(Int(id), v.value)];
      } else {
        inert := inert + [Entry(Text(InertName(a)), Text(a.value))];
      }
    }
    assert attributes[..|attributes|] == attributes;
    attrs := Some(pushed);
  }

  lemma {:induction false} StaysRefused(attrs: seq<XmlAttr>, k: nat, allowed: set<nat>)
    requires k <= |attrs| && CompileAttrs(attrs[..k], allowed).None?
    ensures CompileAttrs(attrs, allowed).None?
    decreases |attrs|
  {
    if k < |attrs| {
      assert attrs[..|attrs| - 1][..k] == attrs[..k];
      StaysRefused(attrs[..|attrs| - 1], k, allowed);
    } else {
      assert attrs[..k] == attrs;
    }
  }

  function Piece(present: bool, key: nat, v: Value): seq<Entry>
    requires key < 256
  { if present then [Entry(Int(key), v)] else [] }

  /** What does not execute but is kept: attributes, unknown tags and text. */
  function Remembered(x: Xml, inert: seq<Entry>): seq<Entry> {
    Piece(inert != [], 0, Map(inert)) + Piece(KindId(x.tag).None?, 1, Text(x.tag)) +
    Piece(!Blank(x.head), 2, Text(x.head)) + Piece(!Blank(x.tail), 3, Text(x.tail))
  }

  function Metadata(x: Xml, inert: seq<Entry>): Value {
    Map(Remembered(x, inert) + Piece(inert == [], 0, Map([])))
  }

  function Kind(tag: string): (kind: nat)
    ensures kind <= INERT
  { if KindId(tag).Some? then KindId(tag).value else INERT }

  function Assemble(x: Xml, attrs: seq<Entry>, inert: seq<Entry>, children: seq<Value>): Value {
    Map([Entry(Int(0), Int(Kind(x.tag))), Entry(Int(1), Map(attrs)), Entry(Int(2), Array(children))] +
        Piece(Remembered(x, inert) != [], 3,
              Array([Map([Entry(Int(0), Text(SOURCE_METADATA)), Entry(Int(1), Bool(false)),
                  Entry(Int(2), Metadata(x, inert))])])))
  }

  /** `parse_xml`'s recursion; None for a number outside its range or a nesting
      beyond the bound. */
  function Compile(x: Xml, parent: string, inOptions: bool, ancestor: bool, depth: nat): Option<Value> {
    if depth > MAX_DEPTH then None
    else
      var allowed := Allowed(x.tag, parent, inOptions, ancestor);
      match (CompileAttrs(x.attrs, allowed),
             CompileAll(x.children, x.tag, inOptions, ExecutablePath(x.tag, parent, inOptions, ancestor), depth + 1))
      case (Some(attrs), Some(children)) => Some(Assemble(x, attrs, InertAttrs(x.attrs, allowed), children))
      case (_, _) => None
  }

  function CompileAll(xs: seq<Xml>, parent: string, inOptions: bool, ancestor: bool, depth: nat): Option<seq<Value>> {
    if xs == [] then Some([])
    else
      match (Compile(xs[0], parent, inOptions, ancestor, depth),
             CompileAll(xs[1..], parent, inOptions, ancestor, depth))
      case (Some(v), Some(rest)) => Some([v] + rest)
      case (_, _) => None
  }

  // ----- Attributes -----

  lemma {:induction false} AttrsDecode(attrs: seq<XmlAttr>, allowed: set<nat>, permitted: set<nat>)
    requires CompileAttrs(attrs, allowed).Some? && allowed <= permitted
    ensures NoNulAttrs(attrs) ==> DecodeAttrs(CompileAttrs(attrs, allowed).value, permitted).Some?
    ensures DecodeAttrs(CompileAttrs(attrs, allowed).value, permitted).Some? ==>
              DecodeAttrs(CompileAttrs(attrs, allowed).value, permitted).value == ViewAttrs(OwnedAttrs(attrs), allowed)
    ensures forall e | e in CompileAttrs(attrs, allowed).value :: IsUint(e.key)
    decreases |attrs|
  {
    hide NormalText, CompileAttr, DecodeAttr;
    if attrs != [] {
      var init, last := attrs[..|attrs| - 1], attrs[|attrs| - 1];
      AttrsDecode(init, allowed, permitted);
      var before, after := CompileAttrs(init, allowed).value, CompileAttrs(attrs, allowed).value;
      if Executed(last, allowed) {
        assert after[..|after| - 1] == before;
        AttrDecodes(last, allowed, permitted);
      }
      ViewInsert(OwnedAttrs(init), last, allowed);
    }
  }

  predicate NoNulAttrs(attrs: seq<XmlAttr>) { forall i | 0 <= i < |attrs| :: '\0' !in attrs[i].value }

  lemma AttrDecodes(a: XmlAttr, allowed: set<nat>, permitted: set<nat>)
    requires Executed(a, allowed) && allowed <= permitted && CompileAttr(a, AttributeId(a.name).value).Some?
    ensures var id := AttributeId(a.name).value;
            var r := DecodeAttr(Entry(Int(id), CompileAttr(a, id).value), permitted);
            && ('\0' !in a.value ==> !r.BadAttr?)
            && (!r.BadAttr? ==> r == AttrRead.Kept(a.name, NormalText(a.name, a.value)))
  {
    hide SourceInteger, InBounds, IndexOf, ToDecimal;
  }

  lemma ViewInsert(attrs: map<string, string>, a: XmlAttr, allowed: set<nat>)
    ensures ViewAttrs(attrs[a.name := a.value], allowed) ==
            if Executes(a.name, allowed) then ViewAttrs(attrs, allowed)[a.name := NormalText(a.name, a.value)]
                else ViewAttrs(attrs, allowed)
  {
    hide NormalText, Executes;
  }

  // ----- Metadata -----

  lemma LookupConcat(a: seq<Entry>, b: seq<Entry>, key: nat)
    ensures Lookup(a + b, key) == if Lookup(a, key).Some? then Lookup(a, key) else Lookup(b, key)
  {
    if a != [] {
      assert (a + b)[1..] == a[1..] + b;
      LookupConcat(a[1..], b, key);
    } else {
      assert a + b == b;
    }
  }

  lemma LookupPiece(present: bool, k: nat, v: Value, key: nat)
    requires k < 256
    ensures Lookup(Piece(present, k, v), key) == if present && k == key then Some(v) else None
  {
  }

  lemma LookupThree(v0: Value, v1: Value, v2: Value)
    ensures var es := [Entry(Int(0), v0), Entry(Int(1), v1), Entry(Int(2), v2)];
            Lookup(es, 0) == Some(v0) && Lookup(es, 1) == Some(v1) && Lookup(es, 2) == Some(v2) && Lookup(es, 3) == None
  {
    var e0, e1, e2 := Entry(Int(0), v0), Entry(Int(1), v1), Entry(Int(2), v2);
    forall key: nat
      ensures Lookup([e0, e1, e2], key) == if key == 0 then Some(v0) else if key == 1 then Some(v1)
              else if key == 2 then Some(v2) else None
    {
      LookupConcat([e0], [e1, e2], key);
      LookupConcat([e1], [e2], key);
      assert [e0] + [e1, e2] == [e0, e1, e2] && [e1] + [e2] == [e1, e2];
    }
  }

  lemma LookupRemembered(x: Xml, inert: seq<Entry>, key: nat)
    ensures Optional(Metadata(x, inert), key) ==
            if key == 0 then Some(Map(inert))
            else if key == 1 && KindId(x.tag).None? then Some(Text(x.tag))
            else if key == 2 && !Blank(x.head) then Some(Text(x.head))
            else if key == 3 && !Blank(x.tail) then Some(Text(x.tail))
            else None
  {
    hide Piece, Lookup, KindId, Blank;
    var a, b, c, d, e := Piece(inert != [], 0, Map(inert)), Piece(KindId(x.tag).None?, 1, Text(x.tag)),
      Piece(!Blank(x.head), 2, Text(x.head)), Piece(!Blank(x.tail), 3, Text(x.tail)), Piece(inert == [], 0, Map([]));
    LookupPiece(inert != [], 0, Map(inert), key);
    LookupPiece(KindId(x.tag).None?, 1, Text(x.tag), key);
    LookupPiece(!Blank(x.head), 2, Text(x.head), key);
    LookupPiece(!Blank(x.tail), 3, Text(x.tail), key);
    LookupPiece(inert == [], 0, Map([]), key);
    LookupConcat(a, b, key);
    LookupConcat(a + b, c, key);
    LookupConcat(a + b + c, d, key);
    LookupConcat(a + b + c + d, e, key);
  }

  lemma {:induction false} InertIsText(attrs: seq<XmlAttr>, allowed: set<nat>)
    ensures TextOnly(InertAttrs(attrs, allowed))
    decreases |attrs|
  {
    hide Executed;
    if attrs != [] { InertIsText(attrs[..|attrs| - 1], allowed); }
  }

  lemma MetadataIsWellFormed(x: Xml, inert: seq<Entry>)
    requires TextOnly(inert)
    ensures MetadataShape(Metadata(x, inert))
  {
    hide Blank, KindId, TextOnly, Lookup;
    LookupRemembered(x, inert, 0);
    LookupRemembered(x, inert, 1);
    LookupRemembered(x, inert, 2);
    LookupRemembered(x, inert, 3);
  }

  lemma {:induction false} SchemeEnds(s: string, rest: string)
    requires ':' !in s && rest != "" && rest[0] == ':'
    ensures UpToColon(s + rest) == s
  {
    if s != "" {
      assert (s + rest)[1..] == s[1..] + rest;
      SchemeEnds(s[1..], rest);
    } else {
      assert s + rest == rest;
    }
  }

  predicate Printable(s: string) { forall c | c in s :: ' ' < c < '\U{7F}' }

  lemma PrintableConcat(a: string, b: string)
    requires Printable(a) && Printable(b)
    ensures Printable(a + b)
  {
  }

  lemma MetadataIdentity()
    ensures ValidIdentity(SOURCE_METADATA)
  {
    hide UpToColon, Printable;
    var a, b, c, d, e := "https", "://ddccontrol", ".sourceforge.net", "/cbor/ext/", "source-metadata/1";
    MetadataPrintable(a, b, c, d, e);
    PrintableConcat(a, b);
    PrintableConcat(a + b, c);
    PrintableConcat(a + b + c, d);
    PrintableConcat(a + b + c + d, e);
    assert SOURCE_METADATA == a + (b + c + d + e);
    SchemeEnds(a, b + c + d + e);
    PrintableIdentity(SOURCE_METADATA);
  }

  lemma PrintableIdentity(id: string)
    requires Printable(id) && ':' in id && UpToColon(id) == "https"
    ensures ValidIdentity(id)
  {
  }

  lemma MetadataPrintable(a: string, b: string, c: string, d: string, e: string)
    requires a == "https" && b == "://ddccontrol" && c == ".sourceforge.net" && d == "/cbor/ext/"
             && e == "source-metadata/1"
    ensures Printable(a) && Printable(b) && Printable(c) && Printable(d) && Printable(e)
    ensures ':' !in a && ':' in b && b[0] == ':'
  {
  }

  function Source(x: Xml, inert: seq<Entry>): Value {
    Map([Entry(Int(0), Text(SOURCE_METADATA)), Entry(Int(1), Bool(false)), Entry(Int(2), Metadata(x, inert))])
  }

  lemma SourceIsOptional(x: Xml, inert: seq<Entry>)
    requires TextOnly(inert)
    ensures ReadExtensions([Source(x, inert)], {}) == Some(false)
    ensures FindMetadata([Source(x, inert)]) == Some(Source(x, inert))
    ensures Optional(Source(x, inert), 2) == Some(Metadata(x, inert))
  {
    hide Metadata, ValidIdentity, MetadataShape, Lookup;
    MetadataIdentity();
    MetadataIsWellFormed(x, inert);
    LookupThree(Text(SOURCE_METADATA), Bool(false), Metadata(x, inert));
    assert ReadExtension(Source(x, inert)) == Some(Extension(SOURCE_METADATA, false));
    assert [Source(x, inert)][1..] == [];
  }

  // ----- Nodes -----

  lemma AssembledFields(x: Xml, attrs: seq<Entry>, inert: seq<Entry>, children: seq<Value>)
    ensures var v := Assemble(x, attrs, inert, children);
            && Fields(v)
            && Optional(v, 0) == Some(Int(Kind(x.tag))) && Optional(v, 1) == Some(Map(attrs))
                && Optional(v, 2) == Some(Array(children))
            && Optional(v, 3) == if Remembered(x, inert) != [] then Some(Array([Source(x, inert)])) else None
  {
    hide Remembered, Metadata, Items, Kind, Lookup;
    var v := Assemble(x, attrs, inert, children);
    var es := v.entries;
    var a := [Entry(Int(0), Int(Kind(x.tag))), Entry(Int(1), Map(attrs)), Entry(Int(2), Array(children))];
    var b := Piece(Remembered(x, inert) != [], 3, Array([Source(x, inert)]));
    assert es == a + b;
    LookupConcat(a, b, 0);
    LookupConcat(a, b, 1);
    LookupConcat(a, b, 2);
    LookupConcat(a, b, 3);
    LookupThree(Int(Kind(x.tag)), Map(attrs), Array(children));
    LookupPiece(Remembered(x, inert) != [], 3, Array([Source(x, inert)]), 3);
  }

  lemma AssembledTag(x: Xml, attrs: seq<Entry>, inert: seq<Entry>, children: seq<Value>)
    requires TextOnly(inert)
    ensures var v := Assemble(x, attrs, inert, children);
            TagOf(v, Kind(x.tag)) == Some(x.tag) && RequiredExtensions(v, 3) == Some(false) && !UnknownKind(Kind(x.tag))
  {
    hide Assemble, Source, Metadata, IndexOf, Items, ReadExtensions, FindMetadata;
    var v := Assemble(x, attrs, inert, children);
    AssembledFields(x, attrs, inert, children);
    SourceIsOptional(x, inert);
    LookupRemembered(x, inert, 1);
    if KindId(x.tag).None? {
      assert Remembered(x, inert) != [] by {
        assert Piece(true, 1, Text(x.tag))[0] in Remembered(x, inert);
      }
    }
  }

  /** The text of an element and of everything below it is free of NUL, as XML
      demands. */
  predicate NoNul(x: Xml) { NoNulAttrs(x.attrs) && NoNulAll(x.children) }

  predicate NoNulAll(xs: seq<Xml>) { xs == [] || (NoNul(xs[0]) && NoNulAll(xs[1..])) }

  /** Decoding what was compiled gives the executable view of the source, at every
      depth; and it fails for no reason but a NUL. */
  lemma {:induction false} CompiledDecodes(x: Xml, parent: string, inOptions: bool, ancestor: bool, depth: nat)
    requires Compile(x, parent, inOptions, ancestor, depth).Some?
    ensures var r := DecodeNode(Compile(x, parent, inOptions, ancestor, depth).value, parent, inOptions);
            && (NoNul(x) ==> r.Some?)
            && (r.Some? ==> r.value == View(Owned(x), parent, inOptions, ancestor))
    decreases x, 0
  {
    hide Assemble, DecodeNode, DecodeNodes, DecodeAttrs, Fields, ViewAttrs, TagOf, RequiredExtensions, UnknownKind,
      Optional, InertAttrs, TextOnly, Kind, CompileAttrs, ExecutableAttributes, OwnedAttrs, NoNulAttrs, Allowed,
      ExecutablePath, OwnedAll, NoNulAll;
    var active := ExecutablePath(x.tag, parent, inOptions, ancestor);
    var allowed := Allowed(x.tag, parent, inOptions, ancestor);
    var attrs, inert := CompileAttrs(x.attrs, allowed).value, InertAttrs(x.attrs, allowed);
    var children := CompileAll(x.children, x.tag, inOptions, active, depth + 1).value;
    InertIsText(x.attrs, allowed);
    AllowedPermitted(x.tag, parent, inOptions, ancestor);
    AssembledFields(x, attrs, inert, children);
    AssembledTag(x, attrs, inert, children);
    AttrsDecode(x.attrs, allowed, ExecutableAttributes(x.tag, parent, inOptions));
    DecodeSteps(Assemble(x, attrs, inert, children), parent, inOptions, Kind(x.tag), attrs, children, x.tag);
    AllCompiledDecode(x.children, x.tag, inOptions, active, depth + 1);
  }

  /** The decoder on a node whose fields are known. */
  lemma DecodeSteps(v: Value, parent: string, inOptions: bool, kind: nat, attributes: seq<Entry>, values: seq<Value>,
                    tag: string)
    requires kind <= INERT && Fields(v) && (forall e | e in attributes :: IsUint(e.key))
    requires Optional(v, 0) == Some(Int(kind)) && Optional(v, 1) == Some(Map(attributes))
             && Optional(v, 2) == Some(Array(values))
    requires TagOf(v, kind) == Some(tag) && RequiredExtensions(v, 3) == Some(false) && !UnknownKind(kind)
    ensures var r := DecodeNode(v, parent, inOptions);
            var attrs, children := DecodeAttrs(attributes, ExecutableAttributes(tag, parent, inOptions)),
                DecodeNodes(values, tag, inOptions);
            && (r.Some? <==> attrs.Some? && children.Some?)
            && (r.Some? ==> r.value == Node(tag, attrs.value, children.value, 0, false))
  {
    hide DecodeAttrs, TagOf, RequiredExtensions, UnknownKind, Optional, ExecutableAttributes;
  }

  lemma AllowedPermitted(tag: string, parent: string, inOptions: bool, ancestor: bool)
    ensures Allowed(tag, parent, inOptions, ancestor) <= ExecutableAttributes(tag, parent, inOptions)
  {
  }

  lemma {:induction false} AllCompiledDecode(xs: seq<Xml>, parent: string, inOptions: bool, ancestor: bool, depth: nat)
    requires CompileAll(xs, parent, inOptions, ancestor, depth).Some?
    ensures var r := DecodeNodes(CompileAll(xs, parent, inOptions, ancestor, depth).value, parent, inOptions);
            && (NoNulAll(xs) ==> r.Some?)
            && (r.Some? ==> r.value == ViewAll(OwnedAll(xs), parent, inOptions, ancestor))
    decreases xs, 0
  {
    hide Compile, View, Owned, DecodeNode, NoNul;
    if xs != [] {
      CompiledDecodes(xs[0], parent, inOptions, ancestor, depth);
      AllCompiledDecode(xs[1..], parent, inOptions, ancestor, depth);
      var vs := CompileAll(xs, parent, inOptions, ancestor, depth).value;
      assert vs[1..] == CompileAll(xs[1..], parent, inOptions, ancestor, depth).value;
      assert OwnedAll(xs)[1..] == OwnedAll(xs[1..]);
    }
  }
}
