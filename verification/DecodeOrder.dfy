/** Decoding a node does not depend on the order of map entries: the canonical form
    of a value decodes to the same node as the value itself. */
module DecodeOrder {
  import opened Base
  import opened Cbor
  import opened CborEncode
  import opened Database
  import opened Schema

  // ----- Fields -----

  lemma {:induction false} LookupMember(es: seq<Entry>, key: nat, e: Entry)
    requires key < 256 && DistinctKeys(es)
    ensures Lookup(es, key).Some? ==> Entry(Int(key), Lookup(es, key).value) in es
    ensures e in es && e.key == Int(key) ==> Lookup(es, key) == Some(e.value)
    ensures Lookup(es, key).None? ==> forall f | f in es :: f.key != Int(key)
  {
    if es != [] {
      LookupMember(es[1..], key, e);
      assert es == [es[0]] + es[1..];
      assert forall f | f in es :: f == es[0] || f in es[1..];
      if e in es[1..] && es[0].key == Int(key) {
        var j :| 0 <= j < |es| - 1 && es[1..][j] == e;
        assert es[j + 1].key != es[0].key;
      }
    }
  }

  /** The canonical entries of a map, as a set: the same keys, canonical values. */
  lemma CanonicalMembers(es: seq<Entry>)
    requires Encodable(Map(es))
    ensures Canonical(Map(es)).Map? && DistinctKeys(Canonical(Map(es)).entries)
    ensures forall e | e in es :: EncodableEntry(e) && CanonicalEntry(e) in Canonical(Map(es)).entries
    ensures forall f | f in Canonical(Map(es)).entries :: exists e | e in es ::
            EncodableEntry(e) && f == CanonicalEntry(e)
  {
    hide Ascending, KeyWire;
    var cs := CanonicalEntries(es);
    SortAscending(cs);
    AscendingDistinct(SortEntries(cs), None);
    forall e | e in es
      ensures EncodableEntry(e) && CanonicalEntry(e) in Canonical(Map(es)).entries
    {
      var i :| 0 <= i < |es| && es[i] == e;
      assert EncodableEntry(es[i]) && cs[i] == CanonicalEntry(e);
    }
    forall f | f in Canonical(Map(es)).entries
      ensures exists e | e in es :: EncodableEntry(e) && f == CanonicalEntry(e)
    {
      var i :| 0 <= i < |cs| && cs[i] == f;
      assert es[i] in es && EncodableEntry(es[i]);
    }
  }

  /** The canonical form of a field that may be absent. */
  function CanonicalField(v: Option<Value>): Option<Value>
    requires v.Some? ==> Encodable(v.value)
  { if v.None? then None else Some(Canonical(v.value)) }

  lemma OptionalCanonical(v: Value, key: nat)
    requires Encodable(v) && key < 256
    ensures Optional(v, key).Some? ==> Encodable(Optional(v, key).value)
    ensures Optional(Canonical(v), key) == CanonicalField(Optional(v, key))
  {
    hide CanonicalEntries, SortEntries;
    if v.Map? {
      var es, cs := v.entries, Canonical(v).entries;
      CanonicalMembers(es);
      var x := Lookup(es, key);
      var e := if x.Some? then Entry(Int(key), x.value) else Entry(Int(key), Null);
      LookupMember(es, key, e);
      if x.Some? {
        assert EncodableEntry(e);
        LookupMember(cs, key, CanonicalEntry(e));
      } else {
        LookupMember(cs, key, e);
      }
    }
  }

  lemma FieldsCanonical(v: Value)
    requires Encodable(v)
    ensures Fields(Canonical(v)) <==> Fields(v)
  {
    hide CanonicalEntries, SortEntries;
    if v.Map? {
      CanonicalMembers(v.entries);
      forall e | e in v.entries
        ensures CanonicalEntry(e) in Canonical(v).entries && CanonicalEntry(e).key == e.key
      { }
    }
  }

  // ----- Extensions -----

  lemma TextOnlyCanonical(es: seq<Entry>)
    requires Encodable(Map(es))
    ensures TextOnly(Canonical(Map(es)).entries) <==> TextOnly(es)
  {
    hide CanonicalEntries, SortEntries;
    CanonicalMembers(es);
    forall e | e in es
      ensures CanonicalEntry(e) in Canonical(Map(es)).entries && CanonicalEntry(e).value.Text? == e.value.Text?
    { }
  }

  lemma MetadataShapeCanonical(v: Value)
    requires Encodable(v)
    ensures MetadataShape(Canonical(v)) <==> MetadataShape(v)
  {
    hide CanonicalEntries, SortEntries, Fields, TextOnly;
    FieldsCanonical(v);
    OptionalCanonical(v, 0);
    OptionalCanonical(v, 1);
    OptionalCanonical(v, 2);
    OptionalCanonical(v, 3);
    if Optional(v, 0).Some? && Optional(v, 0).value.Map? { TextOnlyCanonical(Optional(v, 0).value.entries); }
  }

  lemma ReadExtensionCanonical(v: Value)
    requires Encodable(v)
    ensures ReadExtension(Canonical(v)) == ReadExtension(v)
  {
    hide CanonicalEntries, SortEntries, Fields, MetadataShape, ValidIdentity;
    FieldsCanonical(v);
    OptionalCanonical(v, 0);
    OptionalCanonical(v, 1);
    OptionalCanonical(v, 2);
    if Optional(v, 2).Some? { MetadataShapeCanonical(Optional(v, 2).value); }
  }

  function CanonicalAll(vs: seq<Value>): (r: seq<Value>)
    requires forall i | 0 <= i < |vs| :: Encodable(vs[i])
    ensures |r| == |vs| && forall i | 0 <= i < |vs| :: r[i] == Canonical(vs[i])
  { if vs == [] then [] else [Canonical(vs[0])] + CanonicalAll(vs[1..]) }

  lemma CanonicalArray(vs: seq<Value>)
    requires Encodable(Array(vs))
    ensures Canonical(Array(vs)) == Array(CanonicalAll(vs))
  {
    assert Canonical(Array(vs)).items == CanonicalAll(vs);
  }

  lemma {:induction false} ReadExtensionsCanonical(vs: seq<Value>, seen: set<string>)
    requires forall i | 0 <= i < |vs| :: Encodable(vs[i])
    ensures ReadExtensions(CanonicalAll(vs), seen) == ReadExtensions(vs, seen)
  {
    hide Canonical, Encodable, ReadExtension;
    if vs != [] {
      ReadExtensionCanonical(vs[0]);
      assert CanonicalAll(vs)[1..] == CanonicalAll(vs[1..]);
      if ReadExtension(vs[0]).Some? { ReadExtensionsCanonical(vs[1..], seen + {ReadExtension(vs[0]).value.id}); }
    }
  }

  lemma RequiredExtensionsCanonical(v: Value, key: nat)
    requires Encodable(v) && key < 256
    ensures RequiredExtensions(Canonical(v), key) == RequiredExtensions(v, key)
  {
    hide CanonicalEntries, SortEntries, ReadExtensions;
    OptionalCanonical(v, key);
    var x := Optional(v, key);
    if x.Some? && x.value.Array? {
      CanonicalArray(x.value.items);
      ReadExtensionsCanonical(x.value.items, {});
    }
  }

  lemma {:induction false} FindMetadataCanonical(vs: seq<Value>)
    requires forall i | 0 <= i < |vs| :: Encodable(vs[i])
    ensures FindMetadata(vs).Some? ==> Encodable(FindMetadata(vs).value)
    ensures FindMetadata(CanonicalAll(vs)) == CanonicalField(FindMetadata(vs))
  {
    if vs != [] {
      OptionalCanonical(vs[0], 0);
      assert CanonicalAll(vs)[1..] == CanonicalAll(vs[1..]);
      FindMetadataCanonical(vs[1..]);
    }
  }

  lemma InertTagCanonical(v: Value)
    requires Encodable(v)
    ensures InertTag(Canonical(v)) == InertTag(v)
  {
    hide CanonicalEntries, SortEntries, FindMetadata, KindId, Encodable, Canonical, Items;
    OptionalCanonical(v, 3);
    var x := Optional(v, 3);
    CanonicalLeaf(x);
    if x.Some? && x.value.Array? {
      EncodableItems(x.value);
      CanonicalArray(x.value.items);
      FindMetadataCanonical(x.value.items);
      var m := FindMetadata(x.value.items);
      if m.Some? {
        OptionalCanonical(m.value, 2);
        if Optional(m.value, 2).Some? {
          OptionalCanonical(Optional(m.value, 2).value, 1);
          CanonicalLeaf(Optional(Optional(m.value, 2).value, 1));
        }
      }
    }
  }

  // ----- Attributes -----

  /** Length and first letter tell the attribute names apart. */
  function Signature(s: string): nat { if s == "" then 0 else 128 * |s| + s[0] as int }

  function SignatureAt(i: nat): nat
    requires i < |ATTRIBUTES|
  {
    [128 * 4 + 'n' as int, 128 * 2 + 'i' as int, 128 * 4 + 't' as int, 128 * 7 + 'r' as int, 128 * 7 + 'p' as int,
        128 * 4 + 'i' as int,
     128 * 7 + 'a' as int, 128 * 5 + 'd' as int, 128 * 5 + 'v' as int, 128 * 4 + 'f' as int, 128 * 3 + 'a' as int,
         128 * 6 + 'r' as int,
     128 * 9 + 'd' as int, 128 * 4 + 'd' as int, 128 * 4 + 'c' as int, 128 * 7 + 'i' as int][i]
  }

  lemma SignatureOf(i: nat)
    requires i < |ATTRIBUTES|
    ensures Signature(ATTRIBUTES[i]) == SignatureAt(i)
  {
  }

  lemma AttributesDistinct(i: nat)
    requires i < |ATTRIBUTES|
    ensures AttributeId(ATTRIBUTES[i]) == Some(i)
  {
    hide IndexOf, Signature;
    var j := AttributeId(ATTRIBUTES[i]).value;
    SignatureOf(i);
    SignatureOf(j);
  }

  ghost predicate Gives(es: seq<Entry>, allowed: set<nat>, name: string, text: string) {
    exists e | e in es :: DecodeAttr(e, allowed) == AttrRead.Kept(name, text)
  }

  lemma SameNameSameKey(e: Entry, f: Entry, allowed: set<nat>)
    requires DecodeAttr(e, allowed).Kept? && DecodeAttr(f, allowed).Kept?
    requires DecodeAttr(e, allowed).name == DecodeAttr(f, allowed).name
    ensures e.key == f.key
  {
    AttributesDistinct(e.key.n);
    AttributesDistinct(f.key.n);
  }

  lemma {:induction false} AttrsReadable(es: seq<Entry>, allowed: set<nat>)
    ensures DecodeAttrs(es, allowed).Some? <==> forall e | e in es :: !DecodeAttr(e, allowed).BadAttr?
    decreases |es|
  {
    hide DecodeAttr;
    if es != [] {
      var init, last := es[..|es| - 1], es[|es| - 1];
      AttrsReadable(init, allowed);
      assert es == init + [last];
    }
  }

  /** What the attributes decode to, entry by entry and in no order. */
  ghost predicate Meaning(es: seq<Entry>, allowed: set<nat>, attrs: map<string, string>) {
    forall name, text :: (name in attrs && attrs[name] == text) <==> Gives(es, allowed, name, text)
  }

  lemma {:induction false} AttrsMeaning(es: seq<Entry>, allowed: set<nat>)
    requires DistinctKeys(es) && DecodeAttrs(es, allowed).Some?
    ensures Meaning(es, allowed, DecodeAttrs(es, allowed).value)
    decreases |es|
  {
    hide DecodeAttr, Gives, Meaning;
    if es == [] {
      NothingMeant(allowed);
    } else {
      var init, last := es[..|es| - 1], es[|es| - 1];
      AttrsMeaning(init, allowed);
      assert es == init + [last];
      MeaningStep(init, last, allowed, DecodeAttrs(init, allowed).value);
    }
  }

  lemma NothingMeant(allowed: set<nat>)
    ensures Meaning([], allowed, map[])
  {
  }

  lemma MeaningStep(init: seq<Entry>, last: Entry, allowed: set<nat>, attrs: map<string, string>)
    requires DistinctKeys(init + [last]) && Meaning(init, allowed, attrs) && !DecodeAttr(last, allowed).BadAttr?
    ensures var read := DecodeAttr(last, allowed);
            Meaning(init + [last], allowed, if read.Ignored? then attrs else attrs[read.name := read.text])
  {
    hide DecodeAttr, Gives, DistinctKeys;
    var read := DecodeAttr(last, allowed);
    var after := if read.Ignored? then attrs else attrs[read.name := read.text];
    forall name, text
      ensures (name in after && after[name] == text) <==> Gives(init + [last], allowed, name, text)
    {
      LastGives(init, last, allowed, name, text);
      if read.Kept? && name == read.name { NotBefore(init, last, allowed, text); }
    }
  }

  lemma LastGives(init: seq<Entry>, last: Entry, allowed: set<nat>, name: string, text: string)
    ensures Gives(init + [last], allowed, name, text) <==>
              Gives(init, allowed, name, text) || DecodeAttr(last, allowed) == AttrRead.Kept(name, text)
  {
    hide DecodeAttr;
    assert last in init + [last];
    assert forall e | e in init :: e in init + [last];
  }

  lemma NotBefore(init: seq<Entry>, last: Entry, allowed: set<nat>, text: string)
    requires DistinctKeys(init + [last]) && DecodeAttr(last, allowed).Kept?
    ensures !Gives(init, allowed, DecodeAttr(last, allowed).name, text)
  {
    hide DecodeAttr;
    forall e | e in init
      ensures DecodeAttr(e, allowed) != AttrRead.Kept(DecodeAttr(last, allowed).name, text)
    {
      var i :| 0 <= i < |init| && init[i] == e;
      assert (init + [last])[i] == e && (init + [last])[|init|] == last;
      if DecodeAttr(e, allowed).Kept? && DecodeAttr(e, allowed).name ==
          DecodeAttr(last, allowed).name { SameNameSameKey(e, last, allowed); }
    }
  }

  lemma DecodeAttrCanonical(e: Entry, allowed: set<nat>)
    requires EncodableEntry(e)
    ensures DecodeAttr(CanonicalEntry(e), allowed) == DecodeAttr(e, allowed)
  {
  }

  lemma DecodeAttrsCanonical(es: seq<Entry>, allowed: set<nat>)
    requires Encodable(Map(es))
    ensures DecodeAttrs(Canonical(Map(es)).entries, allowed) == DecodeAttrs(es, allowed)
  {
    hide CanonicalEntries, SortEntries, DecodeAttr, Canonical, DecodeAttrs, CanonicalEntry, Gives;
    CanonicalMembers(es);
    var cs := Canonical(Map(es)).entries;
    forall e | e in es
      ensures DecodeAttr(CanonicalEntry(e), allowed) == DecodeAttr(e, allowed) && CanonicalEntry(e) in cs
    { DecodeAttrCanonical(e, allowed); }
    AttrsReadable(es, allowed);
    AttrsReadable(cs, allowed);
    forall f | f in cs
      ensures exists e | e in es :: DecodeAttr(e, allowed) == DecodeAttr(f, allowed)
    {
      var e :| e in es && EncodableEntry(e) && f == CanonicalEntry(e);
      DecodeAttrCanonical(e, allowed);
    }
    if DecodeAttrs(es, allowed).Some? {
      AttrsMeaning(es, allowed);
      AttrsMeaning(cs, allowed);
      var m, n := DecodeAttrs(es, allowed).value, DecodeAttrs(cs, allowed).value;
      forall name | name in m
        ensures name in n && n[name] == m[name]
      { GivesCanonical(es, cs, allowed, name, m[name]); }
      forall name | name in n
        ensures name in m
      { GivesCanonical(es, cs, allowed, name, n[name]); }
      assert m == n;
    }
  }

  lemma GivesCanonical(es: seq<Entry>, cs: seq<Entry>, allowed: set<nat>, name: string, text: string)
    requires forall e | e in es :: exists f | f in cs :: DecodeAttr(f, allowed) == DecodeAttr(e, allowed)
    requires forall f | f in cs :: exists e | e in es :: DecodeAttr(e, allowed) == DecodeAttr(f, allowed)
    ensures Gives(es, allowed, name, text) <==> Gives(cs, allowed, name, text)
  {
    hide DecodeAttr;
  }

  // ----- Nodes -----

  lemma {:induction false} DecodeIgnoresOrder(v: Value, parent: string, inOptions: bool)
    requires Encodable(v)
    ensures DecodeNode(Canonical(v), parent, inOptions) == DecodeNode(v, parent, inOptions)
    decreases Items(v), 0, 0
  {
    hide Canonical, Encodable, Fields, DecodeAttrs, RequiredExtensions, InertTag, KindName, ExecutableAttributes;
    FieldsCanonical(v);
    OptionalCanonical(v, 0);
    OptionalCanonical(v, 1);
    OptionalCanonical(v, 2);
    InertTagCanonical(v);
    RequiredExtensionsCanonical(v, 3);
    var c := Canonical(v);
    CanonicalLeaf(Optional(v, 0));
    CanonicalLeaf(Optional(v, 1));
    CanonicalLeaf(Optional(v, 2));
    if Optional(v, 1).Some? {
      FieldsCanonical(Optional(v, 1).value);
    }
    if Fields(v) && DecodableParts(v) {
      var kind: nat := Optional(v, 0).value.n;
      var attributes, values := Optional(v, 1).value, Optional(v, 2).value.items;
      var tag := TagOf(v, kind);
      assert TagOf(c, kind) == tag;
      if tag.Some? {
        MapOf(attributes);
        DecodeAttrsCanonical(attributes.entries, ExecutableAttributes(tag.value, parent, inOptions));
        EncodableItems(Optional(v, 2).value);
        CanonicalArray(values);
        DecodeAllIgnoresOrder(values, tag.value, inOptions);
      }
    }
  }

  predicate DecodableParts(v: Value) {
    && Optional(v, 0).Some? && Optional(v, 0).value.Int? && Optional(v, 0).value.n >= 0
    && Optional(v, 1).Some? && Fields(Optional(v, 1).value)
    && Optional(v, 2).Some? && Optional(v, 2).value.Array?
  }

  lemma MapOf(v: Value)
    requires Fields(v)
    ensures v.Map? && Map(v.entries) == v
  {
  }

  lemma EncodableItems(v: Value)
    requires v.Array? && Encodable(v)
    ensures forall i | 0 <= i < |v.items| :: Encodable(v.items[i])
  {
  }

  lemma CanonicalLeaf(v: Option<Value>)
    requires v.Some? ==> Encodable(v.value)
    ensures v.Some? ==> (Canonical(v.value).Int? <==> v.value.Int?) && (v.value.Int? ==> Canonical(v.value) == v.value)
    ensures v.Some? ==>
              (Canonical(v.value).Text? <==> v.value.Text?) && (v.value.Text? ==> Canonical(v.value) == v.value)
    ensures v.Some? ==> (Canonical(v.value).Array? <==> v.value.Array?)
  {
  }

  lemma {:induction false} DecodeAllIgnoresOrder(vs: seq<Value>, parent: string, inOptions: bool)
    requires forall i | 0 <= i < |vs| :: Encodable(vs[i])
    ensures DecodeNodes(CanonicalAll(vs), parent, inOptions) == DecodeNodes(vs, parent, inOptions)
    decreases ItemsAll(vs), 1, |vs|
  {
    hide Canonical, Encodable, DecodeNode;
    if vs != [] {
      DecodeIgnoresOrder(vs[0], parent, inOptions);
      assert CanonicalAll(vs)[1..] == CanonicalAll(vs[1..]);
      DecodeAllIgnoresOrder(vs[1..], parent, inOptions);
    }
  }
}
