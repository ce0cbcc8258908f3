/** Which documents are databases: the permanent numbers, the elements and the
    documents that the decoder accepts, and what it makes of them. */
module DocumentSchema {
  import opened Base
  import opened Numbers
  import opened Cbor
  import opened Database
  import opened Letters
  import opened Schema
  import opened Compiler
  import opened Conversion
  import Loader
  import CborEncode
  import IncludeCounts
  import G = IncludeGraph
  import DecodeOrder
  import RequiredFeatures

  // ----- Numbers in attributes -----

  lemma {:induction false} DigitsFit(n: int)
    ensures ParseInteger(ToDecimal(n)) == (if I64_MIN <= n <= I64_MAX then Some(n) else None)
    ensures ParseDecimal(ToDecimal(n)) == ParseInteger(ToDecimal(n))
  {
    hide ParseInteger, ParseDecimal, ValueOf, AllDigits, Render;
    var magnitude := if n < 0 then -n else n;
    RenderInverse(magnitude, 10);
    DigitsReadBack(n < 0, Render(magnitude, 10), magnitude);
  }

  /** A number is in the bounds of its attribute exactly when the loader can read it:
      addresses, delays, values and the vocabulary's version. */
  lemma BoundsAreReadable(n: int)
    ensures InBounds(6, n) <==> Loader.ParseAddress(Some(ToDecimal(n))).Some?
    ensures InBounds(7, n) <==> Loader.ParseDelay(Some(ToDecimal(n))).Some?
    ensures InBounds(8, n) <==> Loader.ParseWord(Some(ToDecimal(n))).Some?
    ensures InBounds(12, n) <==> ParseInteger(ToDecimal(n)) == Some(DBVERSION)
  {
    hide ParseInteger, ParseDecimal, ToDecimal;
    DigitsFit(n);
  }

  /** And the converter reads a number out of source text exactly as the loader does. */
  lemma SourceIsReadable(raw: string)
    ensures SourceInteger(raw, 6) == Loader.ParseAddress(Some(raw))
    ensures SourceInteger(raw, 7) == Loader.ParseDelay(Some(raw))
    ensures SourceInteger(raw, 8) == Loader.ParseWord(Some(raw))
    ensures SourceInteger(raw, 12).Some? <==> ParseInteger(raw) == Some(DBVERSION)
  {
    hide ParseUnsigned, SkipSpaces;
    SkipTwice(raw);
  }

  // ----- Attributes -----

  /** The attributes that execute: parent, element, attribute. */
  const IN_OPTIONS: set<(string, string, string)> :=
    {("", "options", "dbversion"), ("", "options", "date"), ("options", "group", "name"),
     ("group", "subgroup", "name"), ("group", "subgroup", "pattern"),
     ("subgroup", "control", "name"), ("subgroup", "control", "id"),
     ("subgroup", "control", "type"), ("subgroup", "control", "refresh"),
     ("control", "value", "name"), ("control", "value", "id")}

  const IN_PROFILES: set<(string, string, string)> :=
    {("", "monitor", "name"), ("", "monitor", "init"), ("", "monitor", "caps"), ("", "monitor", "include"),
     ("controls", "control", "id"), ("controls", "control", "address"), ("controls", "control", "delay"),
     ("control", "value", "id"), ("control", "value", "value"),
     ("monitor", "caps", "add"), ("monitor", "caps", "remove"), ("monitor", "include", "file")}

  lemma AttributeNames(id: nat)
    requires id < |ATTRIBUTES|
    ensures ATTRIBUTES[id] ==
            if id == 0 then "name" else if id == 1 then "id" else if id == 2 then "type"
            else if id == 3 then "refresh" else if id == 4 then "pattern" else if id == 5 then "init"
            else if id == 6 then "address" else if id == 7 then "delay" else if id == 8 then "value"
            else if id == 9 then "file" else if id == 10 then "add" else if id == 11 then "remove"
            else if id == 12 then "dbversion" else if id == 13 then "date" else if id == 14 then "caps" else "include"
  {
  }

  lemma ExecutableInOptions(id: nat, tag: string, parent: string)
    ensures id in ExecutableAttributes(tag, parent, true) <==> id < 16 && (parent, tag, ATTRIBUTES[id]) in IN_OPTIONS
  {
    if id < 16 { AttributeNames(id); }
  }

  lemma ExecutableInProfiles(id: nat, tag: string, parent: string)
    ensures id in ExecutableAttributes(tag, parent, false) <==> id < 16 && (parent, tag, ATTRIBUTES[id]) in IN_PROFILES
  {
    if id < 16 { AttributeNames(id); }
  }

  /** An attribute entry is executable here and of its type, or of a number that has
      no meaning yet. */
  predicate AttrOk(e: Entry, allowed: set<nat>) {
    && e.key.Int? && e.key.n >= 0
    && if e.key.n > 15 then e.value.Int? || e.value.Text?
       else if e.key.n in {6, 7, 8, 12} then e.key.n in allowed && e.value.Int? && InBounds(e.key.n, e.value.n)
       else e.key.n in allowed && e.value.Text? && forall i | 0 <= i < |e.value.text| :: e.value.text[i] != '\0'
  }

  lemma AttrMeans(e: Entry, allowed: set<nat>)
    ensures !DecodeAttr(e, allowed).BadAttr? <==> AttrOk(e, allowed)
    ensures AttrOk(e, allowed) && e.key.n > 15 ==> DecodeAttr(e, allowed) == AttrRead.Ignored
    ensures AttrOk(e, allowed) && e.key.n <= 15 ==>
              DecodeAttr(e, allowed) ==
              AttrRead.Kept(ATTRIBUTES[e.key.n], if e.value.Int? then ToDecimal(e.value.n) else e.value.text)
  {
    hide InBounds, ToDecimal;
  }

  // ----- Extensions -----

  /** A name of letters, digits and three signs that starts with a letter, a colon,
      and no space or control character anywhere. */
  predicate Identity(id: string) {
    && (exists k | 0 < k < |id| :: id[k] == ':' && LetterFirst(id[..k]))
    && forall i | 0 <= i < |id| :: Visible(id[i] as int)
  }

  /** Code points that are neither white space nor control characters. */
  predicate Visible(code: int) {
    && code > 0x20 && !(0x7F <= code <= 0xA0) && code != 0x1680 && !(0x2000 <= code <= 0x200A)
    && code !in {0x2028, 0x2029, 0x202F, 0x205F, 0x3000}
  }

  lemma VisibleMeans(c: char)
    ensures Visible(c as int) <==> !IsWhite(c) && !IsControlChar(c)
    ensures IsWhite(c) <==> !Visible(c as int) && (9 <= c as int <= 13 || c as int in {0x20, 0x85} || c as int >= 0xA0)
  {
  }

  predicate LetterFirst(scheme: string) {
    scheme != "" && Letter(scheme[0]) && forall i | 0 <= i < |scheme| :: SchemeLetter(scheme[i])
  }

  predicate SchemeLetter(c: char) { Letter(c) || Digit(c) || c in "+.-" }

  lemma SchemeCharsMean(c: char)
    ensures (IsLetter(c) <==> Letter(c)) && (IsSchemeChar(c) <==> SchemeLetter(c))
  {
    hide Letter, Digit;
    LettersMean(c);
    DigitsMean(c);
  }

  lemma {:induction false} UpTo(id: string, k: nat)
    requires k < |id| && id[k] == ':' && forall i | 0 <= i < k :: id[i] != ':'
    ensures UpToColon(id) == id[..k]
  {
    if k > 0 {
      UpTo(id[1..], k - 1);
      assert id[..k] == [id[0]] + id[1..][..k - 1];
    }
  }

  lemma FirstColon(id: string) returns (k: nat)
    requires ':' in id
    ensures k < |id| && id[k] == ':' && forall i | 0 <= i < k :: id[i] != ':'
  {
    k := 0;
    while id[k] != ':'
      invariant k < |id| && forall i | 0 <= i < k :: id[i] != ':'
      decreases |id| - k
    { k := k + 1; }
  }

  lemma IdentityMeans(id: string)
    ensures ValidIdentity(id) <==> Identity(id)
  {
    hide IsLetter, IsSchemeChar, IsWhite, IsControlChar, Visible, Letter, SchemeLetter;
    forall c: char
      ensures Visible(c as int) <==> !IsWhite(c) && !IsControlChar(c)
      ensures IsLetter(c) <==> Letter(c)
      ensures IsSchemeChar(c) <==> SchemeLetter(c)
    {
      VisibleMeans(c);
      SchemeCharsMean(c);
    }
    if ':' in id {
      var k := FirstColon(id);
      UpTo(id, k);
      ColonEndsScheme(id, k);
    }
  }

  lemma NoColon(c: char)
    ensures SchemeLetter(c) ==> c != ':'
  {
  }

  lemma ColonEndsScheme(id: string, k: nat)
    requires k < |id| && id[k] == ':' && forall i | 0 <= i < k :: id[i] != ':'
    ensures (exists j | 0 < j < |id| :: id[j] == ':' && LetterFirst(id[..j])) <==> k > 0 && LetterFirst(id[..k])
  {
    hide Letter;
    if j :| 0 < j < |id| && id[j] == ':' && LetterFirst(id[..j]) {
      if j > k { NoColon(id[..j][k]); }
    }
  }

  /** A list of extensions is absent, or all are well formed and no two have the same
      identity. */
  predicate ExtensionsOk(v: Value, key: nat) {
    var x := Optional(v, key);
    x.Some? ==> x.value.Array? && (forall e | e in x.value.items :: RequiredFeatures.WellFormed(e))
                && RequiredFeatures.DistinctIdentities(x.value.items)
  }

  lemma ExtensionsOkIff(v: Value, key: nat)
    ensures RequiredExtensions(v, key).Some? <==> ExtensionsOk(v, key)
  {
    hide ReadExtensions, RequiredFeatures.WellFormed, Optional;
    var x := Optional(v, key);
    if x.Some? && x.value.Array? {
      RequiredFeatures.ExtensionsMean(x.value.items, {});
    }
  }

  // ----- Elements -----

  predicate IsMetadata(x: Value) { Optional(x, 0) == Some(Text(SOURCE_METADATA)) }

  lemma {:induction false} FindMetadataMeans(vs: seq<Value>)
    ensures FindMetadata(vs).None? <==> forall x | x in vs :: !IsMetadata(x)
    ensures FindMetadata(vs).Some? ==> FindMetadata(vs).value in vs && IsMetadata(FindMetadata(vs).value)
  {
    hide Optional;
    if vs != [] {
      FindMetadataMeans(vs[1..]);
      assert forall x | x in vs :: x == vs[0] || x in vs[1..];
      assert IsMetadata(vs[0]) <==> Optional(vs[0], 0) == Some(Text(SOURCE_METADATA));
    }
  }

  /** The source metadata among the extensions remembers this tag, which is not the
      name of a kind. */
  ghost predicate Remembers(v: Value, tag: string) {
    && Optional(v, 3).Some? && Optional(v, 3).value.Array?
    && tag !in ["options", "group", "subgroup", "control", "value", "monitor", "caps", "include", "controls"]
    && exists x | x in Optional(v, 3).value.items ::
         IsMetadata(x) && Optional(x, 2).Some? && Optional(Optional(x, 2).value, 1) == Some(Text(tag))
  }

  lemma KindsAreNamed(tag: string)
    ensures KindId(tag).Some? <==>
            tag in ["options", "group", "subgroup", "control", "value", "monitor", "caps", "include", "controls"]
  {
  }

  lemma RememberedMeans(v: Value, tag: string)
    requires ExtensionsOk(v, 3)
    ensures InertTag(v) == Some(tag) <==> Remembers(v, tag)
  {
    hide Optional, FindMetadata, KindId, IsMetadata, RequiredFeatures.WellFormed;
    KindsAreNamed(tag);
    if Optional(v, 3).Some? {
      var vs := Optional(v, 3).value.items;
      FindMetadataMeans(vs);
      forall x, y | x in vs && y in vs && IsMetadata(x) && IsMetadata(y)
        ensures x == y
      { OneMetadata(vs, x, y); }
    }
  }

  lemma OneMetadata(vs: seq<Value>, x: Value, y: Value)
    requires RequiredFeatures.DistinctIdentities(vs) && x in vs && y in vs && IsMetadata(x) && IsMetadata(y)
    ensures x == y
  {
    hide Optional;
    var i :| 0 <= i < |vs| && vs[i] == x;
    var j :| 0 <= j < |vs| && vs[j] == y;
    assert i == j;
  }

  /** The tag of an element of a kind: its name, what an inert element remembers, or
      one for all kinds without a name. */
  ghost predicate HasTag(v: Value, kind: nat, tag: string) {
    if kind == 255 then Remembers(v, tag)
    else
      tag == if kind == 0 then "options" else if kind == 1 then "group" else if kind == 2 then "subgroup"
             else if kind == 3 then "control" else if kind == 4 then "value" else if kind == 5 then "monitor"
             else if kind == 6 then "caps" else if kind == 7 then "include"
             else if kind == 8 then "controls" else "unknown"
  }

  lemma TagMeans(v: Value, kind: nat, tag: string)
    requires ExtensionsOk(v, 3)
    ensures TagOf(v, kind) == Some(tag) <==> HasTag(v, kind, tag)
  {
    hide KindName, InertTag, Remembers, ExtensionsOk;
    RequiredFeatures.KnownKinds(kind);
    RememberedMeans(v, tag);
  }

  /** An element the decoder accepts under a parent: its kind, its attributes, its
      children and its extensions. */
  ghost predicate NodeOk(v: Value, parent: string, inOptions: bool)
    decreases Items(v), 0, 0
  {
    && Fields(v) && ExtensionsOk(v, 3)
    && Optional(v, 0).Some? && IsUint(Optional(v, 0).value)
    && Optional(v, 1).Some? && Optional(v, 1).value.Map?
    && Optional(v, 2).Some? && Optional(v, 2).value.Array?
    && exists tag :: HasTag(v, Optional(v, 0).value.n, tag)
                     && AttrsOk(Optional(v, 1).value.entries, ExecutableAttributes(tag, parent, inOptions))
                     && NodesOk(Optional(v, 2).value.items, tag, inOptions)
  }

  predicate AttrsOk(es: seq<Entry>, allowed: set<nat>) { forall e | e in es :: AttrOk(e, allowed) }

  ghost predicate NodesOk(vs: seq<Value>, parent: string, inOptions: bool)
    decreases ItemsAll(vs), 1, |vs|
  { vs == [] || (NodeOk(vs[0], parent, inOptions) && NodesOk(vs[1..], parent, inOptions)) }

  lemma AttrsOkIff(es: seq<Entry>, allowed: set<nat>)
    ensures Fields(Map(es)) && DecodeAttrs(es, allowed).Some? <==> AttrsOk(es, allowed)
  {
    hide DecodeAttr, AttrOk, DecodeAttrs;
    DecodeOrder.AttrsReadable(es, allowed);
    forall e
      ensures !DecodeAttr(e, allowed).BadAttr? <==> AttrOk(e, allowed)
      ensures AttrOk(e, allowed) ==> IsUint(e.key)
    {
      AttrMeans(e, allowed);
      AttrKey(e, allowed);
    }
  }

  lemma AttrKey(e: Entry, allowed: set<nat>)
    ensures AttrOk(e, allowed) ==> IsUint(e.key)
  {
  }

  /** Exactly these elements are accepted. */
  lemma {:induction false} NodeMeans(v: Value, parent: string, inOptions: bool)
    ensures DecodeNode(v, parent, inOptions).Some? <==> NodeOk(v, parent, inOptions)
    decreases Items(v), 0, 0
  {
    hide Fields, ExtensionsOk, RequiredExtensions, TagOf, HasTag, DecodeAttrs, AttrsOk, Optional, ExecutableAttributes;
    OptionalFits(v);
    ExtensionsOkIff(v, 3);
    if NodeFields(v) && ExtensionsOk(v, 3) {
      var kind, es, vs := Optional(v, 0).value.n, Optional(v, 1).value.entries, Optional(v, 2).value.items;
      forall tag
        ensures TagOf(v, kind) == Some(tag) <==> HasTag(v, kind, tag)
        ensures DecodeNodes(vs, tag, inOptions).Some? <==> NodesOk(vs, tag, inOptions)
        ensures Fields(Map(es)) && DecodeAttrs(es, ExecutableAttributes(tag, parent, inOptions)).Some? <==>
                AttrsOk(es, ExecutableAttributes(tag, parent, inOptions))
      {
        TagMeans(v, kind, tag);
        NodesMean(vs, tag, inOptions);
        AttrsOkIff(es, ExecutableAttributes(tag, parent, inOptions));
      }
    }
  }

  predicate NodeFields(v: Value) {
    && Fields(v)
    && Optional(v, 0).Some? && IsUint(Optional(v, 0).value)
    && Optional(v, 1).Some? && Optional(v, 1).value.Map?
    && Optional(v, 2).Some? && Optional(v, 2).value.Array?
  }

  lemma OptionalFits(v: Value)
    ensures Optional(v, 2).Some? && Optional(v, 2).value.Array? ==> ItemsAll(Optional(v, 2).value.items) < Items(v)
    ensures Optional(v, 1).Some? ==> (Fields(Optional(v, 1).value) ==> Optional(v, 1).value.Map?)
    ensures Fields(v) ==> v.Map?
  {
  }

  lemma {:induction false} NodesMean(vs: seq<Value>, parent: string, inOptions: bool)
    ensures DecodeNodes(vs, parent, inOptions).Some? <==> NodesOk(vs, parent, inOptions)
    decreases ItemsAll(vs), 1, |vs|
  {
    hide DecodeNode, NodeOk;
    if vs != [] {
      NodeMeans(vs[0], parent, inOptions);
      NodesMean(vs[1..], parent, inOptions);
    }
  }

  lemma {:induction false} EachDecoded(vs: seq<Value>, parent: string, inOptions: bool)
    requires DecodeNodes(vs, parent, inOptions).Some?
    ensures var ns := DecodeNodes(vs, parent, inOptions).value;
            |ns| == |vs| && forall i | 0 <= i < |vs| :: DecodeNode(vs[i], parent, inOptions) == Some(ns[i])
    decreases |vs|
  {
    hide DecodeNode;
    if vs != [] { EachDecoded(vs[1..], parent, inOptions); }
  }

  /** And this is what they become. */
  lemma NodeIs(v: Value, parent: string, inOptions: bool)
    requires DecodeNode(v, parent, inOptions).Some?
    ensures NodeFields(v)
    ensures var n, kind := DecodeNode(v, parent, inOptions).value, Optional(v, 0).value.n;
            && HasTag(v, kind, n.tag)
            && (n.required <==> RequiredFeatures.HasTrueExtension(v, 3) || (kind > 8 && kind != 255))
            && DecodeAttrs(Optional(v, 1).value.entries, ExecutableAttributes(n.tag, parent, inOptions)) ==
                Some(n.attrs)
            && var vs := Optional(v, 2).value.items;
               |n.children| == |vs| && forall i | 0 <= i < |vs| ::
                   DecodeNode(vs[i], n.tag, inOptions) == Some(n.children[i])
  {
    hide Fields, ExtensionsOk, RequiredExtensions, TagOf, HasTag, DecodeAttrs, Optional, ExecutableAttributes,
      DecodeNodes, RequiredFeatures.HasTrueExtension;
    OptionalFits(v);
    ExtensionsOkIff(v, 3);
    var n, kind := DecodeNode(v, parent, inOptions).value, Optional(v, 0).value.n;
    TagMeans(v, kind, n.tag);
    RequiredFeatures.RequiredMeans(v, 3);
    RequiredFeatures.KnownKinds(kind);
    EachDecoded(Optional(v, 2).value.items, n.tag, inOptions);
  }

  // ----- Where elements execute -----

  const OPTIONS_PATH: seq<string> := ["options", "group", "subgroup", "control", "value"]
  const PROFILE_PATH: seq<string> := ["monitor", "controls", "control", "value"]

  /** A path from the root follows this one, as far as it goes. */
  predicate Follows(path: seq<string>, whole: seq<string>) {
    |path| <= |whole| && forall i | 0 <= i < |path| :: path[i] == whole[i]
  }

  predicate ExecutesAt(path: seq<string>, inOptions: bool) {
    if inOptions then Follows(path, OPTIONS_PATH)
    else
      Follows(path, PROFILE_PATH)
      || (|path| == 2 && path[0] == "monitor" && (path[1] == "caps" || path[1] == "include"))
  }

  /** An element executes when its parent does and it has its place there. */
  predicate Active(path: seq<string>, inOptions: bool)
    decreases |path|
  {
    path == [] || ExecutablePath(path[|path| - 1], Above(path), inOptions, Active(path[..|path| - 1], inOptions))
  }

  function Above(path: seq<string>): string
    requires path != []
  { if |path| == 1 then "" else path[|path| - 2] }

  lemma {:induction false} PathsMean(path: seq<string>, inOptions: bool)
    ensures Active(path, inOptions) <==> ExecutesAt(path, inOptions)
    decreases |path|
  {
    if path != [] {
      var init, last := path[..|path| - 1], path[|path| - 1];
      PathsMean(init, inOptions);
      StepMeans(init, last, inOptions);
      assert path == init + [last];
    }
  }

  lemma StepMeans(init: seq<string>, last: string, inOptions: bool)
    ensures ExecutesAt(init + [last], inOptions) <==>
            ExecutablePath(last, if init == [] then "" else init[|init| - 1], inOptions, ExecutesAt(init, inOptions))
  {
    hide ExecutableAttributes;
    var path := init + [last];
    assert path[..|init|] == init && path[|init|] == last;
    ExecutableSomewhere(last, if init == [] then "" else init[|init| - 1], inOptions);
    assert forall i | 0 <= i < |init| :: path[i] == init[i];
  }

  lemma ExecutableSomewhere(tag: string, parent: string, inOptions: bool)
    ensures ExecutableAttributes(tag, parent, inOptions) != {} <==>
            if inOptions then
              || (parent == "" && tag == "options") || (parent == "options" && tag == "group")
              || (parent == "group" && tag == "subgroup") || (parent == "subgroup" && tag == "control")
              || (parent == "control" && tag == "value")
            else
              || (parent == "" && tag == "monitor") || (parent == "controls" && tag == "control")
              || (parent == "control" && tag == "value") || (parent == "monitor" && (tag == "caps" || tag == "include"))
  {
  }

  // ----- What may stand elsewhere -----

  /** The value reached by child positions. */
  function ValueAt(v: Value, path: seq<nat>): Option<Value>
    decreases |path|
  {
    if path == [] then Some(v)
    else if Optional(v, 2).Some? && Optional(v, 2).value.Array? && path[0] < |Optional(v, 2).value.items| then
      ValueAt(Optional(v, 2).value.items[path[0]], path[1..])
    else None
  }

  function TagAt(v: Value): string {
    if Optional(v, 0).Some? && IsUint(Optional(v, 0).value) && KindName(Optional(v, 0).value.n).Some?
    then KindName(Optional(v, 0).value.n).value else "unknown"
  }

  /** The tags from the value to the one that is reached. */
  function TagsTo(v: Value, path: seq<nat>): seq<string>
    requires ValueAt(v, path).Some?
    decreases |path|
  { [TagAt(v)] + if path == [] then [] else TagsTo(Optional(v, 2).value.items[path[0]], path[1..]) }

  predicate Shaped(v: Value) {
    && Optional(v, 0).Some? && IsUint(Optional(v, 0).value) && Optional(v, 1).Some?
    && Optional(v, 2).Some? && Optional(v, 2).value.Array?
  }

  predicate NoKnownAttribute(v: Value) {
    Optional(v, 1).Some? && Fields(Optional(v, 1).value) && forall e | e in Optional(v, 1).value.entries :: e.key.n > 15
  }

  /** The value there has the shape of an element, and has known attributes only where
      elements execute. */
  predicate PlacedWell(v: Value, above: seq<string>, inOptions: bool, path: seq<nat>)
    requires ValueAt(v, path).Some?
  {
    var w := ValueAt(v, path).value;
    Shaped(w) && (Active(above + TagsTo(v, path), inOptions) || NoKnownAttribute(w))
  }

  function LastOf(above: seq<string>): string { if above == [] then "" else above[|above| - 1] }

  lemma ActiveStep(above: seq<string>, tag: string, inOptions: bool)
    ensures Active(above + [tag], inOptions) <==>
            ExecutablePath(tag, LastOf(above), inOptions, Active(above, inOptions))
  {
    hide ExecutablePath;
    var path := above + [tag];
    assert path[..|path| - 1] == above && path[|path| - 1] == tag;
    assert Above(path) == LastOf(above);
  }

  lemma OnlyStep(v: Value, above: seq<string>, inOptions: bool)
    ensures ActiveOnly(v, LastOf(above), inOptions, Active(above, inOptions)) <==>
            && Shaped(v) && (Active(above + [TagAt(v)], inOptions) || NoKnownAttribute(v))
            && ActiveOnlyAll(Optional(v, 2).value.items, TagAt(v), inOptions, Active(above + [TagAt(v)], inOptions))
  {
    hide ExecutablePath, Active, Optional, KindName, ActiveOnlyAll;
    ActiveStep(above, TagAt(v), inOptions);
  }

  lemma {:induction false} OnlyAt(v: Value, above: seq<string>, inOptions: bool, path: seq<nat>)
    requires ActiveOnly(v, LastOf(above), inOptions, Active(above, inOptions)) && ValueAt(v, path).Some?
    ensures PlacedWell(v, above, inOptions, path)
    decreases |path|
  {
    hide ActiveOnly, ActiveOnlyAll, Active, TagAt, Shaped, NoKnownAttribute, Optional;
    OnlyStep(v, above, inOptions);
    if path == [] {
      assert TagsTo(v, path) == [TagAt(v)];
    } else {
      var child := Optional(v, 2).value.items[path[0]];
      EachOnly(Optional(v, 2).value.items, TagAt(v), inOptions, Active(above + [TagAt(v)], inOptions), path[0]);
      OnlyAt(child, above + [TagAt(v)], inOptions, path[1..]);
      assert above + TagsTo(v, path) == above + [TagAt(v)] + TagsTo(child, path[1..]);
    }
  }

  lemma {:induction false} EachOnly(vs: seq<Value>, parent: string, inOptions: bool, active: bool, i: nat)
    requires ActiveOnlyAll(vs, parent, inOptions, active) && i < |vs|
    ensures ActiveOnly(vs[i], parent, inOptions, active)
    decreases i
  {
    hide ActiveOnly;
    if i > 0 { EachOnly(vs[1..], parent, inOptions, active, i - 1); }
  }

  lemma {:induction false} PlacedThroughout(v: Value, above: seq<string>, inOptions: bool)
    requires forall path | ValueAt(v, path).Some? :: PlacedWell(v, above, inOptions, path)
    ensures ActiveOnly(v, LastOf(above), inOptions, Active(above, inOptions))
    decreases Items(v), 0, 0
  {
    hide ActiveOnly, Active, TagAt, NoKnownAttribute, Optional, PlacedWell, Shaped, ActiveOnlyAll;
    PlacedHere(v, above, inOptions);
    OnlyStep(v, above, inOptions);
    OptionalFits(v);
    var vs := Optional(v, 2).value.items;
    forall i: nat, path | i < |vs| && ValueAt(vs[i], path).Some?
      ensures PlacedWell(vs[i], above + [TagAt(v)], inOptions, path)
    { PlacedBelow(v, above, inOptions, i, path); }
    AllPlaced(vs, above + [TagAt(v)], inOptions);
  }

  lemma PlacedHere(v: Value, above: seq<string>, inOptions: bool)
    requires PlacedWell(v, above, inOptions, [])
    ensures Shaped(v) && (Active(above + [TagAt(v)], inOptions) || NoKnownAttribute(v))
    ensures Optional(v, 2).Some? && Optional(v, 2).value.Array?
  {
    hide Active, TagAt, NoKnownAttribute, Optional;
    assert TagsTo(v, []) == [TagAt(v)];
  }

  lemma PlacedBelow(v: Value, above: seq<string>, inOptions: bool, i: nat, path: seq<nat>)
    requires Optional(v, 2).Some? && Optional(v, 2).value.Array? && i < |Optional(v, 2).value.items|
    requires ValueAt(Optional(v, 2).value.items[i], path).Some?
    requires forall path | ValueAt(v, path).Some? :: PlacedWell(v, above, inOptions, path)
    ensures PlacedWell(Optional(v, 2).value.items[i], above + [TagAt(v)], inOptions, path)
  {
    hide Active, TagAt, NoKnownAttribute, Optional, Shaped;
    var child := Optional(v, 2).value.items[i];
    var whole := [i] + path;
    assert whole[1..] == path && ValueAt(v, whole) == ValueAt(child, path);
    assert PlacedWell(v, above, inOptions, whole);
    assert above + TagsTo(v, whole) == above + [TagAt(v)] + TagsTo(child, path);
  }

  lemma {:induction false} AllPlaced(vs: seq<Value>, above: seq<string>, inOptions: bool)
    requires forall i: nat, path | i < |vs| && ValueAt(vs[i], path).Some? :: PlacedWell(vs[i], above, inOptions, path)
    ensures ActiveOnlyAll(vs, LastOf(above), inOptions, Active(above, inOptions))
    decreases ItemsAll(vs), 1, |vs|
  {
    hide ActiveOnly, Active, PlacedWell;
    if vs != [] {
      PlacedThroughout(vs[0], above, inOptions);
      assert forall i: nat | i < |vs[1..]| :: vs[1..][i] == vs[i + 1];
      AllPlaced(vs[1..], above, inOptions);
    }
  }

  /** Known attributes only on an executable path from the root. */
  predicate InPlace(v: Value, inOptions: bool, path: seq<nat>)
    requires ValueAt(v, path).Some?
  {
    var w := ValueAt(v, path).value;
    Shaped(w) && (ExecutesAt(TagsTo(v, path), inOptions) || NoKnownAttribute(w))
  }

  lemma InPlaceMeans(v: Value, inOptions: bool, path: seq<nat>)
    requires ValueAt(v, path).Some?
    ensures PlacedWell(v, [], inOptions, path) <==> InPlace(v, inOptions, path)
  {
    hide Shaped, NoKnownAttribute, ExecutesAt, Optional, TagsTo, ValueAt, Active;
    assert [] + TagsTo(v, path) == TagsTo(v, path);
    PathsMean(TagsTo(v, path), inOptions);
  }

  /** The validator's last check, element by element. */
  lemma ActiveOnlyMeans(v: Value, inOptions: bool)
    ensures ActiveOnly(v, "", inOptions, true) <==> forall path | ValueAt(v, path).Some? :: InPlace(v, inOptions, path)
  {
    hide ActiveOnly, PlacedWell, InPlace, ValueAt;
    forall path | ValueAt(v, path).Some?
      ensures PlacedWell(v, [], inOptions, path) <==> InPlace(v, inOptions, path)
    { InPlaceMeans(v, inOptions, path); }
    if ActiveOnly(v, "", inOptions, true) {
      forall path | ValueAt(v, path).Some?
        ensures PlacedWell(v, [], inOptions, path)
      { OnlyAt(v, [], inOptions, path); }
    } else if forall path | ValueAt(v, path).Some? :: PlacedWell(v, [], inOptions, path) {
      PlacedThroughout(v, [], inOptions);
      assert false;
    }
  }

  // ----- Documents -----

  /** 1 to 255 letters, digits, underscores and hyphens. */
  predicate ProfileName(id: string) {
    && 1 <= |id| <= 255
    && forall i | 0 <= i < |id| :: Letter(id[i]) || Digit(id[i]) || id[i] in "_-"
  }

  lemma ProfileNameMeans(id: string)
    ensures ProfileId(id) <==> ProfileName(id)
  {
    forall i | 0 <= i < |id|
      ensures IsNameChar(id[i]) <==> Letter(id[i]) || Digit(id[i]) || id[i] in "_-"
    { NameCharMeans(id[i]); }
  }

  lemma NameCharMeans(c: char)
    ensures IsNameChar(c) <==> Letter(c) || Digit(c) || c in "_-"
  {
    hide Letter, Digit;
    LettersMean(c);
    DigitsMean(c);
  }

  /** The options file, or a profile's file. */
  ghost predicate NamesSource(path: string) {
    path == "options.xml" || exists id :: ProfileName(id) && path == "monitor/" + id + ".xml"
  }

  lemma SourcePathMeans(path: string)
    ensures SourcePath(path) <==> NamesSource(path)
  {
    hide ProfileId, ProfileName;
    if SourcePath(path) && path != "options.xml" {
      var id := path[8..|path| - 4];
      ProfileNameMeans(id);
      assert path == path[..8] + id + path[|path| - 4..];
    }
    forall id | ProfileName(id) && path == "monitor/" + id + ".xml"
      ensures SourcePath(path)
    {
      ProfileNameMeans(id);
      assert path[..8] == "monitor/" && path[8..|path| - 4] == id && path[|path| - 4..] == ".xml";
      assert |id| >= 1 by { NameNotEmpty(id); }
    }
  }

  lemma NameNotEmpty(id: string)
    requires ProfileName(id)
    ensures |id| >= 1
  {
  }

  /** Paths of source files, each with a digest of 32 bytes, the options among them. */
  ghost predicate ManifestOk(v: Value) {
    && v.Map?
    && (forall e | e in v.entries :: e.key.Text? && NamesSource(e.key.text) && e.value.Blob? && |e.value.bytes| == 32)
    && (exists e | e in v.entries :: e.key == Text("options.xml"))
    && |Paths(v.entries)| <= 65_537
  }

  function Paths(es: seq<Entry>): set<string> { set e | e in es && e.key.Text? :: e.key.text }

  lemma ManifestMeans(v: Value)
    ensures ReadManifest(v).Some? <==> ManifestOk(v)
    ensures ReadManifest(v).Some? ==> ReadManifest(v).value == Paths(v.entries)
    ensures ManifestOk(v) ==> v.Map?
  {
    hide SourcePath, NamesSource;
    forall path
      ensures SourcePath(path) <==> NamesSource(path)
    { SourcePathMeans(path); }
  }

  /** A profile of a document: a named monitor element whose file is vouched for. */
  ghost predicate ProfileOk(e: Entry, paths: set<string>) {
    && e.key.Text? && ProfileName(e.key.text) && "monitor/" + e.key.text + ".xml" in paths
    && NodeOk(e.value, "", false) && Optional(e.value, 0) == Some(Int(5))
  }

  lemma {:induction false} ProfilesMean(es: seq<Entry>, paths: set<string>)
    ensures DecodeProfiles(es, paths).Some? <==> forall e | e in es :: ProfileOk(e, paths)
    ensures DecodeProfiles(es, paths).Some? ==> DecodeProfiles(es, paths).value.Keys == Paths(es)
    decreases |es|
  {
    hide ProfileOk, DecodeNode, ProfileId;
    if es != [] {
      var init, last := es[..|es| - 1], es[|es| - 1];
      assert es == init + [last];
      ProfilesMean(init, paths);
      ProfileMeans(last, paths);
    }
  }

  lemma ProfileMeans(e: Entry, paths: set<string>)
    ensures ProfileOk(e, paths) <==>
            && e.key.Text? && ProfileId(e.key.text) && PathOf(e.key.text) in paths
            && DecodeNode(e.value, "", false).Some? && DecodeNode(e.value, "", false).value.tag == "monitor"
  {
    hide NodeOk, DecodeNode, ProfileId, ProfileName, Optional;
    if e.key.Text? { ProfileNameMeans(e.key.text); }
    NodeMeans(e.value, "", false);
    RootKind(e.value, false, "monitor", 5);
  }

  /** The tags of the two kinds of root come from their kinds only. */
  lemma RootKind(v: Value, inOptions: bool, tag: string, kind: nat)
    requires (tag == "monitor" && kind == 5) || (tag == "options" && kind == 0)
    ensures DecodeNode(v, "", inOptions).Some? ==>
              (DecodeNode(v, "", inOptions).value.tag == tag <==> Optional(v, 0) == Some(Int(kind)))
  {
    hide DecodeNode, Optional;
    if DecodeNode(v, "", inOptions).Some? { NodeIs(v, "", inOptions); }
  }

  /** What a reader of version 1 accepts, as a consumer or as a tool. */
  ghost predicate DocumentOk(root: Value, consumer: bool, sha: Bytes -> Bytes) {
    && Fields(root)
    && Optional(root, 0) == Some(Blob([68, 68, 67, 68, 66])) && Optional(root, 1) == Some(Int(1))
    && (exists revision :: revision != "" && Optional(root, 2) == Some(Text(revision)))
    && Optional(root, 3) == Some(Int(3)) && Optional(root, 4) == Some(Text("ddccontrol-db"))
    && ExtensionsOk(root, 7) && (consumer ==> !RequiredFeatures.HasTrueExtension(root, 7))
    && Optional(root, 8).Some? && ManifestOk(Optional(root, 8).value)
    && CborEncode.EncodeSpec(Optional(root, 8).value).Some?
    && Optional(root, 9) == Some(Blob(sha(CborEncode.EncodeSpec(Optional(root, 8).value).value)))
    && |Optional(root, 9).value.bytes| == 32
    && Optional(root, 5).Some? && NodeOk(Optional(root, 5).value, "", true)
    && Optional(Optional(root, 5).value, 0) == Some(Int(0))
    && Optional(root, 6).Some? && Optional(root, 6).value.Map? && |Optional(root, 6).value.entries| <= 65_536
    && (forall e | e in Optional(root, 6).value.entries :: ProfileOk(e, Paths(Optional(root, 8).value.entries)))
    && |Paths(Optional(root, 8).value.entries)| == |Paths(Optional(root, 6).value.entries)| + 1
  }

  lemma HeaderMeans(root: Value)
    ensures Header(root) <==>
            && Fields(root)
            && Optional(root, 0) == Some(Blob([68, 68, 67, 68, 66])) && Optional(root, 1) == Some(Int(1))
            && (exists revision :: revision != "" && Optional(root, 2) == Some(Text(revision)))
            && Optional(root, 3) == Some(Int(3)) && Optional(root, 4) == Some(Text("ddccontrol-db"))
  {
    hide Optional, Fields;
    if Optional(root, 2).Some? && Optional(root, 2).value.Text? {
      assert Optional(root, 2) == Some(Text(Optional(root, 2).value.text));
    }
  }

  /** Exactly these documents are accepted. */
  lemma DocumentMeans(root: Value, consumer: bool, sha: Bytes -> Bytes)
    ensures DecodeValue(root, consumer, sha).Some? <==> DocumentOk(root, consumer, sha)
  {
    hide Header, Optional, Fields, RequiredExtensions, ExtensionsOk, RequiredFeatures.HasTrueExtension, ManifestOk,
      ReadManifest, DecodeNode, NodeOk, DecodeProfiles, ProfileOk, Guarded, CborEncode.EncodeSpec, Paths;
    HeaderMeans(root);
    ExtensionsOkIff(root, 7);
    if ExtensionsOk(root, 7) { RequiredFeatures.RequiredMeans(root, 7); }
    if Optional(root, 8).Some? { ManifestMeans(Optional(root, 8).value); }
    if Optional(root, 5).Some? {
      NodeMeans(Optional(root, 5).value, "", true);
      RootKind(Optional(root, 5).value, true, "options", 0);
    }
    if Optional(root, 8).Some? && Optional(root, 8).value.Map? && Optional(root, 6).Some?
        && Optional(root, 6).value.Map? {
      ProfilesMean(Optional(root, 6).value.entries, Paths(Optional(root, 8).value.entries));
    }
  }

  /** The manifest of an accepted document lists the options file and the profiles'
      files, and no other. */
  lemma ManifestIsExact(root: Value, consumer: bool, sha: Bytes -> Bytes)
    requires DocumentOk(root, consumer, sha)
    ensures Paths(Optional(root, 8).value.entries) ==
            {"options.xml"} + set id | id in Paths(Optional(root, 6).value.entries) :: "monitor/" + id + ".xml"
  {
    hide Optional, Fields, ExtensionsOk, RequiredFeatures.HasTrueExtension, NodeOk, CborEncode.EncodeSpec, ProfileName;
    var listed, ids := Paths(Optional(root, 8).value.entries), Paths(Optional(root, 6).value.entries);
    var files := set id | id in ids :: "monitor/" + id + ".xml";
    FilesCount(ids);
    forall path | path in files
      ensures path in listed && path != "options.xml"
    {
      var id :| id in ids && path == "monitor/" + id + ".xml";
      assert path[0] == 'm';
    }
    assert {"options.xml"} !! files && {"options.xml"} + files <= listed;
    SameSize({"options.xml"} + files, listed);
  }

  lemma {:induction false} FilesCount(ids: set<string>)
    ensures |set id | id in ids :: "monitor/" + id + ".xml"| == |ids|
  {
    if ids != {} {
      var last :| last in ids;
      var rest := ids - {last};
      FilesCount(rest);
      var some := set id | id in rest :: "monitor/" + id + ".xml";
      forall id | id in rest
        ensures "monitor/" + id + ".xml" != "monitor/" + last + ".xml"
      { DifferentFiles(id, last); }
      assert (set id | id in ids :: "monitor/" + id + ".xml") == some + {"monitor/" + last + ".xml"};
    }
  }

  lemma DifferentFiles(a: string, b: string)
    requires a != b
    ensures "monitor/" + a + ".xml" != "monitor/" + b + ".xml"
  {
    var p, q := "monitor/" + a + ".xml", "monitor/" + b + ".xml";
    assert p[8..|p| - 4] == a && q[8..|q| - 4] == b;
  }

  lemma SameSize<T>(a: set<T>, b: set<T>)
    requires a <= b && |a| == |b|
    ensures a == b
  {
    assert b == a + (b - a);
  }

  // ----- Unavailable profiles -----

  /** Profiles named one by another's includes. */
  ghost predicate Trail(profiles: map<string, Node>, p: seq<string>) {
    p != [] &&
    forall i: nat | i < |p| - 1 :: p[i] in profiles && Includes(profiles[p[i]], p[i + 1])
  }

  predicate Includes(profile: Node, file: string) {
    exists n | n in profile.children :: n.tag == "include" && Attr(n, "file") == Some(file)
  }

  /** A profile is there, and each of its includes names a file. */
  predicate NamesAll(profiles: map<string, Node>, id: string) {
    id in profiles && forall n | n in profiles[id].children && n.tag == "include" :: Attr(n, "file").Some?
  }

  /** Some trail of includes is longer than 256, or ends where it should not. */
  ghost predicate Damaged(profiles: map<string, Node>, id: string) {
    exists p :: Trail(profiles, p) && p[0] == id && (|p| > 256 || !NamesAll(profiles, p[|p| - 1]))
  }

  lemma {:induction false} IncludesMean(ns: seq<Node>, t: Option<string>)
    ensures t in IncludeCounts.IncludesOf(ns) <==> exists n | n in ns :: n.tag == "include" && Attr(n, "file") == t
  {
    hide Attr;
    if ns != [] {
      assert ns == [ns[0]] + ns[1..];
      IncludesMean(ns[1..], t);
    }
  }

  lemma TrailMeans(profiles: map<string, Node>, p: seq<string>)
    requires p != []
    ensures G.Chain(ProfileGraph(profiles), p) <==> Trail(profiles, p)
    ensures G.Complete(ProfileGraph(profiles), p[|p| - 1]) <==> NamesAll(profiles, p[|p| - 1])
  {
    hide Includes, NamesAll;
    forall id, t | id in profiles
      ensures Some(t) in ProfileGraph(profiles)[id] <==> Includes(profiles[id], t)
    { IncludesTarget(profiles[id], t); }
    AllNamed(profiles, p[|p| - 1]);
  }

  lemma IncludesTarget(profile: Node, file: string)
    ensures Some(file) in IncludeCounts.IncludesOf(profile.children) <==> Includes(profile, file)
  {
    hide Attr, IncludeCounts.IncludesOf;
    IncludesMean(profile.children, Some(file));
  }

  lemma AllNamed(profiles: map<string, Node>, id: string)
    ensures G.Complete(ProfileGraph(profiles), id) <==> NamesAll(profiles, id)
  {
    hide Attr, IncludeCounts.IncludesOf;
    if id in profiles {
      IncludesMean(profiles[id].children, None);
      assert None !in ProfileGraph(profiles)[id] <==> forall t | t in ProfileGraph(profiles)[id] :: t.Some?;
    }
  }

  lemma KeptMeans(g: G.Graph, id: string)
    ensures G.Kept(g, false, id) <==> G.Resolves(g, false, id, 256)
  {
  }

  /** After the sweep a profile is unavailable exactly when it was required or its
      includes are damaged; nothing else of it changes. */
  lemma GuardedMeans(profiles: map<string, Node>, id: string)
    requires id in profiles
    ensures id in Guarded(profiles)
    ensures Guarded(profiles)[id] == profiles[id].(required := profiles[id].required || Damaged(profiles, id))
  {
    hide G.Chain, G.Complete, G.Resolves, G.Kept, Trail, NamesAll, ProfileGraph;
    G.ResolvesIffChains(ProfileGraph(profiles), id, 256);
    forall p: seq<string> | p != []
      ensures G.Chain(ProfileGraph(profiles), p) <==> Trail(profiles, p)
      ensures G.Complete(ProfileGraph(profiles), p[|p| - 1]) <==> NamesAll(profiles, p[|p| - 1])
    { TrailMeans(profiles, p); }
    TrailsStart(profiles);
    KeptMeans(ProfileGraph(profiles), id);
  }

  lemma TrailsStart(profiles: map<string, Node>)
    ensures forall p :: Trail(profiles, p) ==> p != []
    ensures forall p :: G.Chain(ProfileGraph(profiles), p) ==> p != []
  {
  }
}
