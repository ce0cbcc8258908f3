/** Whether the XML sources may stand in for a removed compiled database: only when
    nothing in it was necessary to understand. */
module Fallback {
  import opened Base
  import opened Cbor
  import opened CborEncode
  import opened Database
  import opened Schema
  import opened Conversion

  // ----- The decision -----

  predicate LooksNecessary(v: Value) {
    && Optional(v, 0).Some? && Optional(v, 0).value.Text? && ValidIdentity(Optional(v, 0).value.text)
    && Optional(v, 1) == Some(Bool(true)) && Optional(v, 2).Some?
  }

  /** A required extension, or anything of its shape, somewhere inside. */
  predicate Necessary(v: Value)
    decreases v, 1
  {
    match v
    case Map(entries) => LooksNecessary(v) || exists i | 0 <= i < |entries| :: NecessaryEntry(entries[i])
    case Array(items) => exists i | 0 <= i < |items| :: Necessary(items[i])
    case _ => false
  }

  predicate NecessaryEntry(e: Entry)
    decreases e, 0
  { Necessary(e.value) }

  /** A node of an unknown kind; None for a malformed one met before. */
  function UnknownNode(v: Value): Option<bool>
    decreases Items(v), 0, 0
  {
    match Optional(v, 0)
    case Some(Int(kind)) =>
      if kind < 0 then None
      else if UnknownKind(kind) then Some(true)
      else
        (match Optional(v, 2)
         case Some(Array(children)) => UnknownNodes(children)
         case _ => None)
    case _ => None
  }

  function UnknownNodes(vs: seq<Value>): Option<bool>
    decreases ItemsAll(vs), 1, |vs|
  {
    if vs == [] then Some(false)
    else
      match UnknownNode(vs[0])
      case None => None
      case Some(true) => Some(true)
      case Some(false) => UnknownNodes(vs[1..])
  }

  function UnknownProfiles(es: seq<Entry>): Option<bool> {
    if es == [] then Some(false)
    else
      match UnknownNode(es[0].value)
      case None => None
      case Some(true) => Some(true)
      case Some(false) => UnknownProfiles(es[1..])
  }

  /** `fallback_manifest`: the manifest, or false. */
  function FallbackManifest(root: Value): Option<Value> {
    if Necessary(root) then Some(Bool(false))
    else
      match Optional(root, 5)
      case None => None
      case Some(options) =>
        match UnknownNode(options)
        case None => None
        case Some(true) => Some(Bool(false))
        case Some(false) =>
          match Optional(root, 6)
          case Some(Map(profiles)) =>
            (match UnknownProfiles(profiles)
             case None => None
             case Some(true) => Some(Bool(false))
             case Some(false) => Optional(root, 8))
          case _ => None
  }

  // ----- Soundness -----

  lemma {:induction false} LookupIndex(es: seq<Entry>, key: nat) returns (i: nat)
    requires Lookup(es, key).Some?
    ensures i < |es| && es[i].value == Lookup(es, key).value
  {
    if es[0].key.Int? && es[0].key.n == key { i := 0; } else { var j := LookupIndex(es[1..], key); i := j + 1; }
  }

  lemma PartNotNecessary(v: Value, key: nat)
    requires !Necessary(v) && Optional(v, key).Some?
    ensures !Necessary(Optional(v, key).value)
  {
    var i := LookupIndex(v.entries, key);
    assert !NecessaryEntry(v.entries[i]);
  }

  lemma {:induction false} NoRequiredExtension(vs: seq<Value>, seen: set<string>)
    requires forall i | 0 <= i < |vs| :: !Necessary(vs[i])
    requires ReadExtensions(vs, seen).Some?
    ensures ReadExtensions(vs, seen) == Some(false)
  {
    hide ValidIdentity, MetadataShape, Fields;
    if vs != [] {
      assert !Necessary(vs[0]);
      var x := ReadExtension(vs[0]).value;
      assert !x.required by { assert !LooksNecessary(vs[0]); }
      forall i | 0 <= i < |vs| - 1
        ensures !Necessary(vs[1..][i])
      { assert vs[1..][i] == vs[i + 1]; }
      NoRequiredExtension(vs[1..], seen + {x.id});
    }
  }

  lemma NothingRequired(v: Value, key: nat)
    requires !Necessary(v) && RequiredExtensions(v, key).Some?
    ensures RequiredExtensions(v, key) == Some(false)
  {
    hide ReadExtensions;
    var x := Optional(v, key);
    if x.Some? {
      PartNotNecessary(v, key);
      NoRequiredExtension(x.value.items, {});
    }
  }

  /** A decoded node without necessary or unknown parts requires nothing. */
  lemma {:induction false} DecodesUnrequired(v: Value, parent: string, inOptions: bool)
    requires !Necessary(v) && UnknownNode(v) == Some(false) && DecodeNode(v, parent, inOptions).Some?
    ensures !HasRequired(DecodeNode(v, parent, inOptions).value)
    decreases Items(v), 0, 0
  {
    hide Necessary, RequiredExtensions, DecodeAttrs, TagOf, ExecutableAttributes, Fields, Optional;
    NothingRequired(v, 3);
    PartNotNecessary(v, 2);
    var values := Optional(v, 2).value;
    ItemsNotNecessary(values);
    OptionalSmaller(v, 2);
    var tag := TagOf(v, Optional(v, 0).value.n).value;
    AllDecodeUnrequired(values.items, tag, inOptions);
  }

  lemma OptionalSmaller(v: Value, key: nat)
    ensures Optional(v, key).Some? ==> Items(Optional(v, key).value) < Items(v)
    ensures Optional(v, key).Some? && Optional(v, key).value.Array? ==>
            ItemsAll(Optional(v, key).value.items) < Items(v)
  {
  }

  lemma ItemsNotNecessary(v: Value)
    requires v.Array? && !Necessary(v)
    ensures forall i | 0 <= i < |v.items| :: !Necessary(v.items[i])
  {
  }

  lemma {:induction false} AllDecodeUnrequired(vs: seq<Value>, parent: string, inOptions: bool)
    requires forall i | 0 <= i < |vs| :: !Necessary(vs[i])
    requires UnknownNodes(vs) == Some(false) && DecodeNodes(vs, parent, inOptions).Some?
    ensures !AnyRequired(DecodeNodes(vs, parent, inOptions).value)
    decreases ItemsAll(vs), 1, |vs|
  {
    hide Necessary, UnknownNode, DecodeNode, HasRequired;
    if vs != [] {
      DecodesUnrequired(vs[0], parent, inOptions);
      AllDecodeUnrequired(vs[1..], parent, inOptions);
      var ns := DecodeNodes(vs, parent, inOptions).value;
      assert ns[1..] == DecodeNodes(vs[1..], parent, inOptions).value;
    }
  }

  lemma {:induction false} KnownProfile(es: seq<Entry>, i: nat)
    requires UnknownProfiles(es) == Some(false) && i < |es|
    ensures UnknownNode(es[i].value) == Some(false)
  {
    hide UnknownNode;
    if i > 0 { KnownProfile(es[1..], i - 1); }
  }

  lemma {:induction false} ProfilesUnrequired(es: seq<Entry>, paths: set<string>)
    requires forall i | 0 <= i < |es| :: !Necessary(es[i].value) && UnknownNode(es[i].value) == Some(false)
    requires DecodeProfiles(es, paths).Some?
    ensures forall id | id in DecodeProfiles(es, paths).value :: !HasRequired(DecodeProfiles(es, paths).value[id])
    decreases |es|
  {
    hide Necessary, UnknownNode, DecodeNode, HasRequired, ProfileId, PathOf;
    if es != [] {
      var init, last := es[..|es| - 1], es[|es| - 1];
      ProfilesUnrequired(init, paths);
      DecodesUnrequired(last.value, "", false);
    }
  }

  /** XML may replace a validated database only if nothing it holds was required: no
      database feature, no options node and no profile node at any depth. */
  lemma FallbackIsAuthorised(root: Value, sha: Bytes -> Bytes)
    requires Valid(root, sha) && FallbackManifest(root).Some? && FallbackManifest(root) != Some(Bool(false))
    ensures Optional(root, 8) == FallbackManifest(root)
    ensures RequiredExtensions(root, 7) == Some(false)
    ensures var db := DecodeValue(root, false, sha).value;
            !HasRequired(db.options) && forall id | id in db.profiles :: !HasRequired(db.profiles[id])
  {
    hide Necessary, UnknownNode, UnknownProfiles, DecodeNode, HasRequired, DecodeProfiles, Header, Sealed,
      RequiredExtensions, Optional, ReadManifest, ActiveOnly, Guarded;
    NothingRequired(root, 7);
    ValidParts(root, sha);
    PartNotNecessary(root, 5);
    PartNotNecessary(root, 6);
    DecodesUnrequired(Optional(root, 5).value, "", true);
    var es := Optional(root, 6).value.entries;
    forall i | 0 <= i < |es|
      ensures !Necessary(es[i].value) && UnknownNode(es[i].value) == Some(false)
    {
      EntryNotNecessary(Optional(root, 6).value, i);
      KnownProfile(es, i);
    }
    ProfilesUnrequired(es, ReadManifest(Optional(root, 8).value).value);
  }

  lemma EntryNotNecessary(v: Value, i: nat)
    requires v.Map? && i < |v.entries| && !Necessary(v)
    ensures !Necessary(v.entries[i].value)
  {
    assert !NecessaryEntry(v.entries[i]);
  }

  /** A validated database that requires anything leaves a snapshot file with which
      no XML sources are loaded. */
  lemma RequirementForbidsXml(root: Value, sha: Bytes -> Bytes, sources: Sources)
    requires Valid(root, sha) && FallbackManifest(root).Some?
    requires var db := DecodeValue(root, false, sha).value;
             || RequiredExtensions(root, 7) != Some(false) || HasRequired(db.options)
             || exists id | id in db.profiles :: HasRequired(db.profiles[id])
    ensures FallbackManifest(root) == Some(Bool(false)) && EncodeSpec(Bool(false)).Some?
    ensures LoadContext(Installed(None, Some(EncodeSpec(Bool(false)).value), sources), sha) == None
  {
    hide FallbackManifest, Valid, DecodeValue, HasRequired, RequiredExtensions, ReadDocument, XmlContext, ReadManifest;
    if FallbackManifest(root) != Some(Bool(false)) { FallbackIsAuthorised(root, sha); }
    EncodedReadsBack(Bool(false));
  }
}
