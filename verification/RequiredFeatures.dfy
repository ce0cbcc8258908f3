/** Required features on the wire: what makes a decoded node, or a whole database,
    required, read off the values themselves. */
module RequiredFeatures {
  import opened Base
  import opened Cbor
  import opened CborEncode
  import opened Database
  import opened Schema
  import opened Conversion
  import opened Fallback
  import G = IncludeGraph

  // ----- Nodes, by paths -----

  /** The node reached by child positions. */
  function NodeAt(n: Node, path: seq<nat>): Option<Node>
    decreases |path|
  {
    if path == [] then Some(n)
    else if path[0] < |n.children| then NodeAt(n.children[path[0]], path[1..])
    else None
  }

  lemma {:induction false} RequiredPath(n: Node) returns (path: seq<nat>)
    requires HasRequired(n)
    ensures NodeAt(n, path).Some? && NodeAt(n, path).value.required
    decreases n, 1
  {
    path := [];
    if !n.required {
      var i, rest := AnyRequiredPath(n.children);
      path := [i] + rest;
    }
  }

  lemma {:induction false} AnyRequiredPath(ns: seq<Node>) returns (i: nat, path: seq<nat>)
    requires AnyRequired(ns)
    ensures i < |ns| && NodeAt(ns[i], path).Some? && NodeAt(ns[i], path).value.required
    decreases ns, 0
  {
    hide HasRequired;
    i := 0;
    if HasRequired(ns[0]) {
      path := RequiredPath(ns[0]);
    } else {
      i, path := AnyRequiredPath(ns[1..]);
      i := i + 1;
    }
  }

  lemma {:induction false} PathRequired(n: Node, path: seq<nat>)
    requires NodeAt(n, path).Some? && NodeAt(n, path).value.required
    ensures HasRequired(n)
    decreases |path|
  {
    if path != [] {
      PathRequired(n.children[path[0]], path[1..]);
      AnyRequiredMember(n.children, path[0]);
    }
  }

  /** A node has required semantics exactly when it or some node below it is marked. */
  lemma HasRequiredMeans(n: Node)
    ensures HasRequired(n) <==> exists path :: NodeAt(n, path).Some? && NodeAt(n, path).value.required
  {
    if HasRequired(n) { var path := RequiredPath(n); }
    if path :| NodeAt(n, path).Some? && NodeAt(n, path).value.required { PathRequired(n, path); }
  }

  // ----- Extensions -----

  /** A list of extensions holds one with true in field 1. */
  predicate HasTrueExtension(v: Value, key: nat) {
    && Optional(v, key).Some? && Optional(v, key).value.Array?
    && exists x | x in Optional(v, key).value.items :: Optional(x, 1) == Some(Bool(true))
  }

  /** A well-formed extension: an identity, a boolean and a payload. */
  predicate WellFormed(x: Value) {
    && Fields(x)
    && Optional(x, 0).Some? && Optional(x, 0).value.Text? && ValidIdentity(Optional(x, 0).value.text)
    && Optional(x, 1).Some? && Optional(x, 1).value.Bool? && Optional(x, 2).Some?
    && (Optional(x, 0) == Some(Text(SOURCE_METADATA)) ==>
          Optional(x, 1) == Some(Bool(false)) && HoldsMetadata(Optional(x, 2).value))
  }

  /** Source metadata: texts by name in field 0, and texts in fields 1 to 3 if there. */
  predicate HoldsMetadata(payload: Value) {
    && Fields(payload) && Optional(payload, 0).Some? && Optional(payload, 0).value.Map?
    && (forall e | e in Optional(payload, 0).value.entries :: e.key.Text?)
    && (forall e | e in Optional(payload, 0).value.entries :: e.value.Text?)
    && forall k: nat | 1 <= k <= 3 :: Optional(payload, k).None? || Optional(payload, k).value.Text?
  }

  lemma ExtensionMeans(x: Value)
    ensures ReadExtension(x).Some? <==> WellFormed(x)
    ensures ReadExtension(x).Some? ==>
              && Optional(x, 0) == Some(Text(ReadExtension(x).value.id))
              && (ReadExtension(x).value.required <==> Optional(x, 1) == Some(Bool(true)))
  {
    hide ValidIdentity, Fields, Optional, MetadataShape, HoldsMetadata;
    if Optional(x, 2).Some? { MetadataMeans(Optional(x, 2).value); }
  }

  lemma MetadataMeans(payload: Value)
    ensures MetadataShape(payload) <==> HoldsMetadata(payload)
  {
    hide Fields, Optional;
    assert HoldsMetadata(payload) ==> TextOrAbsent(Optional(payload, 1)) && TextOrAbsent(Optional(payload, 2))
                                      && TextOrAbsent(Optional(payload, 3));
  }

  predicate DistinctIdentities(vs: seq<Value>) {
    forall i, j | 0 <= i < j < |vs| :: Optional(vs[i], 0) != Optional(vs[j], 0)
  }

  /** A list is accepted exactly when its extensions are well formed with distinct
      identities, and requires something exactly when one of them does. */
  lemma {:induction false} ExtensionsMean(vs: seq<Value>, seen: set<string>)
    ensures ReadExtensions(vs, seen).Some? <==>
            && (forall x | x in vs :: WellFormed(x) && Optional(x, 0).value.text !in seen) && DistinctIdentities(vs)
    ensures ReadExtensions(vs, seen).Some? ==>
              (ReadExtensions(vs, seen).value <==> exists x | x in vs :: Optional(x, 1) == Some(Bool(true)))
  {
    hide ReadExtension, WellFormed, Optional;
    if vs != [] {
      assert vs == [vs[0]] + vs[1..];
      ExtensionMeans(vs[0]);
      if ReadExtension(vs[0]).Some? {
        var id := ReadExtension(vs[0]).value.id;
        ExtensionsMean(vs[1..], seen + {id});
        forall x | x in vs[1..] && WellFormed(x)
          ensures Optional(x, 0).Some? && Optional(x, 0).value.Text?
        { HasIdentity(x); }
        SplitDistinct(vs, seen, id);
      }
    }
  }

  lemma HasIdentity(x: Value)
    requires WellFormed(x)
    ensures Optional(x, 0).Some? && Optional(x, 0).value.Text?
  {
    hide Optional, ValidIdentity, HoldsMetadata, Fields;
  }

  lemma SplitDistinct(vs: seq<Value>, seen: set<string>, id: string)
    requires vs != [] && WellFormed(vs[0]) && Optional(vs[0], 0) == Some(Text(id))
    requires forall x | x in vs[1..] :: WellFormed(x) ==> Optional(x, 0).Some? && Optional(x, 0).value.Text?
    ensures (forall x | x in vs :: WellFormed(x) && Optional(x, 0).value.text !in seen) && DistinctIdentities(vs) <==>
            id !in seen && (forall x | x in vs[1..] :: WellFormed(x) && Optional(x, 0).value.text !in seen + {id})
            && DistinctIdentities(vs[1..])
  {
    hide WellFormed, Optional;
    var rest := vs[1..];
    assert vs == [vs[0]] + rest;
    if (forall x | x in vs :: WellFormed(x) && Optional(x, 0).value.text !in seen) && DistinctIdentities(vs) {
      forall x | x in rest
        ensures WellFormed(x) && Optional(x, 0).value.text !in seen + {id}
      {
        var i :| 0 <= i < |rest| && rest[i] == x;
        assert vs[i + 1] == x && Optional(vs[0], 0) != Optional(vs[i + 1], 0);
      }
      forall i, j | 0 <= i < j < |rest|
        ensures Optional(rest[i], 0) != Optional(rest[j], 0)
      { assert Optional(vs[i + 1], 0) != Optional(vs[j + 1], 0); }
    }
    if id !in seen && (forall x | x in rest :: WellFormed(x) && Optional(x, 0).value.text !in seen + {id})
        && DistinctIdentities(rest) {
      forall i, j | 0 <= i < j < |vs|
        ensures Optional(vs[i], 0) != Optional(vs[j], 0)
      {
        if i == 0 {
          assert rest[j - 1] in rest;
        } else {
          assert Optional(rest[i - 1], 0) != Optional(rest[j - 1], 0);
        }
      }
    }
  }

  lemma RequiredMeans(v: Value, key: nat)
    requires RequiredExtensions(v, key).Some?
    ensures RequiredExtensions(v, key).value <==> HasTrueExtension(v, key)
  {
    hide ReadExtensions;
    var x := Optional(v, key);
    if x.Some? { ExtensionsMean(x.value.items, {}); }
  }

  // ----- Decoded nodes -----

  /** A node value of a kind without a number here, with a required extension, or
      with such a node among its children. */
  ghost predicate Needs(v: Value)
    decreases Items(v), 0, 0
  {
    || (Optional(v, 0).Some? && Optional(v, 0).value.Int? && Optional(v, 0).value.n > 8
        && Optional(v, 0).value.n != 255)
    || HasTrueExtension(v, 3)
    || (Optional(v, 2).Some? && Optional(v, 2).value.Array? && AnyNeeds(Optional(v, 2).value.items))
  }

  ghost predicate AnyNeeds(vs: seq<Value>)
    decreases ItemsAll(vs), 1, |vs|
  { vs != [] && (Needs(vs[0]) || AnyNeeds(vs[1..])) }

  lemma {:induction false} DecodedNeeds(v: Value, parent: string, inOptions: bool)
    requires DecodeNode(v, parent, inOptions).Some?
    ensures HasRequired(DecodeNode(v, parent, inOptions).value) <==> Needs(v)
    decreases Items(v), 0, 0
  {
    hide RequiredExtensions, HasTrueExtension, DecodeAttrs, TagOf, ExecutableAttributes, Fields, Optional;
    RequiredMeans(v, 3);
    OptionalSmaller(v, 2);
    var kind := Optional(v, 0).value.n;
    KnownKinds(kind);
    var tag := TagOf(v, kind).value;
    AllDecodedNeed(Optional(v, 2).value.items, tag, inOptions);
  }

  lemma KnownKinds(kind: nat)
    ensures UnknownKind(kind) <==> kind > 8 && kind != 255
    ensures KindName(kind) ==
            if kind == 0 then Some("options") else if kind == 1 then Some("group")
            else if kind == 2 then Some("subgroup") else if kind == 3 then Some("control")
            else if kind == 4 then Some("value") else if kind == 5 then Some("monitor")
            else if kind == 6 then Some("caps") else if kind == 7 then Some("include")
            else if kind == 8 then Some("controls")
            else None
  {
  }

  lemma {:induction false} AllDecodedNeed(vs: seq<Value>, parent: string, inOptions: bool)
    requires DecodeNodes(vs, parent, inOptions).Some?
    ensures AnyRequired(DecodeNodes(vs, parent, inOptions).value) <==> AnyNeeds(vs)
    decreases ItemsAll(vs), 1, |vs|
  {
    hide DecodeNode, HasRequired, Needs;
    if vs != [] {
      DecodedNeeds(vs[0], parent, inOptions);
      AllDecodedNeed(vs[1..], parent, inOptions);
      var ns := DecodeNodes(vs, parent, inOptions).value;
      assert ns[1..] == DecodeNodes(vs[1..], parent, inOptions).value;
    }
  }

  // ----- Databases -----

  /** A consumer refuses a database with a required feature; a tool does not. */
  lemma ConsumerRefuses(root: Value, sha: Bytes -> Bytes)
    ensures HasTrueExtension(root, 7) ==> DecodeValue(root, true, sha) == None
    ensures !HasTrueExtension(root, 7) ==> DecodeValue(root, true, sha) == DecodeValue(root, false, sha)
  {
    hide HasTrueExtension, RequiredExtensions, DecodeNode, DecodeProfiles, ReadManifest, Optional, Header, Sealed,
      Guarded;
    if RequiredExtensions(root, 7).Some? { RequiredMeans(root, 7); }
  }

  lemma {:induction false} ProfileNeeds(es: seq<Entry>, paths: set<string>, i: nat)
    requires DistinctKeys(es) && DecodeProfiles(es, paths).Some? && i < |es|
    ensures es[i].key.Text? && es[i].key.text in DecodeProfiles(es, paths).value
    ensures HasRequired(DecodeProfiles(es, paths).value[es[i].key.text]) <==> Needs(es[i].value)
  {
    hide DecodeNode, DecodeProfiles, HasRequired, Needs;
    ProfilesMeaning(es, paths);
    assert es[i] in es;
    DecodedNeeds(es[i].value, "", false);
  }

  /** Something required anywhere in a validated document, read off its values. */
  ghost predicate DocumentNeeds(root: Value) {
    || HasTrueExtension(root, 7)
    || (Optional(root, 5).Some? && Needs(Optional(root, 5).value))
    || (Optional(root, 6).Some? && Optional(root, 6).value.Map?
        && exists e | e in Optional(root, 6).value.entries :: Needs(e.value))
  }

  /** If anything in it is required, the XML sources may not stand in for it: the
      snapshot file says false, and no XML sources load beside that file. */
  lemma NeedsForbidXml(root: Value, sha: Bytes -> Bytes, sources: Sources)
    requires Valid(root, sha) && FallbackManifest(root).Some? && DocumentNeeds(root)
    requires Optional(root, 6).Some? && Optional(root, 6).value.Map? && DistinctKeys(Optional(root, 6).value.entries)
    ensures FallbackManifest(root) == Some(Bool(false)) && EncodeSpec(Bool(false)).Some?
    ensures LoadContext(Installed(None, Some(EncodeSpec(Bool(false)).value), sources), sha) == None
  {
    hide FallbackManifest, Valid, HasRequired, HasTrueExtension, RequiredExtensions, ReadDocument, ReadManifest,
      DecodeNode, DecodeProfiles, Optional, Needs, DistinctKeys, LoadContext, EncodeSpec;
    DecodedFlags(root, sha);
    RequirementForbidsXml(root, sha, sources);
  }

  /** In a validated document the decoded flags are those of the values. */
  lemma DecodedFlags(root: Value, sha: Bytes -> Bytes)
    requires Valid(root, sha)
    requires Optional(root, 6).Some? && Optional(root, 6).value.Map? && DistinctKeys(Optional(root, 6).value.entries)
    ensures RequiredExtensions(root, 7).Some?
    ensures var db := DecodeValue(root, false, sha).value;
            DocumentNeeds(root) <==>
              || RequiredExtensions(root, 7) != Some(false) || HasRequired(db.options)
              || exists id | id in db.profiles :: HasRequired(db.profiles[id])
  {
    hide HasRequired, HasTrueExtension, RequiredExtensions, DecodeNode, DecodeProfiles, ReadManifest, Optional,
      Header, Sealed, Guarded, ActiveOnly, Needs, ProfileGraph, G.Kept;
    ValidDecodes(root, sha);
    RequiredMeans(root, 7);
    DecodedNeeds(Optional(root, 5).value, "", true);
    var es, paths := Optional(root, 6).value.entries, ReadManifest(Optional(root, 8).value).value;
    var profiles := DecodeProfiles(es, paths).value;
    ProfilesMeaning(es, paths);
    forall i | 0 <= i < |es|
      ensures es[i].key.Text? && es[i].key.text in profiles
              && (HasRequired(profiles[es[i].key.text]) <==> Needs(es[i].value))
    { ProfileNeeds(es, paths, i); }
    if e :| e in es && Needs(e.value) {
      var i :| 0 <= i < |es| && es[i] == e;
      assert HasRequired(profiles[es[i].key.text]);
    }
    if id :| id in profiles && HasRequired(profiles[id]) {
      var e :| e in es && e.key == Text(id);
      var i :| 0 <= i < |es| && es[i] == e;
      assert Needs(es[i].value);
    }
  }


  lemma ValidDecodes(root: Value, sha: Bytes -> Bytes)
    requires Valid(root, sha)
    ensures RequiredExtensions(root, 7).Some?
    ensures Optional(root, 5).Some? && DecodeNode(Optional(root, 5).value, "", true).Some?
    ensures Optional(root, 8).Some? && ReadManifest(Optional(root, 8).value).Some?
    ensures Optional(root, 6).Some? && Optional(root, 6).value.Map?
    ensures DecodeProfiles(Optional(root, 6).value.entries, ReadManifest(Optional(root, 8).value).value).Some?
    ensures DecodeValue(root, false, sha).value ==
            Decoded(DecodeNode(Optional(root, 5).value, "", true).value,
                    DecodeProfiles(Optional(root, 6).value.entries, ReadManifest(Optional(root, 8).value).value).value)
  {
    hide DecodeNode, DecodeProfiles, ReadManifest, Optional, Header, Sealed, ActiveOnly, Guarded, G.Kept,
      ProfileGraph, RequiredExtensions;
    var profiles := DecodeProfiles(Optional(root, 6).value.entries, ReadManifest(Optional(root, 8).value).value).value;
    GuardedKeys(profiles);
    ValidIsUnguarded(profiles);
  }
}
