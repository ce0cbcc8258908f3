/** Removing the compiled file of a converted database changes no load: its snapshot
    manifest vouches for the XML sources. */
module FallbackLoads {
  import opened Base
  import opened Cbor
  import opened CborEncode
  import opened Caps
  import opened Schema
  import opened Compiler
  import opened Conversion
  import opened Fallback
  import AcceptedSources
  import DecodeOrder
  import FallbackConverted
  import S = Session

  // ----- The digests of the sources -----

  lemma {:induction false} DigestAt(ps: seq<Profile>, i: nat)
    requires i < |ps| && forall j, k | 0 <= j < k < |ps| :: PathOf(ps[j].id) != PathOf(ps[k].id)
    ensures PathOf(ps[i].id) in ProfileDigests(ps) && ProfileDigests(ps)[PathOf(ps[i].id)] == ps[i].digest
    decreases |ps|
  {
    hide PathOf;
    if i < |ps| - 1 { DigestAt(ps[..|ps| - 1], i); }
  }

  lemma {:induction false} DigestOf(ps: seq<Profile>, path: string) returns (i: nat)
    requires path in ProfileDigests(ps)
    ensures i < |ps| && PathOf(ps[i].id) == path
    decreases |ps|
  {
    hide PathOf;
    i := |ps| - 1;
    if PathOf(ps[i].id) != path { i := DigestOf(ps[..i], path); }
  }

  /** The i-th entry of a manifest; the last one is the options file. */
  lemma ManifestEntry(s: Sources, i: nat)
    requires i < |ManifestOf(s).entries|
    ensures ManifestOf(s).entries[i] ==
            if i < |s.profiles| then Entry(Text(PathOf(s.profiles[i].id)), Blob(s.profiles[i].digest))
            else Entry(Text("options.xml"), Blob(s.digest))
  {
  }

  lemma EntryDigest(s: Sources, e: Entry)
    requires DistinctKeys(ManifestOf(s).entries) && e in ManifestOf(s).entries
    ensures e.key.Text? && e.key.text in FileDigests(s) && e.value == Blob(FileDigests(s)[e.key.text])
  {
    hide PathOf, ManifestOf;
    var es, ps := ManifestOf(s).entries, s.profiles;
    forall j, k | 0 <= j < k < |ps|
      ensures PathOf(ps[j].id) != PathOf(ps[k].id)
    {
      ManifestEntry(s, j);
      ManifestEntry(s, k);
      assert es[j].key != es[k].key;
    }
    var i: nat :| i < |es| && es[i] == e;
    ManifestEntry(s, i);
    if i < |ps| {
      DigestAt(ps, i);
      ManifestEntry(s, |ps|);
      assert es[i].key != es[|ps|].key;
    }
  }

  lemma DigestEntry(s: Sources, path: string)
    requires path in FileDigests(s)
    ensures exists e | e in ManifestOf(s).entries :: e.key == Text(path)
  {
    hide PathOf, ManifestOf;
    var ps := s.profiles;
    var i := |ps|;
    if path != "options.xml" { i := DigestOf(ps, path); }
    ManifestEntry(s, i);
    assert ManifestOf(s).entries[i] in ManifestOf(s).entries;
  }

  // ----- The snapshot manifest -----

  /** The manifest of a converted database, written out, verifies its sources. */
  lemma ManifestVerifies(s: Sources)
    requires EncodeSpec(ManifestOf(s)).Some? && ReadManifest(Canonical(ManifestOf(s))).Some?
    ensures Verified(EncodeSpec(ManifestOf(s)).value, FileDigests(s))
  {
    hide ReadDocument, Document, Wire, Canonical, Encodable, FileDigests, ManifestOf, CanonicalEntry, ReadManifest;
    var m, files := ManifestOf(s), FileDigests(s);
    EncodedReadsBack(m);
    AcceptedKeys(m);
    ManifestEntries(s);
    ManifestPaths(Canonical(m), files);
  }

  /** The canonical manifest lists exactly the files, with their digests. */
  lemma ManifestEntries(s: Sources)
    requires Encodable(ManifestOf(s))
    ensures Canonical(ManifestOf(s)).Map?
    ensures forall f | f in Canonical(ManifestOf(s)).entries ::
              f.key.Text? && f.key.text in FileDigests(s) && f.value == Blob(FileDigests(s)[f.key.text])
    ensures forall path | path in FileDigests(s) ::
              exists f | f in Canonical(ManifestOf(s)).entries :: f.key == Text(path)
  {
    hide Canonical, Encodable, FileDigests, ManifestOf, CanonicalEntry;
    var m, files := ManifestOf(s), FileDigests(s);
    AcceptedKeys(m);
    assert Map(m.entries) == m;
    DecodeOrder.CanonicalMembers(m.entries);
    var cs := Canonical(m).entries;
    forall f | f in cs
      ensures f.key.Text? && f.key.text in files && f.value == Blob(files[f.key.text])
    {
      var e :| e in m.entries && EncodableEntry(e) && f == CanonicalEntry(e);
      EntryDigest(s, e);
      BlobEntry(e);
    }
    forall path | path in files
      ensures exists f | f in cs :: f.key == Text(path)
    {
      DigestEntry(s, path);
      var e :| e in m.entries && e.key == Text(path);
      assert EncodableEntry(e) && CanonicalEntry(e) in cs;
      KeyKept(e);
    }
  }

  lemma ManifestPaths(c: Value, files: map<string, Bytes>)
    requires ReadManifest(c).Some? && c.Map?
    requires forall f | f in c.entries :: f.key.Text? && f.key.text in files
    requires forall path | path in files :: exists f | f in c.entries :: f.key == Text(path)
    ensures |ReadManifest(c).value| == |files|
  {
    assert ReadManifest(c).value == files.Keys;
  }

  lemma AcceptedKeys(m: Value)
    requires Encodable(m) && m.Map?
    ensures DistinctKeys(m.entries) && Encodable(Map(m.entries))
  {
  }

  lemma BlobEntry(e: Entry)
    requires EncodableEntry(e) && e.value.Blob?
    ensures CanonicalEntry(e) == e
  {
  }

  lemma KeyKept(e: Entry)
    requires EncodableEntry(e)
    ensures CanonicalEntry(e).key == e.key
  {
  }

  /** What `fallback_manifest` returns for a converted database verifies exactly the
      sources it was made from. */
  lemma SnapshotVerifies(s: Sources, given: Option<string>, sha: Bytes -> Bytes)
    requires Convert(s, given, sha).Some?
    ensures var m := FallbackManifest(Convert(s, given, sha).value);
            m.Some? && EncodeSpec(m.value).Some? && Verified(EncodeSpec(m.value).value, FileDigests(s))
  {
    hide Compile, CompileProfiles, Encodable, Optional, EncodeSpec, Canonical, Valid, Checked, ReadManifest, Verified,
      FallbackManifest, RequiredExtensions;
    FallbackConverted.ConvertedAuthorises(s, given, sha);
    var options, profiles := Compile(s.options, "", true, true, 0).value, CompileProfiles(s.profiles).value;
    var manifest := ManifestOf(s);
    var revision, snapshot := Revision(given, options).value, sha(EncodeSpec(manifest).value);
    var root := RootOf(revision, options, profiles, manifest, snapshot);
    Stored(root, sha);
    RootFields(revision, options, profiles, manifest, snapshot);
    DecodeOrder.OptionalCanonical(root, 8);
    DecodeOrder.RequiredExtensionsCanonical(root, 7);
    NoDatabaseFeature(root);
    ValidParts(Canonical(root), sha);
    SameEncoding(manifest);
    ManifestVerifies(s);
  }

  lemma NoDatabaseFeature(root: Value)
    requires Optional(root, 7) == None
    ensures RequiredExtensions(root, 7) == Some(false)
  {
  }

  lemma SameEncoding(v: Value)
    requires EncodeSpec(v).Some?
    ensures Encodable(v) && EncodeSpec(Canonical(v)) == EncodeSpec(v)
  {
    hide ReadDocument, Document, Wire, Canonical, Encodable;
    EncodedReadsBack(v);
    ReadThenEncode(EncodeSpec(v).value);
  }

  /** With or without its compiled file, and with its snapshot manifest in place, an
      installed database that was converted loads every profile alike. */
  lemma CompiledFileIsOptional(s: Sources, given: Option<string>, sha: Bytes -> Bytes, name: string, caps: CapsTable,
                               tolerant: bool)
    requires Convert(s, given, sha).Some? && AcceptedSources.ShortSources(s)
    ensures var root := Convert(s, given, sha).value;
            && EncodeSpec(root).Some? && FallbackManifest(root).Some? && EncodeSpec(FallbackManifest(root).value).Some?
            && var snapshot := Some(EncodeSpec(FallbackManifest(root).value).value);
               var with, without := LoadContext(Installed(Some(EncodeSpec(root).value), snapshot, s), sha),
                                    LoadContext(Installed(None, snapshot, s), sha);
               && (with.Some? <==> without.Some?)
               && (with.Some? ==>
                     S.Load(with.value, name, caps, tolerant) == S.Load(without.value, name, caps, tolerant))
  {
    hide Convert, EncodeSpec, FallbackManifest, CborContext, XmlContext, Verified, AcceptedSources.ShortSources, S.Load;
    SnapshotVerifies(s, given, sha);
    AcceptedSources.AcceptedLoadsAlike(s, given, sha, name, caps, tolerant);
  }
}
