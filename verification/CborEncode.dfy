/** The canonical encoder: sorts every map by the encodings of its keys, refuses
    duplicates and anything outside the permitted subset, and counts items as it
    goes. */
module CborEncode {
  import opened Base
  import opened Cbor
  import CborExact
  import Utf8

  // ----- What may be encoded, and in which form -----

  predicate Encodable(v: Value)
    decreases v, 1
  {
    match v
    case Int(_) => true
    case Bool(_) => true
    case Null => true
    case Blob(bytes) => |bytes| <= MAX_BYTES
    case Text(text) => |Utf8.Encode(text)| <= MAX_TEXT
    case Array(items) => |items| <= MAX_CONTAINER && forall i | 0 <= i < |items| :: Encodable(items[i])
    case Map(entries) =>
      && |entries| <= MAX_CONTAINER && DistinctKeys(entries)
      && forall i | 0 <= i < |entries| :: EncodableEntry(entries[i])
    case Float(_) => false
    case Tag(_, _) => false
  }

  predicate EncodableEntry(e: Entry)
    decreases e, 0
  { SmallKey(e.key) && Encodable(e.value) }

  predicate DistinctKeys(es: seq<Entry>) {
    forall i, j | 0 <= i < j < |es| :: es[i].key != es[j].key
  }

  predicate Before(e: Entry, f: Entry)
    requires SmallKey(e.key) && SmallKey(f.key)
  { Less(KeyWire(e.key), KeyWire(f.key)) }

  function Insert(e: Entry, es: seq<Entry>): (r: seq<Entry>)
    requires SmallKey(e.key) && SmallKeys(es)
    ensures SmallKeys(r) && |r| == |es| + 1
    ensures forall x :: x in r <==> x == e || x in es
  {
    hide Before;
    if es == [] || !Before(es[0], e) then [e] + es
    else
      assert es == [es[0]] + es[1..];
      [es[0]] + Insert(e, es[1..])
  }

  function SortEntries(es: seq<Entry>): (r: seq<Entry>)
    requires SmallKeys(es)
    ensures SmallKeys(r) && |r| == |es|
    ensures forall x :: x in r <==> x in es
  {
    if es == [] then []
    else
      assert es == [es[0]] + es[1..];
      Insert(es[0], SortEntries(es[1..]))
  }

  /** Every map at every depth in key order. */
  function Canonical(v: Value): Value
    requires Encodable(v)
    decreases v, 1
  {
    match v
    case Array(items) => Array(seq(|items|, i requires 0 <= i < |items| => Canonical(items[i])))
    case Map(entries) => Map(SortEntries(CanonicalEntries(entries)))
    case _ => v
  }

  function CanonicalEntries(es: seq<Entry>): (r: seq<Entry>)
    requires forall i | 0 <= i < |es| :: EncodableEntry(es[i])
    ensures |r| == |es| && SmallKeys(r) && forall i | 0 <= i < |es| :: r[i] == CanonicalEntry(es[i])
    decreases es, 0
  {
    if es == [] then [] else [CanonicalEntry(es[0])] + CanonicalEntries(es[1..])
  }

  function CanonicalEntry(e: Entry): (r: Entry)
    requires EncodableEntry(e)
    ensures r.key == e.key
    decreases e, 0
  { Entry(e.key, Canonical(e.value)) }

  ghost function EncodeSpec(v: Value): Option<Bytes> {
    if Encodable(v) && Document(Canonical(v)) then Some(Wire(Canonical(v))) else None
  }

  // ----- Key order -----

  lemma KeyWireInjective(k: Value, l: Value)
    requires SmallKey(k) && SmallKey(l) && KeyWire(k) == KeyWire(l)
    ensures k == l
  {
    hide ParseItem, Head;
    CborExact.KeyMajor(k);
    CborExact.KeyMajor(l);
    CborExact.ParseItemComplete(k, [], 0, 0);
    CborExact.ParseItemComplete(l, [], 0, 0);
  }

  lemma {:induction false} AscendingBounds(es: seq<Entry>, previous: Option<Bytes>, x: Entry)
    requires SmallKeys(es) && Ascending(es, previous) && x in es
    ensures After(previous, KeyWire(x.key))
    decreases |es|
  {
    hide KeyWire;
    if x != es[0] {
      AscendingBounds(es[1..], Some(KeyWire(es[0].key)), x);
      if previous.Some? { LessTransitive(previous.value, KeyWire(es[0].key), KeyWire(x.key)); }
    }
  }

  lemma {:induction false} InsertAscending(e: Entry, es: seq<Entry>, previous: Option<Bytes>)
    requires SmallKey(e.key) && SmallKeys(es) && Ascending(es, previous) && After(previous, KeyWire(e.key))
    requires forall x | x in es :: x.key != e.key
    ensures Ascending(Insert(e, es), previous)
    decreases |es|
  {
    hide KeyWire, Less;
    var r := Insert(e, es);
    if es != [] {
      LessTrichotomy(KeyWire(es[0].key), KeyWire(e.key));
      if Before(es[0], e) {
        InsertAscending(e, es[1..], Some(KeyWire(es[0].key)));
        assert r[1..] == Insert(e, es[1..]);
      } else {
        if KeyWire(es[0].key) == KeyWire(e.key) { KeyWireInjective(es[0].key, e.key); }
        assert r[1..] == es;
      }
    }
  }

  lemma {:induction false} SortAscending(es: seq<Entry>)
    requires SmallKeys(es) && DistinctKeys(es)
    ensures Ascending(SortEntries(es), None)
  {
    hide KeyWire, Insert, Ascending;
    if es == [] {
      assert Ascending([], None) by { EmptyAscending(); }
    } else {
      SortAscending(es[1..]);
      assert forall x | x in es[1..] :: x.key != es[0].key;
      InsertAscending(es[0], SortEntries(es[1..]), None);
    }
  }

  lemma EmptyAscending()
    ensures Ascending([], None)
  {
  }

  /** Entries already in order are left alone. */
  lemma {:induction false} SortOfAscending(es: seq<Entry>, previous: Option<Bytes>)
    requires SmallKeys(es) && Ascending(es, previous)
    ensures SortEntries(es) == es
    decreases |es|
  {
    hide KeyWire, Less;
    if es != [] {
      SortOfAscending(es[1..], Some(KeyWire(es[0].key)));
      if |es| > 1 {
        assert es[1..][0] == es[1];
        LessTrichotomy(KeyWire(es[0].key), KeyWire(es[1].key));
      }
      assert es == [es[0]] + es[1..];
    }
  }

  /** A strictly ascending list is determined by its entries. */
  lemma {:induction false} AscendingUnique(a: seq<Entry>, b: seq<Entry>, pa: Option<Bytes>, pb: Option<Bytes>)
    requires SmallKeys(a) && SmallKeys(b) && Ascending(a, pa) && Ascending(b, pb)
    requires forall x :: x in a <==> x in b
    ensures a == b
    decreases |a|
  {
    hide KeyWire, Less;
    assert b != [] ==> b[0] in b;
    if a != [] {
      assert a[0] in b;
      if a[0] != b[0] {
        assert b[0] in a;
        InTail(b, a[0]);
        InTail(a, b[0]);
        AscendingBounds(b[1..], Some(KeyWire(b[0].key)), a[0]);
        AscendingBounds(a[1..], Some(KeyWire(a[0].key)), b[0]);
        LessTrichotomy(KeyWire(a[0].key), KeyWire(b[0].key));
        assert false;
      }
      HeadNotInTail(a, pa);
      HeadNotInTail(b, pb);
      assert forall x :: x in a[1..] <==> x in a && x != a[0];
      assert forall x :: x in b[1..] <==> x in b && x != b[0];
      AscendingUnique(a[1..], b[1..], Some(KeyWire(a[0].key)), Some(KeyWire(b[0].key)));
      assert a == [a[0]] + a[1..] && b == [b[0]] + b[1..];
    }
  }

  lemma InTail<T>(s: seq<T>, x: T)
    requires x in s && x != s[0]
    ensures x in s[1..]
  {
    var i :| 0 <= i < |s| && s[i] == x;
    assert s[1..][i - 1] == x;
  }

  lemma HeadNotInTail(es: seq<Entry>, previous: Option<Bytes>)
    requires es != [] && SmallKeys(es) && Ascending(es, previous)
    ensures es[0] !in es[1..]
  {
    hide KeyWire, Less;
    if es[0] in es[1..] {
      AscendingBounds(es[1..], Some(KeyWire(es[0].key)), es[0]);
      LessTrichotomy(KeyWire(es[0].key), KeyWire(es[0].key));
      assert false;
    }
  }

  // ----- The canonical form is deterministic and of the same size -----

  lemma {:induction false} CanonicalDeterministic(v: Value)
    requires Encodable(v)
    ensures Deterministic(Canonical(v))
    ensures Items(Canonical(v)) == Items(v)
    ensures forall room :: Fits(Canonical(v), room) <==> Fits(v, room)
    decreases v, 1
  {
    match v
    case Array(items) =>
      forall i | 0 <= i < |items| { CanonicalDeterministic(items[i]); }
      AllCanonical(items, Canonical(v).items);
    case Map(entries) =>
      var es := CanonicalEntries(entries);
      forall i | 0 <= i < |entries| { CanonicalEntryDeterministic(entries[i]); }
      EntriesCanonical(entries, es);
      assert DistinctKeys(es);
      SortAscending(es);
      SortDeterministic(es);
    case _ =>
  }

  ghost predicate SameSize(v: Value, w: Value) {
    Items(v) == Items(w) && forall room :: Fits(v, room) <==> Fits(w, room)
  }

  lemma {:induction false} CanonicalEntryDeterministic(e: Entry)
    requires EncodableEntry(e)
    ensures DeterministicEntry(CanonicalEntry(e)) && SameSize(Canonical(e.value), e.value)
    decreases e, 0
  {
    CanonicalDeterministic(e.value);
  }

  lemma {:induction false} AllCanonical(vs: seq<Value>, ws: seq<Value>)
    requires |ws| == |vs| && forall i | 0 <= i < |vs| :: Deterministic(ws[i]) && SameSize(ws[i], vs[i])
    ensures DeterministicAll(ws) && ItemsAll(ws) == ItemsAll(vs)
    ensures forall room :: FitsAll(ws, room) <==> FitsAll(vs, room)
  {
    if vs != [] {
      assert SameSize(ws[0], vs[0]);
      AllCanonical(vs[1..], ws[1..]);
    }
  }

  lemma {:induction false} EntriesCanonical(es: seq<Entry>, fs: seq<Entry>)
    requires |fs| == |es|
    requires forall i | 0 <= i < |es| ::
             DeterministicEntry(fs[i]) && fs[i].key == es[i].key && SameSize(fs[i].value, es[i].value)
    ensures DeterministicEntries(fs) && ItemsEntries(fs) == ItemsEntries(es)
    ensures forall room :: FitsEntries(fs, room) <==> FitsEntries(es, room)
  {
    if es != [] {
      assert SameSize(fs[0].value, es[0].value);
      assert forall room :: FitsEntry(fs[0], room) <==> FitsEntry(es[0], room);
      EntriesCanonical(es[1..], fs[1..]);
    }
  }

  lemma {:induction false} InsertDeterministic(e: Entry, es: seq<Entry>)
    requires DeterministicEntry(e) && DeterministicEntries(es)
    ensures DeterministicEntries(Insert(e, es)) && ItemsEntries(Insert(e, es)) == ItemsEntry(e) + ItemsEntries(es)
    ensures forall room :: FitsEntries(Insert(e, es), room) <==> FitsEntry(e, room) && FitsEntries(es, room)
  {
    hide Before;
    var r := Insert(e, es);
    if es == [] || !Before(es[0], e) {
      assert r[0] == e && r[1..] == es;
    } else {
      InsertDeterministic(e, es[1..]);
      assert r[0] == es[0] && r[1..] == Insert(e, es[1..]);
    }
  }

  lemma {:induction false} SortDeterministic(es: seq<Entry>)
    requires DeterministicEntries(es)
    ensures DeterministicEntries(SortEntries(es)) && ItemsEntries(SortEntries(es)) == ItemsEntries(es)
    ensures forall room :: FitsEntries(SortEntries(es), room) <==> FitsEntries(es, room)
  {
    hide Insert;
    if es != [] {
      SortDeterministic(es[1..]);
      InsertDeterministic(es[0], SortEntries(es[1..]));
    }
  }

  // ----- Main results -----

  /** What the encoder emits is accepted, and reads back as the canonical form. */
  lemma EncodedReadsBack(v: Value)
    requires EncodeSpec(v).Some?
    ensures ReadDocument(EncodeSpec(v).value) == Some(Canonical(v))
  {
    hide ReadDocument, Wire;
    CborExact.ReadsExactlyEncodings(EncodeSpec(v).value, Canonical(v));
  }

  /** Decoding then encoding returns the bytes read: the round trip of every
      accepted document. */
  lemma ReadThenEncode(bytes: Bytes)
    requires ReadDocument(bytes).Some?
    ensures EncodeSpec(ReadDocument(bytes).value) == Some(bytes)
  {
    hide ReadDocument, Wire;
    var v := ReadDocument(bytes).value;
    CborExact.ReadsExactlyEncodings(bytes, v);
    DeterministicIsCanonical(v);
  }

  /** A deterministic value is its own canonical form. */
  lemma {:induction false} DeterministicIsCanonical(v: Value)
    requires Deterministic(v)
    ensures Encodable(v) && Canonical(v) == v
    decreases v, 1
  {
    match v
    case Array(items) =>
      AllDeterministic(items);
      forall i | 0 <= i < |items| ensures Encodable(items[i]) && Canonical(items[i]) == items[i] {
        DeterministicIsCanonical(items[i]);
      }
      assert Canonical(v).items == items;
    case Map(entries) =>
      EntriesDeterministic(entries);
      forall i | 0 <= i < |entries| ensures EncodableEntry(entries[i]) && CanonicalEntry(entries[i]) == entries[i] {
        DeterministicEntryIsCanonical(entries[i]);
      }
      AscendingDistinct(entries, None);
      assert CanonicalEntries(entries) == entries;
      SortOfAscending(entries, None);
    case _ =>
  }

  lemma {:induction false} DeterministicEntryIsCanonical(e: Entry)
    requires DeterministicEntry(e)
    ensures EncodableEntry(e) && CanonicalEntry(e) == e
    decreases e, 0
  {
    DeterministicIsCanonical(e.value);
  }

  lemma {:induction false} AllDeterministic(vs: seq<Value>)
    requires DeterministicAll(vs)
    ensures forall i | 0 <= i < |vs| :: Deterministic(vs[i])
  {
    if vs != [] { AllDeterministic(vs[1..]); }
  }

  lemma {:induction false} EntriesDeterministic(es: seq<Entry>)
    requires DeterministicEntries(es)
    ensures forall i | 0 <= i < |es| :: DeterministicEntry(es[i])
  {
    if es != [] { EntriesDeterministic(es[1..]); }
  }

  lemma {:induction false} AscendingDistinct(es: seq<Entry>, previous: Option<Bytes>)
    requires SmallKeys(es) && Ascending(es, previous)
    ensures DistinctKeys(es)
    decreases |es|
  {
    hide KeyWire, Less;
    if es != [] {
      var first := Some(KeyWire(es[0].key));
      AscendingDistinct(es[1..], first);
      forall j | 0 < j < |es| ensures es[0].key != es[j].key {
        assert es[1..][j - 1] == es[j];
        AscendingBounds(es[1..], first, es[j]);
        LessTrichotomy(KeyWire(es[0].key), KeyWire(es[j].key));
      }
    }
  }

  /** `w` holds the same data as `v`, but lists the entries of maps, at any depth,
      in another order. */
  ghost predicate Reordered(v: Value, w: Value)
    decreases v, 2
  {
    match (v, w)
    case (Array(a), Array(b)) => |a| == |b| && forall i | 0 <= i < |a| :: Reordered(a[i], b[i])
    case (Map(a), Map(b)) => |a| == |b| && SameEntries(a, b)
    case (_, _) => v == w
  }

  ghost predicate SameEntries(a: seq<Entry>, b: seq<Entry>)
    decreases a, 1
  {
    (forall i | 0 <= i < |a| :: Kept(a[i], b)) && (forall j | 0 <= j < |b| :: Held(a, b[j]))
  }

  ghost predicate Kept(e: Entry, b: seq<Entry>)
    decreases e, 1
  { exists j | 0 <= j < |b| :: ReorderedEntry(e, b[j]) }

  ghost predicate Held(a: seq<Entry>, f: Entry)
    decreases a, 0
  { exists i | 0 <= i < |a| :: ReorderedEntry(a[i], f) }

  lemma KeptAt(e: Entry, b: seq<Entry>) returns (j: nat)
    requires Kept(e, b)
    ensures j < |b| && ReorderedEntry(e, b[j])
  {
    hide ReorderedEntry;
    j :| 0 <= j < |b| && ReorderedEntry(e, b[j]);
  }

  lemma HeldAt(a: seq<Entry>, f: Entry) returns (i: nat)
    requires Held(a, f)
    ensures i < |a| && ReorderedEntry(a[i], f)
  {
    hide ReorderedEntry;
    i :| 0 <= i < |a| && ReorderedEntry(a[i], f);
  }

  ghost predicate ReorderedEntry(e: Entry, f: Entry)
    decreases e, 0
  { e.key == f.key && Reordered(e.value, f.value) }

  /** The order in which a map lists its entries never shows: equal values, up to
      that order at any depth, have the same encoding or are both refused. */
  lemma EncodeIgnoresOrder(v: Value, w: Value)
    requires Reordered(v, w)
    ensures EncodeSpec(v) == EncodeSpec(w)
  {
    if Encodable(v) {
      CanonicalIgnoresOrder(v, w);
    } else if Encodable(w) {
      ReorderedSymmetric(v, w);
      CanonicalIgnoresOrder(w, v);
    }
  }

  lemma {:induction false} CanonicalIgnoresOrder(v: Value, w: Value)
    requires Reordered(v, w) && Encodable(v)
    ensures Encodable(w) && Canonical(v) == Canonical(w)
    decreases v, 1
  {
    match (v, w)
    case (Array(a), Array(b)) =>
      forall i | 0 <= i < |a| ensures Encodable(b[i]) && Canonical(a[i]) == Canonical(b[i]) {
        CanonicalIgnoresOrder(a[i], b[i]);
      }
      assert Canonical(v).items == Canonical(w).items;
    case (Map(a), Map(b)) =>
      forall i, j | 0 <= i < |a| && 0 <= j < |b| && ReorderedEntry(a[i], b[j])
        ensures EncodableEntry(b[j]) && CanonicalEntry(a[i]) == CanonicalEntry(b[j])
      {
        EntryIgnoresOrder(a[i], b[j]);
      }
      EntriesIgnoreOrder(a, b);
    case (_, _) =>
  }

  lemma {:induction false} EntryIgnoresOrder(e: Entry, f: Entry)
    requires ReorderedEntry(e, f) && EncodableEntry(e)
    ensures EncodableEntry(f) && CanonicalEntry(e) == CanonicalEntry(f)
    decreases e, 0
  {
    CanonicalIgnoresOrder(e.value, f.value);
  }

  lemma EntriesIgnoreOrder(a: seq<Entry>, b: seq<Entry>)
    requires |a| == |b| && DistinctKeys(a) && SameEntries(a, b)
    requires forall i | 0 <= i < |a| :: EncodableEntry(a[i])
    requires forall i, j | 0 <= i < |a| && 0 <= j < |b| && ReorderedEntry(a[i], b[j]) ::
      EncodableEntry(b[j]) && CanonicalEntry(a[i]) == CanonicalEntry(b[j])
    ensures DistinctKeys(b) && forall i | 0 <= i < |b| :: EncodableEntry(b[i])
    ensures SortEntries(CanonicalEntries(a)) == SortEntries(CanonicalEntries(b))
  {
    hide SortEntries, Encodable, Canonical, Reordered, Kept, Held, Keys;
    forall x ensures x in Keys(a) <==> x in Keys(b) {
      if x in Keys(a) { var i := KeyIndex(a, x); var j := KeptAt(a[i], b); KeyMember(b, j); }
      if x in Keys(b) { var j := KeyIndex(b, x); var i := HeldAt(a, b[j]); KeyMember(a, i); }
    }
    forall j | 0 <= j < |b| ensures EncodableEntry(b[j]) { var i := HeldAt(a, b[j]); }
    DistinctCount(a);
    DistinctCount(b);
    assert Keys(a) == Keys(b);
    var ca, cb := CanonicalEntries(a), CanonicalEntries(b);
    SameCanonical(a, b, ca, cb);
    SortAscending(ca);
    SortAscending(cb);
    AscendingUnique(SortEntries(ca), SortEntries(cb), None, None);
  }

  lemma SameCanonical(a: seq<Entry>, b: seq<Entry>, ca: seq<Entry>, cb: seq<Entry>)
    requires |a| == |b| == |ca| == |cb| && SameEntries(a, b)
    requires forall i, j | 0 <= i < |a| && 0 <= j < |b| && ReorderedEntry(a[i], b[j]) :: ca[i] == cb[j]
    ensures forall x :: x in ca <==> x in cb
  {
    hide ReorderedEntry, Kept, Held;
    forall i | 0 <= i < |a| ensures ca[i] in cb { var j := KeptAt(a[i], b); }
    forall j | 0 <= j < |b| ensures cb[j] in ca { var i := HeldAt(a, b[j]); }
  }

  ghost function Keys(es: seq<Entry>): set<Value> {
    if es == [] then {} else {es[0].key} + Keys(es[1..])
  }

  lemma {:induction false} KeyIndex(es: seq<Entry>, k: Value) returns (i: nat)
    requires k in Keys(es)
    ensures i < |es| && es[i].key == k
  {
    i := 0;
    if es[0].key != k {
      i := KeyIndex(es[1..], k);
      i := i + 1;
    }
  }

  lemma {:induction false} KeyMember(es: seq<Entry>, i: nat)
    requires i < |es|
    ensures es[i].key in Keys(es)
  {
    if i > 0 { KeyMember(es[1..], i - 1); }
  }

  /** Keys are distinct exactly when there are as many as entries. */
  lemma {:induction false} DistinctCount(es: seq<Entry>)
    ensures |Keys(es)| <= |es|
    ensures |Keys(es)| == |es| <==> DistinctKeys(es)
  {
    if es != [] {
      DistinctCount(es[1..]);
      if es[0].key in Keys(es[1..]) {
        var i := KeyIndex(es[1..], es[0].key);
        assert Keys(es) == Keys(es[1..]) && es[i + 1].key == es[0].key;
      } else {
        forall i | 0 < i < |es| ensures es[i].key != es[0].key { KeyMember(es[1..], i - 1); }
        assert DistinctKeys(es) <==> DistinctKeys(es[1..]);
      }
    }
  }

  lemma {:induction false} ReorderedSymmetric(v: Value, w: Value)
    requires Reordered(v, w)
    ensures Reordered(w, v)
    decreases v, 1
  {
    match (v, w)
    case (Array(a), Array(b)) =>
      forall i | 0 <= i < |a| ensures Reordered(b[i], a[i]) { ReorderedSymmetric(a[i], b[i]); }
    case (Map(a), Map(b)) =>
      forall j | 0 <= j < |b| ensures Kept(b[j], a) {
        var i := HeldAt(a, b[j]);
        ReorderedEntrySymmetric(a[i], b[j]);
      }
      forall i | 0 <= i < |a| ensures Held(b, a[i]) {
        var j := KeptAt(a[i], b);
        ReorderedEntrySymmetric(a[i], b[j]);
      }
    case (_, _) =>
  }

  lemma {:induction false} ReorderedEntrySymmetric(e: Entry, f: Entry)
    requires ReorderedEntry(e, f)
    ensures ReorderedEntry(f, e)
    decreases e, 0
  {
    ReorderedSymmetric(e.value, f.value);
  }

  // ----- The encoder, as it runs -----

  /** The nested `canonical`: the counter is threaded through, each map's entries
      are collected and then sorted. */
  method Canonicalize(v: Value, depth: nat, items: nat) returns (r: Option<Value>, count: nat)
    ensures r.Some? <==> Encodable(v) && Fits(v, MAX_DEPTH - depth) && items + Items(v) <= MAX_ITEMS
    ensures r.Some? ==> r.value == Canonical(v) && count == items + Items(v)
    decreases v, 1
  {
    if depth > MAX_DEPTH || items >= MAX_ITEMS { return None, items; }
    match v
    case Array(values) =>
      r, count := CanonicalizeArray(values, depth, items + 1);
    case Map(entries) =>
      r, count := CanonicalizeMap(entries, depth, items + 1);
    case Blob(bytes) =>
      return if |bytes| <= MAX_BYTES then Some(v) else None, items + 1;
    case Text(text) =>
      return if |Utf8.Encode(text)| <= MAX_TEXT then Some(v) else None, items + 1;
    case Float(_) =>
      return None, items + 1;
    case Tag(_, _) =>
      return None, items + 1;
    case _ =>
      return Some(v), items + 1;
  }

  method CanonicalizeArray(values: seq<Value>, depth: nat, items: nat) returns (r: Option<Value>, count: nat)
    requires depth <= MAX_DEPTH && 1 <= items <= MAX_ITEMS
    ensures r.Some? <==>
            Encodable(Array(values)) && FitsAll(values, MAX_DEPTH - depth - 1) && items + ItemsAll(values) <= MAX_ITEMS
    ensures r.Some? ==> r.value == Canonical(Array(values)) && count == items + ItemsAll(values)
    decreases values, 0
  {
    hide Canonical, Fits;
    count := items;
    if |values| > MAX_CONTAINER { return None, count; }
    var result: seq<Value> := [];
    for k := 0 to |values|
      invariant |result| == k
      invariant forall i | 0 <= i < k ::
                Encodable(values[i]) && Fits(values[i], MAX_DEPTH - depth - 1) && result[i] == Canonical(values[i])
      invariant count == items + ItemsAll(values[..k]) <= MAX_ITEMS
    {
      var one: Option<Value>;
      AllStep(values, k, MAX_DEPTH - depth - 1);
      one, count := Canonicalize(values[k], depth + 1, count);
      if one.None? { return None, count; }
      result := result + [one.value];
    }
    assert values[..|values|] == values;
    AllFit(values, MAX_DEPTH - depth - 1);
    CanonicalOfArray(values, result);
    r := Some(Array(result));
  }

  lemma CanonicalOfArray(values: seq<Value>, result: seq<Value>)
    requires Encodable(Array(values)) && |result| == |values|
    requires forall i | 0 <= i < |values| :: result[i] == Canonical(values[i])
    ensures Canonical(Array(values)) == Array(result)
  {
    assert Canonical(Array(values)).items == result;
  }

  method CanonicalizeMap(entries: seq<Entry>, depth: nat, items: nat) returns (r: Option<Value>, count: nat)
    requires depth <= MAX_DEPTH && 1 <= items <= MAX_ITEMS
    ensures r.Some? <==>
            Encodable(Map(entries)) && FitsEntries(entries, MAX_DEPTH - depth - 1)
            && items + ItemsEntries(entries) <= MAX_ITEMS
    ensures r.Some? ==> r.value == Canonical(Map(entries)) && count == items + ItemsEntries(entries)
    decreases entries, 2
  {
    hide Canonical, FitsEntries, SortEntries;
    if |entries| > MAX_CONTAINER { return None, items; }
    var result: Option<seq<Entry>>;
    result, count := CollectEntries(entries, depth, items);
    if result.None? { return None, count; }
    var sorted := SortEntries(result.value);
    var duplicate := HasAdjacentDuplicate(sorted);
    DuplicatesAreAdjacent(result.value);
    assert DistinctKeys(result.value) <==> DistinctKeys(entries);
    if duplicate { return None, count; }
    CanonicalOfMap(entries);
    r := Some(Map(sorted));
  }

  lemma CanonicalOfMap(entries: seq<Entry>)
    requires Encodable(Map(entries))
    ensures Canonical(Map(entries)) == Map(SortEntries(CanonicalEntries(entries)))
  {
  }

  method CollectEntries(entries: seq<Entry>, depth: nat, items: nat) returns (r: Option<seq<Entry>>, count: nat)
    requires depth <= MAX_DEPTH && 1 <= items <= MAX_ITEMS
    ensures r.Some? <==>
      && (forall i | 0 <= i < |entries| :: EncodableEntry(entries[i]))
      && FitsEntries(entries, MAX_DEPTH - depth - 1) && items + ItemsEntries(entries) <= MAX_ITEMS
    ensures r.Some? ==> r.value == CanonicalEntries(entries) && count == items + ItemsEntries(entries)
    decreases entries, 1
  {
    hide Canonical, Encodable, Fits;
    count := items;
    var result: seq<Entry> := [];
    for k := 0 to |entries|
      invariant |result| == k
      invariant forall i | 0 <= i < k ::
        EncodableEntry(entries[i]) && FitsEntry(entries[i], MAX_DEPTH - depth - 1)
            && result[i] == CanonicalEntry(entries[i])
      invariant count == items + ItemsEntries(entries[..k]) <= MAX_ITEMS
    {
      var one: Option<Entry>;
      EntriesStep(entries, k, MAX_DEPTH - depth - 1);
      one, count := CanonicalizeEntry(entries[k], depth + 1, count);
      if one.None? { return None, count; }
      result := result + [one.value];
    }
    assert entries[..|entries|] == entries;
    assert result == CanonicalEntries(entries);
    EntriesFit(entries, MAX_DEPTH - depth - 1);
    r := Some(result);
  }

  method CanonicalizeEntry(e: Entry, depth: nat, items: nat) returns (r: Option<Entry>, count: nat)
    requires 1 <= depth && 1 <= items
    ensures r.Some? <==> EncodableEntry(e) && FitsEntry(e, MAX_DEPTH - depth) && items + ItemsEntry(e) <= MAX_ITEMS
    ensures r.Some? ==> r.value == CanonicalEntry(e) && count == items + ItemsEntry(e)
    decreases e, 0
  {
    count := items;
    if !IsKey(e.key) { return None, count; }
    var key, value: Option<Value>;
    key, count := Canonicalize(e.key, depth, count);
    if key.None? { return None, count; }
    value, count := Canonicalize(e.value, depth, count);
    if value.None? { return None, count; }
    r := Some(Entry(key.value, value.value));
  }

  predicate AdjacentDuplicate(es: seq<Entry>) {
    exists i | 0 < i < |es| :: es[i].key == es[i - 1].key
  }

  /** `windows(2)` over the sorted entries. */
  method HasAdjacentDuplicate(es: seq<Entry>) returns (found: bool)
    ensures found <==> AdjacentDuplicate(es)
  {
    var k := 1;
    while k < |es|
      invariant forall i | 0 < i < k && i < |es| :: es[i].key != es[i - 1].key
    {
      if es[k].key == es[k - 1].key { return true; }
      k := k + 1;
    }
    found := false;
  }

  /** Sorting brings equal keys together. */
  lemma DuplicatesAreAdjacent(es: seq<Entry>)
    requires SmallKeys(es)
    ensures AdjacentDuplicate(SortEntries(es)) <==> !DistinctKeys(es)
  {
    hide SortEntries, Keys;
    var sorted := SortEntries(es);
    SortKeys(es);
    DistinctCount(es);
    DistinctCount(sorted);
    if DistinctKeys(es) {
      assert forall i | 0 < i < |es| :: sorted[i].key != sorted[i - 1].key;
    } else if forall i | 0 < i < |es| :: sorted[i].key != sorted[i - 1].key {
      SortWeaklyAscending(es);
      WeaklyDistinct(sorted);
      assert false;
    }
  }

  predicate WeaklyAscending(es: seq<Entry>)
    requires SmallKeys(es)
  {
    forall i | 0 < i < |es| :: !Before(es[i], es[i - 1])
  }

  lemma {:induction false} InsertWeakly(e: Entry, es: seq<Entry>)
    requires SmallKey(e.key) && SmallKeys(es) && WeaklyAscending(es)
    ensures WeaklyAscending(Insert(e, es))
    ensures Insert(e, es)[0] == e || (es != [] && Insert(e, es)[0] == es[0])
    ensures Keys(Insert(e, es)) == {e.key} + Keys(es)
  {
    hide KeyWire, Less;
    var r := Insert(e, es);
    if es == [] {
      assert r == [e];
      assert Keys(r) == {e.key} + Keys(r[1..]);
    } else if !Before(es[0], e) {
      LessTrichotomy(KeyWire(es[0].key), KeyWire(e.key));
      assert r[1..] == es;
    } else {
      LessTrichotomy(KeyWire(es[0].key), KeyWire(e.key));
      InsertWeakly(e, es[1..]);
      assert r[1..] == Insert(e, es[1..]);
      forall i | 0 < i < |r| ensures !Before(r[i], r[i - 1]) {
        if i > 1 { assert r[i] == r[1..][i - 1] && r[i - 1] == r[1..][i - 2]; }
        else if |es| > 1 { assert !Before(es[1], es[0]); }
      }
    }
  }

  lemma {:induction false} SortKeys(es: seq<Entry>)
    requires SmallKeys(es)
    ensures Keys(SortEntries(es)) == Keys(es)
  {
    hide Insert;
    if es != [] {
      SortKeys(es[1..]);
      SortWeaklyAscending(es[1..]);
      InsertWeakly(es[0], SortEntries(es[1..]));
    }
  }

  lemma {:induction false} SortWeaklyAscending(es: seq<Entry>)
    requires SmallKeys(es)
    ensures WeaklyAscending(SortEntries(es))
  {
    hide Insert;
    if es != [] {
      SortWeaklyAscending(es[1..]);
      InsertWeakly(es[0], SortEntries(es[1..]));
    }
  }

  lemma {:induction false} WeaklyDistinct(es: seq<Entry>)
    requires SmallKeys(es) && WeaklyAscending(es) && forall i | 0 < i < |es| :: es[i].key != es[i - 1].key
    ensures Ascending(es, None) && DistinctKeys(es)
  {
    WeaklyStrict(es, None);
    AscendingDistinct(es, None);
  }

  lemma {:induction false} WeaklyStrict(es: seq<Entry>, previous: Option<Bytes>)
    requires SmallKeys(es) && WeaklyAscending(es) && forall i | 0 < i < |es| :: es[i].key != es[i - 1].key
    requires es != [] ==> After(previous, KeyWire(es[0].key))
    ensures Ascending(es, previous)
    decreases |es|
  {
    hide KeyWire, Less;
    if |es| > 1 {
      assert !Before(es[1], es[0]) && es[1].key != es[0].key;
      LessTrichotomy(KeyWire(es[0].key), KeyWire(es[1].key));
      if KeyWire(es[0].key) == KeyWire(es[1].key) { KeyWireInjective(es[0].key, es[1].key); }
    }
    if es != [] { WeaklyStrict(es[1..], Some(KeyWire(es[0].key))); }
  }

  lemma {:induction false} AllStep(vs: seq<Value>, k: nat, room: int)
    requires k < |vs|
    ensures ItemsAll(vs[..k + 1]) == ItemsAll(vs[..k]) + Items(vs[k]) <= ItemsAll(vs)
    ensures FitsAll(vs, room) ==> Fits(vs[k], room)
    ensures ItemsAll(vs[..0]) == 0
  {
    if k > 0 {
      AllStep(vs[1..], k - 1, room);
      assert vs[..k + 1][1..] == vs[1..][..k] && vs[..k][1..] == vs[1..][..k - 1];
    } else {
      assert vs[..1][1..] == [];
    }
  }

  lemma {:induction false} AllFit(vs: seq<Value>, room: int)
    requires forall i | 0 <= i < |vs| :: Fits(vs[i], room)
    ensures FitsAll(vs, room)
  {
    if vs != [] { AllFit(vs[1..], room); }
  }

  lemma {:induction false} EntriesStep(es: seq<Entry>, k: nat, room: int)
    requires k < |es|
    ensures ItemsEntries(es[..k + 1]) == ItemsEntries(es[..k]) + ItemsEntry(es[k]) <= ItemsEntries(es)
    ensures FitsEntries(es, room) ==> FitsEntry(es[k], room)
  {
    if k > 0 {
      EntriesStep(es[1..], k - 1, room);
      assert es[..k + 1][1..] == es[1..][..k] && es[..k][1..] == es[1..][..k - 1];
    } else {
      assert es[..1][1..] == [];
    }
  }

  lemma {:induction false} EntriesFit(es: seq<Entry>, room: int)
    requires forall i | 0 <= i < |es| :: FitsEntry(es[i], room)
    ensures FitsEntries(es, room)
  {
    if es != [] { EntriesFit(es[1..], room); }
  }

  /** `encode`. */
  method Encode(v: Value) returns (r: Option<Bytes>)
    ensures r == EncodeSpec(v)
  {
    var canonical, _ := Canonicalize(v, 0, 0);
    if Encodable(v) { CanonicalDeterministic(v); }
    if canonical.None? { return None; }
    var wire := Wire(canonical.value);
    if |wire| > MAX_FILE { return None; }
    r := Some(wire);
  }
}
