/** The reader accepts exactly the deterministic encodings of admissible values. */
module CborExact {
  import opened Base
  import opened Cbor
  import Utf8

  // ----- Soundness: what is accepted is an encoding -----

  ghost predicate Reads(s: Bytes, items: nat, depth: nat, r: Parsed<Value>) {
    r.Parsed? ==>
      && Deterministic(r.value) && Fits(r.value, MAX_DEPTH - depth)
      && s == Wire(r.value) + r.rest
      && r.items == items + Items(r.value) <= MAX_ITEMS
  }

  lemma {:induction false} ParseItemSound(s: Bytes, items: nat, depth: nat)
    ensures Reads(s, items, depth, ParseItem(s, items, depth))
    decreases MAX_DEPTH + 1 - depth, 2, 0
  {
    var r := ParseItem(s, items, depth);
    if r.Parsed? {
      if s[0] / 32 == 7 {
        assert s == [s[0]] + s[1..];
      } else {
        HeadOfParse(s);
        var (argument, rest) := ParseArgument(s).value;
        ParseBodySound(s[0] / 32, argument, rest, items + 1, depth);
      }
    }
  }

  lemma {:induction false} ParseBodySound(major: nat, argument: nat, rest: Bytes, items: nat, depth: nat)
    requires major <= 5 && argument < TWO_64 && depth <= MAX_DEPTH && 1 <= items <= MAX_ITEMS
    ensures ReadsBody(major, argument, rest, items, depth, ParseBody(major, argument, rest, items, depth))
    decreases MAX_DEPTH + 1 - depth, 1, 0
  {
    if major == 2 || major == 3 {
      StringSound(major, argument, rest, items, depth);
    } else if major == 4 {
      ParseAllSound(argument, rest, items, depth + 1);
      ArraySound(argument, rest, items, depth);
    } else if major == 5 {
      ParseEntriesSound(argument, None, rest, items, depth + 1);
      MapSound(argument, rest, items, depth);
    }
  }

  ghost predicate ReadsBody(major: nat, argument: nat, rest: Bytes, items: nat, depth: nat, r: Parsed<Value>)
    requires major <= 5 && argument < TWO_64 && items >= 1
  {
    r.Parsed? ==>
      && Deterministic(r.value) && Fits(r.value, MAX_DEPTH - depth)
      && Head(major, argument) + rest == Wire(r.value) + r.rest
      && r.items == items - 1 + Items(r.value) <= MAX_ITEMS
  }

  lemma StringSound(major: nat, argument: nat, rest: Bytes, items: nat, depth: nat)
    requires 2 <= major <= 3 && argument < TWO_64 && depth <= MAX_DEPTH && 1 <= items <= MAX_ITEMS
    ensures ReadsBody(major, argument, rest, items, depth, ParseBody(major, argument, rest, items, depth))
  {
    var r := ParseBody(major, argument, rest, items, depth);
    if r.Parsed? {
      var bytes := rest[..argument];
      if major == 3 { Utf8.EncodeOfDecode(bytes); }
      Regroup(Head(major, argument), bytes, rest[argument..]);
      assert rest == bytes + rest[argument..];
    }
  }

  lemma ArraySound(argument: nat, rest: Bytes, items: nat, depth: nat)
    requires argument < TWO_64 && depth <= MAX_DEPTH && 1 <= items <= MAX_ITEMS
    requires ReadsAll(argument, rest, items, depth + 1, ParseAll(argument, rest, items, depth + 1))
    ensures ReadsBody(4, argument, rest, items, depth, ParseBody(4, argument, rest, items, depth))
  {
    var r := ParseBody(4, argument, rest, items, depth);
    if r.Parsed? { Regroup(Head(4, argument), WireAll(r.value.items), r.rest); }
  }

  lemma MapSound(argument: nat, rest: Bytes, items: nat, depth: nat)
    requires argument < TWO_64 && depth <= MAX_DEPTH && 1 <= items <= MAX_ITEMS
    requires ReadsEntries(argument, None, rest, items, depth + 1, ParseEntries(argument, None, rest, items, depth + 1))
    ensures ReadsBody(5, argument, rest, items, depth, ParseBody(5, argument, rest, items, depth))
  {
    var r := ParseBody(5, argument, rest, items, depth);
    if r.Parsed? { Regroup(Head(5, argument), WireEntries(r.value.entries), r.rest); }
  }

  lemma Regroup(a: Bytes, b: Bytes, c: Bytes)
    ensures a + (b + c) == (a + b) + c
    ensures (b + c)[..|b|] == b && (b + c)[|b|..] == c
  {
  }

  ghost predicate ReadsAll(count: nat, s: Bytes, items: nat, depth: nat, r: Parsed<seq<Value>>) {
    r.Parsed? ==>
      && |r.value| == count && DeterministicAll(r.value) && FitsAll(r.value, MAX_DEPTH - depth)
      && s == WireAll(r.value) + r.rest
      && r.items == items + ItemsAll(r.value) <= MAX_ITEMS
  }

  lemma {:induction false} ParseAllSound(count: nat, s: Bytes, items: nat, depth: nat)
    requires depth <= MAX_DEPTH + 1 && items <= MAX_ITEMS
    ensures ReadsAll(count, s, items, depth, ParseAll(count, s, items, depth))
    decreases MAX_DEPTH + 1 - depth, 3, count
  {
    hide ParseItem;
    var r := ParseAll(count, s, items, depth);
    if count > 0 && r.Parsed? {
      ParseItemSound(s, items, depth);
      var first := ParseItem(s, items, depth);
      ParseAllSound(count - 1, first.rest, first.items, depth);
      assert r.value[0] == first.value && r.value[1..] == ParseAll(count - 1, first.rest, first.items, depth).value;
    }
  }

  ghost predicate ReadsEntries(count: nat, previous: Option<Bytes>, s: Bytes, items: nat, depth: nat,
                               r: Parsed<seq<Entry>>) {
    r.Parsed? ==>
      && |r.value| == count && DeterministicEntries(r.value) && Ascending(r.value, previous)
      && FitsEntries(r.value, MAX_DEPTH - depth)
      && s == WireEntries(r.value) + r.rest
      && r.items == items + ItemsEntries(r.value) <= MAX_ITEMS
  }

  lemma {:induction false} ParseEntriesSound(count: nat, previous: Option<Bytes>, s: Bytes, items: nat, depth: nat)
    requires depth <= MAX_DEPTH + 1 && items <= MAX_ITEMS
    ensures ReadsEntries(count, previous, s, items, depth, ParseEntries(count, previous, s, items, depth))
    decreases MAX_DEPTH + 1 - depth, 3, count
  {
    hide ParseItem;
    if count > 0 && ParseEntries(count, previous, s, items, depth).Parsed? {
      ParseItemSound(s, items, depth);
      var key := ParseItem(s, items, depth);
      ParseItemSound(key.rest, key.items, depth);
      var v := ParseItem(key.rest, key.items, depth);
      var encoded := s[..|s| - |key.rest|];
      assert encoded == Wire(key.value);
      KeyMajor(key.value);
      ParseEntriesSound(count - 1, Some(encoded), v.rest, v.items, depth);
      EntriesStep(count, previous, s, items, depth, key, v,
                  ParseEntries(count - 1, Some(encoded), v.rest, v.items, depth));
    }
  }

  lemma EntriesStep(count: nat, previous: Option<Bytes>, s: Bytes, items: nat, depth: nat,
                    key: Parsed<Value>, v: Parsed<Value>, tail: Parsed<seq<Entry>>)
    requires count > 0 && key.Parsed? && v.Parsed? && tail.Parsed?
    requires Reads(s, items, depth, key) && Reads(key.rest, key.items, depth, v) && SmallKey(key.value)
    requires Wire(key.value) == KeyWire(key.value) && After(previous, Wire(key.value))
    requires ReadsEntries(count - 1, Some(Wire(key.value)), v.rest, v.items, depth, tail)
    ensures ReadsEntries(count, previous, s, items, depth,
              Parsed([Entry(key.value, v.value)] + tail.value, tail.rest, tail.items))
  {
    var e := Entry(key.value, v.value);
    var es := [e] + tail.value;
    assert es[0] == e && es[1..] == tail.value;
    assert DeterministicEntries(es);
    assert WireEntries(es) == WireEntry(e) + WireEntries(tail.value);
    calc {
      s;
      KeyWire(e.key) + (Wire(e.value) + (WireEntries(tail.value) + tail.rest));
      { Regroup(KeyWire(e.key), Wire(e.value), WireEntries(tail.value) + tail.rest); }
      WireEntry(e) + (WireEntries(tail.value) + tail.rest);
      { Regroup(WireEntry(e), WireEntries(tail.value), tail.rest); }
      WireEntries(es) + tail.rest;
    }
  }

  /** The major type of the first byte tells which values are keys. */
  lemma KeyMajor(v: Value)
    requires Deterministic(v)
    ensures Wire(v)[0] / 32 == 0 || Wire(v)[0] / 32 == 3 <==> SmallKey(v)
    ensures SmallKey(v) ==> Wire(v) == KeyWire(v)
  {
  }

  // ----- Completeness: every encoding is accepted, and read back -----

  lemma {:induction false} ParseItemComplete(v: Value, rest: Bytes, items: nat, depth: nat)
    requires Deterministic(v) && Fits(v, MAX_DEPTH - depth) && items + Items(v) <= MAX_ITEMS
    ensures ParseItem(Wire(v) + rest, items, depth) == Parsed(v, rest, items + Items(v))
    decreases v, 1
  {
    hide ParseItem, Head;
    match v
    case Bool(_) =>
      SimpleComplete(v, rest, items, depth);
    case Null =>
      SimpleComplete(v, rest, items, depth);
    case Int(n) =>
      HeadStep(if n >= 0 then 0 else 1, if n >= 0 then n else -1 - n, rest, items, depth);
    case Blob(_) =>
      StringComplete(v, rest, items, depth);
    case Text(_) =>
      StringComplete(v, rest, items, depth);
    case Array(vs) =>
      ParseAllComplete(vs, rest, items + 1, depth + 1);
      ArrayComplete(vs, rest, items, depth);
    case Map(es) =>
      ParseEntriesComplete(es, None, rest, items + 1, depth + 1);
      MapComplete(es, rest, items, depth);
  }

  /** Reading a head leaves the rest to `ParseBody`. */
  lemma HeadStep(major: nat, argument: nat, rest: Bytes, items: nat, depth: nat)
    requires major <= 5 && argument < TWO_64 && depth <= MAX_DEPTH && items < MAX_ITEMS
    ensures ParseItem(Head(major, argument) + rest, items, depth) == ParseBody(major, argument, rest, items + 1, depth)
  {
    ParseHead(major, argument, rest);
  }

  lemma SimpleComplete(v: Value, rest: Bytes, items: nat, depth: nat)
    requires (v.Bool? || v.Null?) && depth <= MAX_DEPTH && items < MAX_ITEMS
    ensures ParseItem(Wire(v) + rest, items, depth) == Parsed(v, rest, items + 1)
  {
    assert (Wire(v) + rest)[1..] == rest;
  }

  lemma StringComplete(v: Value, rest: Bytes, items: nat, depth: nat)
    requires (v.Blob? || v.Text?) && Deterministic(v) && depth <= MAX_DEPTH && items < MAX_ITEMS
    ensures ParseItem(Wire(v) + rest, items, depth) == Parsed(v, rest, items + 1)
  {
    hide ParseItem, Head;
    var major := if v.Blob? then 2 else 3;
    var bytes := if v.Blob? then v.bytes else Utf8.Encode(v.text);
    Regroup(Head(major, |bytes|), bytes, rest);
    HeadStep(major, |bytes|, bytes + rest, items, depth);
    if v.Text? { Utf8.DecodeOfEncode(v.text); }
  }

  lemma ArrayComplete(vs: seq<Value>, rest: Bytes, items: nat, depth: nat)
    requires Deterministic(Array(vs)) && depth <= MAX_DEPTH && items + 1 + ItemsAll(vs) <= MAX_ITEMS
    requires ParseAll(|vs|, WireAll(vs) + rest, items + 1, depth + 1) == Parsed(vs, rest, items + 1 + ItemsAll(vs))
    ensures ParseItem(Wire(Array(vs)) + rest, items, depth) == Parsed(Array(vs), rest, items + 1 + ItemsAll(vs))
  {
    hide ParseItem, Head;
    Regroup(Head(4, |vs|), WireAll(vs), rest);
    HeadStep(4, |vs|, WireAll(vs) + rest, items, depth);
    AllLongEnough(vs);
  }

  lemma MapComplete(es: seq<Entry>, rest: Bytes, items: nat, depth: nat)
    requires Deterministic(Map(es)) && depth <= MAX_DEPTH && items + 1 + ItemsEntries(es) <= MAX_ITEMS
    requires ParseEntries(|es|, None, WireEntries(es) + rest, items + 1, depth + 1)
          == Parsed(es, rest, items + 1 + ItemsEntries(es))
    ensures ParseItem(Wire(Map(es)) + rest, items, depth) == Parsed(Map(es), rest, items + 1 + ItemsEntries(es))
  {
    hide ParseItem, Head;
    Regroup(Head(5, |es|), WireEntries(es), rest);
    HeadStep(5, |es|, WireEntries(es) + rest, items, depth);
    EntriesLongEnough(es);
  }

  lemma {:induction false} ParseAllComplete(vs: seq<Value>, rest: Bytes, items: nat, depth: nat)
    requires DeterministicAll(vs) && FitsAll(vs, MAX_DEPTH - depth) && items + ItemsAll(vs) <= MAX_ITEMS
    requires depth <= MAX_DEPTH + 1
    ensures ParseAll(|vs|, WireAll(vs) + rest, items, depth) == Parsed(vs, rest, items + ItemsAll(vs))
    decreases vs, 0
  {
    hide ParseItem, Head;
    if vs == [] {
      assert WireAll(vs) + rest == rest;
    } else {
      var tail := WireAll(vs[1..]) + rest;
      Regroup(Wire(vs[0]), WireAll(vs[1..]), rest);
      ParseItemComplete(vs[0], tail, items, depth);
      ParseAllComplete(vs[1..], rest, items + Items(vs[0]), depth);
      assert vs == [vs[0]] + vs[1..];
    }
  }

  lemma {:induction false} ParseEntriesComplete(es: seq<Entry>, previous: Option<Bytes>, rest: Bytes, items: nat,
                                                depth: nat)
    requires DeterministicEntries(es) && Ascending(es, previous)
    requires FitsEntries(es, MAX_DEPTH - depth) && items + ItemsEntries(es) <= MAX_ITEMS
    requires depth <= MAX_DEPTH + 1
    ensures ParseEntries(|es|, previous, WireEntries(es) + rest, items, depth) ==
            Parsed(es, rest, items + ItemsEntries(es))
    decreases es, 0
  {
    hide ParseItem, KeyWire, Head;
    if es == [] {
      assert WireEntries(es) + rest == rest;
    } else {
      var e := es[0];
      var tail := WireEntries(es[1..]) + rest;
      var s := WireEntries(es) + rest;
      assert s == KeyWire(e.key) + (Wire(e.value) + tail) by {
        Regroup(WireEntry(e), WireEntries(es[1..]), rest);
        Regroup(KeyWire(e.key), Wire(e.value), tail);
      }
      EntryComplete(e, tail, items, depth);
      ParseEntriesComplete(es[1..], Some(KeyWire(e.key)), rest, items + ItemsEntry(e), depth);
      ConsEntry(es, previous, s, Wire(e.value) + tail, tail, rest, items, depth);
    }
  }

  lemma ConsEntry(es: seq<Entry>, previous: Option<Bytes>, s: Bytes, afterKey: Bytes, afterValue: Bytes, rest: Bytes,
                  items: nat, depth: nat)
    requires es != [] && SmallKey(es[0].key) && After(previous, KeyWire(es[0].key)) && depth <= MAX_DEPTH + 1
    requires s == KeyWire(es[0].key) + afterKey && (s[0] / 32 == 0 || s[0] / 32 == 3)
    requires ParseItem(s, items, depth) == Parsed(es[0].key, afterKey, items + Items(es[0].key))
    requires ParseItem(afterKey, items + Items(es[0].key), depth) ==
             Parsed(es[0].value, afterValue, items + ItemsEntry(es[0]))
    requires ParseEntries(|es| - 1, Some(KeyWire(es[0].key)), afterValue, items + ItemsEntry(es[0]), depth)
          == Parsed(es[1..], rest, items + ItemsEntries(es))
    ensures ParseEntries(|es|, previous, s, items, depth) == Parsed(es, rest, items + ItemsEntries(es))
  {
    hide ParseItem, KeyWire, Head;
    assert s[..|s| - |afterKey|] == KeyWire(es[0].key);
    assert es == [es[0]] + es[1..];
  }

  lemma {:induction false} EntryComplete(e: Entry, tail: Bytes, items: nat, depth: nat)
    requires DeterministicEntry(e) && FitsEntry(e, MAX_DEPTH - depth) && items + ItemsEntry(e) <= MAX_ITEMS
    ensures Wire(e.key) == KeyWire(e.key) && (KeyWire(e.key)[0] / 32 == 0 || KeyWire(e.key)[0] / 32 == 3)
    ensures ParseItem(KeyWire(e.key) + (Wire(e.value) + tail), items, depth)
         == Parsed(e.key, Wire(e.value) + tail, items + Items(e.key))
    ensures ParseItem(Wire(e.value) + tail, items + Items(e.key), depth)
         == Parsed(e.value, tail, items + ItemsEntry(e))
    decreases e, 0
  {
    hide ParseItem;
    KeyMajor(e.key);
    ParseItemComplete(e.key, Wire(e.value) + tail, items, depth);
    ParseItemComplete(e.value, tail, items + Items(e.key), depth);
  }

  /** Every data item takes at least one byte, so the reader's early length check
      never refuses an encoding. */
  lemma {:induction false} AllLongEnough(vs: seq<Value>)
    requires DeterministicAll(vs)
    ensures |vs| <= |WireAll(vs)| && |vs| <= ItemsAll(vs)
  {
    if vs != [] { AllLongEnough(vs[1..]); }
  }

  lemma {:induction false} EntriesLongEnough(es: seq<Entry>)
    requires DeterministicEntries(es)
    ensures 2 * |es| <= |WireEntries(es)| && 2 * |es| <= ItemsEntries(es)
  {
    if es != [] {
      EntriesLongEnough(es[1..]);
      assert DeterministicEntry(es[0]) && |WireEntry(es[0])| >= 2 && ItemsEntry(es[0]) >= 2;
    }
  }

  // ----- Main results -----

  /** The validator is exact: a byte string is accepted if and only if it is the
      deterministic encoding of an admissible value, and it is read as that value. */
  lemma ReadsExactlyEncodings(bytes: Bytes, v: Value)
    ensures ReadDocument(bytes) == Some(v) <==> Document(v) && bytes == Wire(v)
  {
    hide ParseItem, Head;
    if ReadDocument(bytes) == Some(v) {
      ParseItemSound(bytes, 0, 0);
      assert bytes == Wire(v) + [] == Wire(v);
    }
    if Document(v) && bytes == Wire(v) {
      ParseItemComplete(v, [], 0, 0);
      assert Wire(v) + [] == bytes;
    }
  }

  /** Equal values have one accepted encoding, and no encoding is a proper prefix
      of another. */
  lemma EncodingsArePrefixFree(v: Value, w: Value, rest: Bytes)
    requires Document(v) && Document(w) && Wire(v) + rest == Wire(w)
    ensures v == w && rest == []
  {
    hide ParseItem;
    ParseItemComplete(v, rest, 0, 0);
    ParseItemComplete(w, [], 0, 0);
    assert Wire(w) + [] == Wire(w);
  }
}
