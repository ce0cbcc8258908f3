/** The byte validator, as it runs: one cursor and one item counter advanced over
    the input without building a value. */
module PreflightChecker {
  import opened Base
  import opened Cbor
  import CborExact
  import Utf8

  /** Two reads that agree on everything but the value they build. */
  ghost predicate SameRead<T, U>(a: Parsed<T>, b: Parsed<U>) {
    a.Parsed? == b.Parsed? && (a.Parsed? ==> a.rest == b.rest && a.items == b.items)
  }

  class Preflight {
    const bytes: Bytes
    var position: nat
    var items: nat

    constructor (bytes: Bytes)
      ensures this.bytes == bytes && position == 0 && items == 0
    {
      this.bytes := bytes;
      position, items := 0, 0;
    }

    ghost predicate Valid()
      reads this
    { position <= |bytes| }

    ghost function Unread(): Bytes
      requires Valid()
      reads this
    { bytes[position..] }

    method Take(length: nat) returns (taken: Option<Bytes>)
      requires Valid()
      modifies this`position
      ensures Valid()
      ensures taken.Some? <==> length <= |old(Unread())|
      ensures taken.Some? ==> taken.value == old(Unread())[..length] && Unread() == old(Unread())[length..]
    {
      if length > |bytes| - position { return None; }
      taken := Some(bytes[position..position + length]);
      position := position + length;
    }

    /** The head's argument, refusing any but the shortest form. */
    method Argument(info: Byte) returns (argument: Option<nat>)
      requires Valid() && 0 < position && info == bytes[position - 1] % 32
      modifies this`position
      ensures Valid()
      ensures var r := ParseArgument(bytes[old(position) - 1..]);
              argument.Some? == r.Some? &&
              (r.Some? ==> argument.value == r.value.0 && Unread() == r.value.1)
    {
      hide FromBe2, FromBe4, FromBe8;
      ghost var rest := bytes[position - 1..][1..];
      assert rest == Unread();
      if info < 24 { return Some(info); }
      var width := if info == 24 then 1 else if info == 25 then 2 else if info == 26 then 4 else if info == 27 then 8
          else 0;
      if width == 0 { return None; }
      var taken := Take(width);
      if taken.None? { return None; }
      var raw := taken.value;
      SamePrefix(rest, raw, width);
      var value := if width == 1 then raw[0] as int else if width == 2 then FromBe2(raw)
                   else if width == 4 then FromBe4(raw) else FromBe8(raw);
      var minimum := if width == 1 then 24 else if width == 2 then 0x100
                     else if width == 4 then 0x1_0000 else 0x1_0000_0000;
      if value < minimum { return None; }
      argument := Some(value);
    }

    /** One data item. The outcome and the cursor are exactly the reader's. */
    method Item(depth: nat) returns (ok: bool)
      requires Valid()
      modifies this
      ensures Valid()
      ensures var r := ParseItem(old(Unread()), old(items), depth);
              ok == r.Parsed? && (ok ==> Unread() == r.rest && items == r.items)
      decreases if depth <= MAX_DEPTH then MAX_DEPTH + 1 - depth else 0
    {
      hide ParseArgument, Utf8.Decode;
      if depth > MAX_DEPTH || items >= MAX_ITEMS { return false; }
      items := items + 1;
      ghost var start := position;
      var first := Take(1);
      if first.None? { return false; }
      assert bytes[start..][1..] == Unread();
      var head := first.value[0];
      var major, info := head / 32, head % 32;
      if major == 7 { return 20 <= info <= 22; }
      if major == 6 { return false; }
      var argument := Argument(info);
      if argument.None? { return false; }
      ok := Body(major, argument.value, depth);
    }

    /** What follows the head: nothing, a string, or the contained items. */
    method Body(major: nat, length: nat, depth: nat) returns (ok: bool)
      requires Valid() && major <= 5 && length < TWO_64 && depth <= MAX_DEPTH && items <= MAX_ITEMS
      modifies this
      ensures Valid()
      ensures var r := ParseBody(major, length, old(Unread()), old(items), depth);
              ok == r.Parsed? && (ok ==> Unread() == r.rest && items == r.items)
      decreases MAX_DEPTH + 1 - depth, 1
    {
      hide ParseItem, Utf8.Decode;
      if major <= 1 { return true; }
      if major <= 3 {
        if length > (if major == 2 then MAX_BYTES else MAX_TEXT) { return false; }
        var taken := Take(length);
        if taken.None? { return false; }
        return major == 2 || Utf8.Decode(taken.value).Some?;
      }
      var needed := if major == 5 then 2 * length else length;
      if length > MAX_CONTAINER || needed > MAX_ITEMS - items || needed > |bytes| - position { return false; }
      ok := Container(major, length, depth);
    }

    method Container(major: nat, length: nat, depth: nat) returns (ok: bool)
      requires Valid() && 4 <= major <= 5 && depth <= MAX_DEPTH
      modifies this
      ensures Valid()
      ensures major == 4 ==>
                var r := ParseAll(length, old(Unread()), old(items), depth + 1);
                ok == r.Parsed? && (ok ==> Unread() == r.rest && items == r.items)
      ensures major == 5 ==>
                var r := ParseEntries(length, None, old(Unread()), old(items), depth + 1);
                ok == r.Parsed? && (ok ==> Unread() == r.rest && items == r.items)
      decreases MAX_DEPTH + 1 - depth, 0
    {
      hide ParseItem, Less;
      var previous: Option<Bytes> := None;
      var left: nat := length;
      ghost var s, count := Unread(), items;
      while left > 0
        invariant Valid() && left <= length
        invariant major == 4 ==>
          SameRead(ParseAll(length, s, count, depth + 1), ParseAll(left, Unread(), items, depth + 1))
        invariant major == 5 ==>
          SameRead(ParseEntries(length, None, s, count, depth + 1),
                   ParseEntries(left, previous, Unread(), items, depth + 1))
      {
        ghost var unread := Unread();
        if major == 5 {
          var start := position;
          if start == |bytes| { return false; }
          var keyMajor := bytes[start] / 32;
          if keyMajor != 0 && keyMajor != 3 { return false; }
          var key := Item(depth + 1);
          if !key { return false; }
          var encoded := bytes[start..position];
          assert encoded == unread[..|unread| - |Unread()|];
          if previous.Some? && !Less(previous.value, encoded) { return false; }
          previous := Some(encoded);
        }
        var value := Item(depth + 1);
        if !value { return false; }
        left := left - 1;
      }
      ok := true;
    }
  }

  lemma SamePrefix(rest: Bytes, raw: Bytes, width: nat)
    requires width <= |rest| && raw == rest[..width]
    ensures width >= 2 ==> FromBe2(raw) == FromBe2(rest)
    ensures width >= 4 ==> FromBe4(raw) == FromBe4(rest)
    ensures width >= 8 ==> FromBe8(raw) == FromBe8(rest)
  {
    if width >= 8 { assert raw[4..][2..] == raw[6..] && rest[4..][2..] == rest[6..]; }
  }

  /** `preflight`: accepted exactly when the bytes are the deterministic encoding
      of an admissible value. */
  method Accept(bytes: Bytes) returns (ok: bool)
    ensures ok <==> exists v :: Document(v) && bytes == Wire(v)
    ensures ok <==> ReadDocument(bytes).Some?
  {
    if |bytes| > MAX_FILE {
      return false;
    }
    var check := new Preflight(bytes);
    ok := check.Item(0);
    ok := ok && check.position == |bytes|;
    assert bytes[0..] == bytes;
    ReadableIffEncoding(bytes);
  }

  lemma ReadableIffEncoding(bytes: Bytes)
    ensures ReadDocument(bytes).Some? <==> exists v :: Document(v) && bytes == Wire(v)
  {
    hide ReadDocument, Wire;
    if ReadDocument(bytes).Some? {
      CborExact.ReadsExactlyEncodings(bytes, ReadDocument(bytes).value);
    }
    forall v | Document(v) && bytes == Wire(v)
      ensures ReadDocument(bytes).Some?
    {
      CborExact.ReadsExactlyEncodings(bytes, v);
    }
  }
}
