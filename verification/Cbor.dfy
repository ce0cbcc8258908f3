/** The permitted subset of CBOR (RFC 8949): values, their deterministic
    encoding (section 4.2.1) and the resource limits of the database format. */
module Cbor {
  import opened Base
  import Utf8

  const MAX_FILE: nat := 256 * 1024 * 1024
  const MAX_TEXT: nat := 1024 * 1024
  const MAX_BYTES: nat := 16 * 1024 * 1024
  const MAX_ITEMS: nat := 4_000_000
  const MAX_CONTAINER: nat := 1_000_000
  const MAX_DEPTH: nat := 64

  /** Tags and floating-point numbers are values a caller may hold, but they are
      never written and never accepted. */
  type CborInt = n: int | -TWO_64 <= n < TWO_64

  datatype Value =
    | Int(n: CborInt)
    | Blob(bytes: Bytes)
    | Text(text: string)
    | Array(items: seq<Value>)
    | Map(entries: seq<Entry>)
    | Bool(b: bool)
    | Null
    | Float(bits: nat)
    | Tag(number: nat, content: Value)

  datatype Entry = Entry(key: Value, value: Value)

  predicate IsKey(v: Value) {
    v.Text? || (v.Int? && 0 <= v.n)
  }

  // ----- Heads -----

  function Be2(n: int): Bytes
    requires 0 <= n < 0x1_0000
  { [n / 256, n % 256] }

  function Be4(n: int): Bytes
    requires 0 <= n < 0x1_0000_0000
  { Be2(n / 0x1_0000) + Be2(n % 0x1_0000) }

  function Be8(n: int): Bytes
    requires 0 <= n < TWO_64
  { Be4(n / 0x1_0000_0000) + Be4(n % 0x1_0000_0000) }

  function FromBe2(b: Bytes): (n: int)
    requires |b| >= 2
    ensures 0 <= n < 0x1_0000
  { var high: int := b[0]; high * 256 + b[1] }

  function FromBe4(b: Bytes): (n: int)
    requires |b| >= 4
    ensures 0 <= n < 0x1_0000_0000
  { FromBe2(b) * 0x1_0000 + FromBe2(b[2..]) }

  function FromBe8(b: Bytes): (n: int)
    requires |b| >= 8
    ensures 0 <= n < TWO_64
  { FromBe4(b) * 0x1_0000_0000 + FromBe4(b[4..]) }

  /** Initial byte and argument in the shortest of the five widths. */
  function Head(major: nat, argument: nat): (r: Bytes)
    requires major <= 5 && argument < TWO_64
    ensures 1 <= |r| <= 9 && r[0] / 32 == major && r[0] % 32 <= 27
  {
    if argument < 24 then [major * 32 + argument]
    else if argument < 0x100 then [major * 32 + 24, argument]
    else if argument < 0x1_0000 then [major * 32 + 25] + Be2(argument)
    else if argument < 0x1_0000_0000 then [major * 32 + 26] + Be4(argument)
    else [major * 32 + 27] + Be8(argument)
  }

  /** The argument of a head and what follows it; None for a truncated, reserved,
      indefinite or over-long form. */
  function ParseArgument(s: Bytes): (r: Option<(nat, Bytes)>)
    requires s != []
    ensures r.Some? ==> r.value.0 < TWO_64 && |r.value.1| < |s|
  {
    var info := s[0] % 32;
    var rest := s[1..];
    if info < 24 then Some((info, rest))
    else if info == 24 && |rest| >= 1 && rest[0] >= 24 then Some((rest[0], rest[1..]))
    else if info == 25 && |rest| >= 2 && FromBe2(rest) >= 0x100 then Some((FromBe2(rest), rest[2..]))
    else if info == 26 && |rest| >= 4 && FromBe4(rest) >= 0x1_0000 then Some((FromBe4(rest), rest[4..]))
    else if info == 27 && |rest| >= 8 && FromBe8(rest) >= 0x1_0000_0000 then Some((FromBe8(rest), rest[8..]))
    else None
  }

  lemma Be2Inverse(n: int, rest: Bytes)
    requires 0 <= n < 0x1_0000
    ensures |Be2(n)| == 2 && FromBe2(Be2(n) + rest) == n && (Be2(n) + rest)[2..] == rest
  {
  }

  lemma Be4Inverse(n: int, rest: Bytes)
    requires 0 <= n < 0x1_0000_0000
    ensures |Be4(n)| == 4 && FromBe4(Be4(n) + rest) == n && (Be4(n) + rest)[4..] == rest
  {
    var low := Be2(n % 0x1_0000) + rest;
    assert Be4(n) + rest == Be2(n / 0x1_0000) + low;
    Be2Inverse(n / 0x1_0000, low);
    Be2Inverse(n % 0x1_0000, rest);
  }

  lemma Be8Inverse(n: int, rest: Bytes)
    requires 0 <= n < TWO_64
    ensures |Be8(n)| == 8 && FromBe8(Be8(n) + rest) == n && (Be8(n) + rest)[8..] == rest
  {
    var low := Be4(n % 0x1_0000_0000) + rest;
    assert Be8(n) + rest == Be4(n / 0x1_0000_0000) + low;
    Be4Inverse(n / 0x1_0000_0000, low);
    Be4Inverse(n % 0x1_0000_0000, rest);
  }

  lemma FromBe2Inverse(b: Bytes)
    requires |b| >= 2
    ensures Be2(FromBe2(b)) == b[..2]
  {
  }

  lemma FromBe4Inverse(b: Bytes)
    requires |b| >= 4
    ensures Be4(FromBe4(b)) == b[..4]
  {
    FromBe2Inverse(b);
    FromBe2Inverse(b[2..]);
    var n, high, low := FromBe4(b), FromBe2(b), FromBe2(b[2..]);
    assert n / 0x1_0000 == high && n % 0x1_0000 == low;
    assert b[..4] == b[..2] + b[2..][..2];
  }

  lemma FromBe8Inverse(b: Bytes)
    requires |b| >= 8
    ensures Be8(FromBe8(b)) == b[..8]
  {
    FromBe4Inverse(b);
    FromBe4Inverse(b[4..]);
    var n, high, low := FromBe8(b), FromBe4(b), FromBe4(b[4..]);
    assert n / 0x1_0000_0000 == high && n % 0x1_0000_0000 == low;
    assert b[..8] == b[..4] + b[4..][..4];
  }

  lemma ParseHead(major: nat, argument: nat, rest: Bytes)
    requires major <= 5 && argument < TWO_64
    ensures ParseArgument(Head(major, argument) + rest) == Some((argument, rest))
  {
    if argument < 0x100 {
      ParseShortHead(major, argument, rest);
    } else {
      ParseLongHead(major, argument, rest);
    }
  }

  lemma ParseShortHead(major: nat, argument: nat, rest: Bytes)
    requires major <= 5 && argument < 0x100
    ensures ParseArgument(Head(major, argument) + rest) == Some((argument, rest))
  {
    var s := Head(major, argument) + rest;
    if argument < 24 {
      assert s[1..] == rest;
    } else {
      assert s[1..] == [argument] + rest;
    }
  }

  lemma ParseLongHead(major: nat, argument: nat, rest: Bytes)
    requires major <= 5 && 0x100 <= argument < TWO_64
    ensures ParseArgument(Head(major, argument) + rest) == Some((argument, rest))
  {
    hide Be2, Be4, Be8, FromBe2, FromBe4, FromBe8;
    var s := Head(major, argument) + rest;
    if argument < 0x1_0000 {
      assert s[1..] == Be2(argument) + rest;
      Be2Inverse(argument, rest);
    } else if argument < 0x1_0000_0000 {
      assert s[1..] == Be4(argument) + rest;
      Be4Inverse(argument, rest);
    } else {
      assert s[1..] == Be8(argument) + rest;
      Be8Inverse(argument, rest);
    }
  }

  lemma HeadOfParse(s: Bytes)
    requires s != [] && s[0] / 32 <= 5 && ParseArgument(s).Some?
    ensures s == Head(s[0] / 32, ParseArgument(s).value.0) + ParseArgument(s).value.1
  {
    hide Be2, Be4, Be8, FromBe2, FromBe4, FromBe8;
    var info := s[0] % 32;
    var tail := s[1..];
    assert s == [s[0]] + tail;
    if info == 24 {
      assert tail == tail[..1] + tail[1..];
    } else if info == 25 {
      FromBe2Inverse(tail);
      assert tail == tail[..2] + tail[2..];
    } else if info == 26 {
      FromBe4Inverse(tail);
      assert tail == tail[..4] + tail[4..];
    } else if info == 27 {
      FromBe8Inverse(tail);
      assert tail == tail[..8] + tail[8..];
    }
  }

  // ----- Values -----

  /** The encoding of a map key. */
  function KeyWire(key: Value): (r: Bytes)
    requires IsKey(key) && (key.Text? ==> |Utf8.Encode(key.text)| < TWO_64)
    ensures r != []
  {
    if key.Int? then Head(0, key.n)
    else Head(3, |Utf8.Encode(key.text)|) + Utf8.Encode(key.text)
  }

  predicate SmallKey(key: Value) {
    IsKey(key) && (key.Text? ==> |Utf8.Encode(key.text)| <= MAX_TEXT)
  }

  /** In deterministic form and within the size limits: shortest heads are the
      encoder's job, so what is left to require of a value is its key order. */
  predicate Deterministic(v: Value)
    decreases v, 1
  {
    match v
    case Int(_) => true
    case Blob(bytes) => |bytes| <= MAX_BYTES
    case Text(text) => |Utf8.Encode(text)| <= MAX_TEXT
    case Array(items) => |items| <= MAX_CONTAINER && DeterministicAll(items)
    case Map(entries) => |entries| <= MAX_CONTAINER && DeterministicEntries(entries) && Ascending(entries, None)
    case Bool(_) => true
    case Null => true
    case Float(_) => false
    case Tag(_, _) => false
  }

  predicate DeterministicAll(vs: seq<Value>)
    decreases vs, 0
  {
    vs == [] || (Deterministic(vs[0]) && DeterministicAll(vs[1..]))
  }

  predicate DeterministicEntries(es: seq<Entry>)
    ensures DeterministicEntries(es) ==> SmallKeys(es)
    decreases es, 0
  {
    es == [] || (DeterministicEntry(es[0]) && DeterministicEntries(es[1..]))
  }

  predicate DeterministicEntry(e: Entry)
    decreases e, 0
  { SmallKey(e.key) && Deterministic(e.value) }

  predicate SmallKeys(es: seq<Entry>) {
    forall e | e in es :: SmallKey(e.key)
  }

  predicate After(previous: Option<Bytes>, key: Bytes) {
    previous.Some? ==> Less(previous.value, key)
  }

  /** Keys in strictly ascending bytewise order of their encodings, all after
      `previous`. */
  predicate Ascending(es: seq<Entry>, previous: Option<Bytes>)
    requires SmallKeys(es)
    decreases |es|
  {
    es == [] || (After(previous, KeyWire(es[0].key)) && Ascending(es[1..], Some(KeyWire(es[0].key))))
  }

  /** The encoding itself. */
  function Wire(v: Value): (r: Bytes)
    requires Deterministic(v)
    ensures r != []
    decreases v, 1
  {
    match v
    case Int(n) => if n >= 0 then Head(0, n) else Head(1, -1 - n)
    case Blob(bytes) => Head(2, |bytes|) + bytes
    case Text(text) => Head(3, |Utf8.Encode(text)|) + Utf8.Encode(text)
    case Array(items) => Head(4, |items|) + WireAll(items)
    case Map(entries) => Head(5, |entries|) + WireEntries(entries)
    case Bool(b) => [if b then 0xF5 else 0xF4]
    case Null => [0xF6]
  }

  function WireAll(vs: seq<Value>): Bytes
    requires DeterministicAll(vs)
    decreases vs, 0
  {
    if vs == [] then [] else Wire(vs[0]) + WireAll(vs[1..])
  }

  function WireEntries(es: seq<Entry>): Bytes
    requires DeterministicEntries(es)
    decreases es, 0
  {
    if es == [] then [] else WireEntry(es[0]) + WireEntries(es[1..])
  }

  function WireEntry(e: Entry): Bytes
    requires DeterministicEntry(e)
    decreases e, 0
  { KeyWire(e.key) + Wire(e.value) }

  /** Data items in a value, keys included. */
  function Items(v: Value): nat
    decreases v, 1
  {
    1 + match v
        case Array(items) => ItemsAll(items)
        case Map(entries) => ItemsEntries(entries)
        case Tag(_, content) => Items(content)
        case _ => 0
  }

  function ItemsAll(vs: seq<Value>): nat
    decreases vs, 0
  { if vs == [] then 0 else Items(vs[0]) + ItemsAll(vs[1..]) }

  function ItemsEntries(es: seq<Entry>): nat
    decreases es, 0
  {
    if es == [] then 0 else ItemsEntry(es[0]) + ItemsEntries(es[1..])
  }

  function ItemsEntry(e: Entry): nat
    decreases e, 0
  { Items(e.key) + Items(e.value) }

  /** Nesting below `v` fits into `room` levels. */
  predicate Fits(v: Value, room: int)
    decreases v, 1
  {
    room >= 0 &&
    match v
    case Array(items) => FitsAll(items, room - 1)
    case Map(entries) => FitsEntries(entries, room - 1)
    case Tag(_, content) => Fits(content, room - 1)
    case _ => true
  }

  predicate FitsAll(vs: seq<Value>, room: int)
    decreases vs, 0
  { vs == [] || (Fits(vs[0], room) && FitsAll(vs[1..], room)) }

  predicate FitsEntries(es: seq<Entry>, room: int)
    decreases es, 0
  {
    es == [] || (FitsEntry(es[0], room) && FitsEntries(es[1..], room))
  }

  predicate FitsEntry(e: Entry, room: int)
    decreases e, 0
  { Fits(e.key, room) && Fits(e.value, room) }

  /** A value the format admits as a whole document. */
  predicate Document(v: Value) {
    Deterministic(v) && Fits(v, MAX_DEPTH) && Items(v) <= MAX_ITEMS && |Wire(v)| <= MAX_FILE
  }

  // ----- The reader: validation and decoding in one pass -----

  datatype Parsed<T> = Rejected | Parsed(value: T, rest: Bytes, items: nat)

  /** `Preflight::item` over the unread suffix, together with the value that the
      generic decoder then reads from the accepted bytes. */
  function ParseItem(s: Bytes, items: nat, depth: nat): (r: Parsed<Value>)
    ensures r.Parsed? ==> |r.rest| < |s|
    decreases MAX_DEPTH + 1 - depth, 2, 0
  {
    if depth > MAX_DEPTH || items >= MAX_ITEMS || s == [] then Rejected
    else
      var major := s[0] / 32;
      if major == 7 then
        if s[0] == 0xF4 then Parsed(Bool(false), s[1..], items + 1)
        else if s[0] == 0xF5 then Parsed(Bool(true), s[1..], items + 1)
        else if s[0] == 0xF6 then Parsed(Null, s[1..], items + 1)
        else Rejected
      else if major == 6 then Rejected
      else
        match ParseArgument(s)
        case None => Rejected
        case Some((argument, rest)) => ParseBody(major, argument, rest, items + 1, depth)
  }

  function ParseBody(major: nat, argument: nat, rest: Bytes, items: nat, depth: nat): (r: Parsed<Value>)
    requires major <= 5 && argument < TWO_64 && depth <= MAX_DEPTH && items <= MAX_ITEMS
    ensures r.Parsed? ==> |r.rest| <= |rest|
    decreases MAX_DEPTH + 1 - depth, 1, 0
  {
    if major == 0 then Parsed(Int(argument), rest, items)
    else if major == 1 then Parsed(Int(-1 - argument), rest, items)
    else if major == 2 then
      if argument > MAX_BYTES || argument > |rest| then Rejected
      else Parsed(Blob(rest[..argument]), rest[argument..], items)
    else if major == 3 then
      if argument > MAX_TEXT || argument > |rest| then Rejected
      else
        match Utf8.Decode(rest[..argument])
        case None => Rejected
        case Some(text) => Parsed(Text(text), rest[argument..], items)
    else
      var needed := if major == 5 then 2 * argument else argument;
      if argument > MAX_CONTAINER || needed > MAX_ITEMS - items || needed > |rest| then Rejected
      else if major == 4 then
        match ParseAll(argument, rest, items, depth + 1)
        case Rejected => Rejected
        case Parsed(vs, rest', items') => Parsed(Array(vs), rest', items')
      else
        match ParseEntries(argument, None, rest, items, depth + 1)
        case Rejected => Rejected
        case Parsed(es, rest', items') => Parsed(Map(es), rest', items')
  }

  function ParseAll(count: nat, s: Bytes, items: nat, depth: nat): (r: Parsed<seq<Value>>)
    requires depth <= MAX_DEPTH + 1
    ensures r.Parsed? ==> |r.rest| <= |s|
    decreases MAX_DEPTH + 1 - depth, 3, count
  {
    if count == 0 then Parsed([], s, items)
    else
      match ParseItem(s, items, depth)
      case Rejected => Rejected
      case Parsed(v, rest, items1) =>
        match ParseAll(count - 1, rest, items1, depth)
        case Rejected => Rejected
        case Parsed(vs, rest2, items2) => Parsed([v] + vs, rest2, items2)
  }

  function ParseEntries(count: nat, previous: Option<Bytes>, s: Bytes, items: nat, depth: nat): (r: Parsed<seq<Entry>>)
    requires depth <= MAX_DEPTH + 1
    ensures r.Parsed? ==> |r.rest| <= |s|
    decreases MAX_DEPTH + 1 - depth, 3, count
  {
    if count == 0 then Parsed([], s, items)
    else if s == [] || (s[0] / 32 != 0 && s[0] / 32 != 3) then Rejected
    else
      match ParseItem(s, items, depth)
      case Rejected => Rejected
      case Parsed(key, rest, items1) =>
        var encoded := s[..|s| - |rest|];
        if !After(previous, encoded) then Rejected
        else
          match ParseItem(rest, items1, depth)
          case Rejected => Rejected
          case Parsed(v, rest2, items2) =>
            match ParseEntries(count - 1, Some(encoded), rest2, items2, depth)
            case Rejected => Rejected
            case Parsed(es, rest3, items3) => Parsed([Entry(key, v)] + es, rest3, items3)
  }

  /** `value`: preflight, then decode. */
  function ReadDocument(bytes: Bytes): Option<Value> {
    if |bytes| > MAX_FILE then None
    else
      match ParseItem(bytes, 0, 0)
      case Rejected => None
      case Parsed(v, rest, _) => if rest == [] then Some(v) else None
  }
}
