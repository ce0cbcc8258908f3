/** Byte order and key order, by positions and by values: the order in which
    section 4.2.1 of RFC 8949 sorts the keys of a map. */
module KeyOrder {
  import opened Base
  import opened Cbor
  import opened CborEncode
  import CborExact
  import Utf8

  // ----- Bytewise lexicographic order -----

  /** At k the strings part: a has ended there, or has the smaller byte. */
  predicate PartsAt(a: Bytes, b: Bytes, k: nat) {
    k <= |a| && k < |b| && a[..k] == b[..k] && (k == |a| || a[k] < b[k])
  }

  lemma {:induction false} LessParts(a: Bytes, b: Bytes) returns (k: nat)
    requires Less(a, b)
    ensures PartsAt(a, b, k)
    decreases |a|
  {
    k := 0;
    if a != [] && a[0] == b[0] {
      var j := LessParts(a[1..], b[1..]);
      k := j + 1;
      assert a[..k] == [a[0]] + a[1..][..j] && b[..k] == [b[0]] + b[1..][..j];
    }
  }

  lemma {:induction false} PartsLess(a: Bytes, b: Bytes, k: nat)
    requires PartsAt(a, b, k)
    ensures Less(a, b)
    decreases k
  {
    if k > 0 {
      assert a[0] == a[..k][0] && b[0] == b[..k][0];
      assert a[1..][..k - 1] == a[..k][1..] && b[1..][..k - 1] == b[..k][1..];
      PartsLess(a[1..], b[1..], k - 1);
    }
  }

  /** One byte string is before another exactly when it is a proper prefix of it or
      has the smaller byte at the first place where they differ. */
  lemma LessMeans(a: Bytes, b: Bytes)
    ensures Less(a, b) <==> exists k: nat :: PartsAt(a, b, k)
  {
    if Less(a, b) { var k := LessParts(a, b); }
    if k: nat :| PartsAt(a, b, k) { PartsLess(a, b, k); }
  }

  lemma FirstByteDecides(a: Bytes, b: Bytes)
    requires a != [] && b != [] && a[0] != b[0]
    ensures Less(a, b) <==> a[0] < b[0]
  {
  }

  lemma {:induction false} CommonPrefix(p: Bytes, a: Bytes, b: Bytes)
    ensures Less(p + a, p + b) <==> Less(a, b)
    decreases |p|
  {
    if p == [] {
      assert p + a == a && p + b == b;
    } else {
      assert (p + a)[1..] == p[1..] + a && (p + b)[1..] == p[1..] + b;
      CommonPrefix(p[1..], a, b);
    }
  }

  lemma {:induction false} SameLengthPrefix(a: Bytes, b: Bytes, x: Bytes, y: Bytes)
    requires |a| == |b| && a != b
    ensures Less(a + x, b + y) <==> Less(a, b)
    decreases |a|
  {
    if a[0] == b[0] {
      assert (a + x)[1..] == a[1..] + x && (b + y)[1..] == b[1..] + y;
      assert a == [a[0]] + a[1..] && b == [b[0]] + b[1..];
      SameLengthPrefix(a[1..], b[1..], x, y);
    }
  }

  // ----- Numbers, most significant byte first -----

  /** The number that bytes spell, most significant first. */
  function BigEndian(b: Bytes): nat
    decreases |b|
  { if b == [] then 0 else BigEndian(b[..|b| - 1]) * 0x100 + b[|b| - 1] }

  function Power256(n: nat): nat { if n == 0 then 1 else 0x100 * Power256(n - 1) }

  lemma {:induction false} BigEndianBound(b: Bytes)
    ensures BigEndian(b) < Power256(|b|)
    decreases |b|
  {
    if b != [] { BigEndianBound(b[..|b| - 1]); }
  }

  lemma {:induction false} BigEndianFirst(b: Bytes)
    requires b != []
    ensures BigEndian(b) == b[0] * Power256(|b| - 1) + BigEndian(b[1..])
    decreases |b|
  {
    var n := |b| - 1;
    if n > 0 {
      BigEndianFirst(b[..n]);
      assert b[..n][1..] == b[1..][..n - 1];
      assert BigEndian(b) == BigEndian(b[..n]) * 0x100 + b[n];
      assert BigEndian(b[1..]) == BigEndian(b[1..][..n - 1]) * 0x100 + b[n];
      assert Power256(n) == 0x100 * Power256(n - 1);
      Scale(b[0], Power256(n - 1), BigEndian(b[1..][..n - 1]));
    } else {
      assert b[..0] == [] && b[1..] == [];
    }
  }

  lemma Scale(a: nat, p: nat, c: nat)
    ensures (a * p + c) * 0x100 == a * (0x100 * p) + c * 0x100
  {
  }

  /** Among strings of one length, byte order is the order of the numbers. */
  lemma {:induction false} SameLengthOrder(a: Bytes, b: Bytes)
    requires |a| == |b|
    ensures Less(a, b) <==> BigEndian(a) < BigEndian(b)
    decreases |a|
  {
    if a != [] {
      BigEndianFirst(a);
      BigEndianFirst(b);
      BigEndianBound(a[1..]);
      BigEndianBound(b[1..]);
      SameLengthOrder(a[1..], b[1..]);
      Leading(a[0], b[0], Power256(|a| - 1), BigEndian(a[1..]), BigEndian(b[1..]));
    }
  }

  lemma Leading(x: nat, y: nat, p: nat, a: nat, b: nat)
    requires a < p && b < p
    ensures x < y ==> x * p + a < y * p + b
    ensures x > y ==> x * p + a > y * p + b
    ensures x == y ==> (x * p + a < y * p + b <==> a < b)
  {
    if x < y { Multiples(x, y, p); }
    if x > y { Multiples(y, x, p); }
  }

  lemma Distribute(x: nat, p: nat)
    ensures (x + 1) * p == x * p + p
  {
  }

  lemma {:induction false} Multiples(x: nat, y: nat, p: nat)
    requires x < y
    ensures x * p + p <= y * p
    decreases y
  {
    Distribute(y - 1, p);
    if x < y - 1 { Multiples(x, y - 1, p); }
  }

  // ----- Heads -----

  function Info(argument: nat): nat
    requires argument < TWO_64
  {
    if argument < 24 then argument else if argument < 0x100 then 24 else if argument < 0x1_0000 then 25
    else if argument < 0x1_0000_0000 then 26 else 27
  }

  /** A head in the shortest of the five widths: section 3 of RFC 8949. */
  lemma HeadMeans(major: nat, argument: nat)
    requires major <= 5 && argument < TWO_64
    ensures var r := Head(major, argument);
            && r[0] == 32 * major + Info(argument)
            && |r| == (if argument < 24 then 1 else if argument < 0x100 then 2 else if argument < 0x1_0000 then 3
                       else if argument < 0x1_0000_0000 then 5 else 9)
            && (argument >= 24 ==> BigEndian(r[1..]) == argument)
  {
    hide BigEndian;
    var r := Head(major, argument);
    if 24 <= argument {
      if argument < 0x100 {
        assert r[1..] == [argument];
        Spell1(argument);
      } else if argument < 0x1_0000 {
        assert r[1..] == Be2(argument);
        Spell2(argument);
      } else if argument < 0x1_0000_0000 {
        assert r[1..] == Be4(argument);
        Spell4(argument);
      } else {
        assert r[1..] == Be8(argument);
        Spell8(argument);
      }
    }
  }

  lemma Spell1(n: int)
    requires 0 <= n < 0x100
    ensures BigEndian([n]) == n
  {
    assert [n][..0] == [];
  }

  lemma {:induction false} SpellConcat(a: Bytes, b: Bytes)
    ensures BigEndian(a + b) == BigEndian(a) * Power256(|b|) + BigEndian(b)
    decreases |b|
  {
    if b == [] {
      assert a + b == a;
    } else {
      var n := |b| - 1;
      assert (a + b)[..|a| + n] == a + b[..n];
      SpellConcat(a, b[..n]);
      Scale(BigEndian(a), Power256(n), BigEndian(b[..n]));
    }
  }

  lemma Spell2(n: int)
    requires 0 <= n < 0x1_0000
    ensures BigEndian(Be2(n)) == n
  {
    assert Be2(n) == [n / 256] + [n % 256];
    SpellConcat([n / 256], [n % 256]);
    Spell1(n / 256);
    Spell1(n % 256);
    assert Power256(1) == 256;
  }

  lemma Spell4(n: int)
    requires 0 <= n < 0x1_0000_0000
    ensures BigEndian(Be4(n)) == n
  {
    hide BigEndian;
    SpellConcat(Be2(n / 0x1_0000), Be2(n % 0x1_0000));
    Spell2(n / 0x1_0000);
    Spell2(n % 0x1_0000);
    assert Power256(2) == 0x1_0000;
  }

  lemma Spell8(n: int)
    requires 0 <= n < TWO_64
    ensures BigEndian(Be8(n)) == n
  {
    hide BigEndian;
    SpellConcat(Be4(n / 0x1_0000_0000), Be4(n % 0x1_0000_0000));
    Spell4(n / 0x1_0000_0000);
    Spell4(n % 0x1_0000_0000);
    assert Power256(2) == 0x1_0000;
    assert Power256(4) == 0x1_0000_0000;
  }

  /** Heads of one major type are ordered like their arguments. */
  lemma HeadOrder(major: nat, m: nat, n: nat, x: Bytes, y: Bytes)
    requires major <= 5 && m < TWO_64 && n < TWO_64 && m != n
    ensures Less(Head(major, m) + x, Head(major, n) + y) <==> m < n
  {
    hide Head, BigEndian, Power256, Less;
    HeadMeans(major, m);
    HeadMeans(major, n);
    var a, b := Head(major, m), Head(major, n);
    if a[0] != b[0] {
      FirstByteDecides(a + x, b + y);
    } else {
      assert a == [a[0]] + a[1..] && b == [b[0]] + b[1..];
      assert a[1..] != b[1..];
      SameLengthPrefix(a, b, x, y);
      CommonPrefix([a[0]], a[1..], b[1..]);
      SameLengthOrder(a[1..], b[1..]);
    }
  }

  // ----- Keys -----

  /** The order of map keys: numbers first and rising, then text, the shorter UTF-8
      form first, and of one length the smaller byte at the first difference. */
  predicate KeyBefore(k: Value, l: Value) {
    if k.Int? then l.Text? || (l.Int? && k.n < l.n)
    else
      k.Text? && l.Text? &&
      var a, b := Utf8.Encode(k.text), Utf8.Encode(l.text);
      |a| < |b| || (|a| == |b| && exists i | 0 <= i < |a| :: a[..i] == b[..i] && a[i] < b[i])
  }

  lemma SameLengthLess(a: Bytes, b: Bytes)
    requires |a| == |b|
    ensures Less(a, b) <==> exists i | 0 <= i < |a| :: a[..i] == b[..i] && a[i] < b[i]
  {
    LessMeans(a, b);
    if i: int :| 0 <= i < |a| && a[..i] == b[..i] && a[i] < b[i] { assert PartsAt(a, b, i); }
    if k: nat :| PartsAt(a, b, k) { assert a[..k] == b[..k] && a[k] < b[k]; }
  }

  /** Byte order on encoded keys is that order. */
  lemma KeyOrderMeans(k: Value, l: Value)
    requires SmallKey(k) && SmallKey(l)
    ensures Less(KeyWire(k), KeyWire(l)) <==> KeyBefore(k, l)
  {
    hide Head, Less, Utf8.Encode;
    if k.Int? && l.Int? {
      if k.n != l.n {
        HeadOrder(0, k.n, l.n, [], []);
        assert Head(0, k.n) + [] == Head(0, k.n) && Head(0, l.n) + [] == Head(0, l.n);
      } else {
        LessTrichotomy(KeyWire(k), KeyWire(l));
      }
    } else if k.Text? && l.Text? {
      var a, b := Utf8.Encode(k.text), Utf8.Encode(l.text);
      if |a| != |b| {
        HeadOrder(3, |a|, |b|, a, b);
      } else {
        CommonPrefix(Head(3, |a|), a, b);
        SameLengthLess(a, b);
      }
    } else {
      HeadMeans(if k.Int? then 0 else 3, if k.Int? then k.n else |Utf8.Encode(k.text)|);
      HeadMeans(if l.Int? then 0 else 3, if l.Int? then l.n else |Utf8.Encode(l.text)|);
      FirstByteDecides(KeyWire(k), KeyWire(l));
    }
  }

  // ----- Maps -----

  /** In every map at every depth each key is before all later ones. */
  predicate KeysRise(v: Value)
    decreases v, 1
  {
    match v
    case Array(items) => forall i | 0 <= i < |items| :: KeysRise(items[i])
    case Map(es) =>
      && (forall i, j | 0 <= i < j < |es| :: KeyBefore(es[i].key, es[j].key))
      && forall i | 0 <= i < |es| :: EntryKeysRise(es[i])
    case _ => true
  }

  predicate EntryKeysRise(e: Entry)
    decreases e, 0
  { KeysRise(e.value) }

  lemma KeyBeforeTransitive(k: Value, l: Value, m: Value)
    requires SmallKey(k) && SmallKey(l) && SmallKey(m) && KeyBefore(k, l) && KeyBefore(l, m)
    ensures KeyBefore(k, m)
  {
    hide KeyBefore, Less;
    KeyOrderMeans(k, l);
    KeyOrderMeans(l, m);
    KeyOrderMeans(k, m);
    LessTransitive(KeyWire(k), KeyWire(l), KeyWire(m));
  }

  /** A map's entries ascend exactly when every key is before all later ones. */
  lemma {:induction false} AscendingMeans(es: seq<Entry>, previous: Option<Bytes>)
    requires SmallKeys(es)
    ensures Ascending(es, previous) <==>
            && (es != [] ==> After(previous, KeyWire(es[0].key)))
            && forall i, j | 0 <= i < j < |es| :: KeyBefore(es[i].key, es[j].key)
    decreases |es|
  {
    hide KeyBefore, KeyWire, Less;
    if es != [] {
      var rest := es[1..];
      AscendingMeans(rest, Some(KeyWire(es[0].key)));
      forall i | 0 <= i < |es| ensures SmallKey(es[i].key) { assert es[i] in es; }
      if |es| > 1 { KeyOrderMeans(es[0].key, es[1].key); }
      if Ascending(es, previous) {
        forall i, j | 0 <= i < j < |es|
          ensures KeyBefore(es[i].key, es[j].key)
        {
          if i > 0 {
            assert KeyBefore(rest[i - 1].key, rest[j - 1].key);
          } else if j > 1 {
            assert KeyBefore(rest[0].key, rest[j - 1].key);
            KeyBeforeTransitive(es[0].key, es[1].key, es[j].key);
          }
        }
      }
      if forall i, j | 0 <= i < j < |es| :: KeyBefore(es[i].key, es[j].key) {
        forall i, j | 0 <= i < j < |rest|
          ensures KeyBefore(rest[i].key, rest[j].key)
        { assert KeyBefore(es[i + 1].key, es[j + 1].key); }
      }
    }
  }

  lemma {:induction false} DeterministicRises(v: Value)
    requires Deterministic(v)
    ensures KeysRise(v)
    decreases v, 1
  {
    hide Ascending, KeyBefore;
    match v
    case Array(items) =>
      AllDeterministic(items);
      forall i | 0 <= i < |items| { DeterministicRises(items[i]); }
    case Map(es) =>
      EntriesDeterministic(es);
      AscendingMeans(es, None);
      forall i | 0 <= i < |es| { EntryRises(es[i]); }
    case _ =>
  }

  lemma {:induction false} EntryRises(e: Entry)
    requires DeterministicEntry(e)
    ensures EntryKeysRise(e)
    decreases e, 0
  { DeterministicRises(e.value); }

  /** Every accepted document and everything the encoder writes has its keys in that
      order, at every depth. */
  lemma DocumentKeysRise(bytes: Bytes)
    requires ReadDocument(bytes).Some?
    ensures KeysRise(ReadDocument(bytes).value)
  {
    hide ReadDocument, Wire;
    CborExact.ReadsExactlyEncodings(bytes, ReadDocument(bytes).value);
    DeterministicRises(ReadDocument(bytes).value);
  }

  lemma EncodedKeysRise(v: Value)
    requires EncodeSpec(v).Some?
    ensures ReadDocument(EncodeSpec(v).value) == Some(Canonical(v)) && KeysRise(Canonical(v))
  {
    hide ReadDocument, EncodeSpec, KeysRise, Canonical;
    EncodedReadsBack(v);
    DocumentKeysRise(EncodeSpec(v).value);
  }
}
