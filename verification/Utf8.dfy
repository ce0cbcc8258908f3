/** UTF-8 (RFC 3629): the text encoding of the wire format. */
module Utf8 {
  import opened Base

  function EncodeChar(c: char): (r: Bytes)
    ensures 1 <= |r| <= 4
  {
    var n := c as int;
    if n < 0x80 then [n]
    else if n < 0x800 then [0xC0 + n / 64, 0x80 + n % 64]
    else if n < 0x1_0000 then [0xE0 + n / 4096, 0x80 + n / 64 % 64, 0x80 + n % 64]
    else [0xF0 + n / 262144, 0x80 + n / 4096 % 64, 0x80 + n / 64 % 64, 0x80 + n % 64]
  }

  function Encode(s: string): Bytes {
    if s == "" then [] else EncodeChar(s[0]) + Encode(s[1..])
  }

  predicate Tail(b: Byte) { 0x80 <= b < 0xC0 }

  function Join(high: int, six: int): int { high * 64 + six }

  /** The well-formed sequences of table 3-7: no overlong form, no surrogate,
      nothing above U+10FFFF. Returns the scalar value and its width. */
  function DecodeChar(b: Bytes): (r: Option<(char, nat)>)
    ensures r.Some? ==> 1 <= r.value.1 <= |b|
  {
    if b == [] then None
    else if b[0] < 0x80 then Some((b[0] as char, 1))
    else if 0xC2 <= b[0] < 0xE0 && |b| >= 2 && Tail(b[1]) then
      Some((Join(Join(0, b[0] - 0xC0), b[1] - 0x80) as char, 2))
    else if 0xE0 <= b[0] < 0xF0 && |b| >= 3 && Tail(b[1]) && Tail(b[2])
            && (b[0] == 0xE0 ==> b[1] >= 0xA0) && (b[0] == 0xED ==> b[1] < 0xA0) then
      Some((Join(Join(b[0] - 0xE0, b[1] - 0x80), b[2] - 0x80) as char, 3))
    else if 0xF0 <= b[0] < 0xF5 && |b| >= 4 && Tail(b[1]) && Tail(b[2]) && Tail(b[3])
            && (b[0] == 0xF0 ==> b[1] >= 0x90) && (b[0] == 0xF4 ==> b[1] < 0x90) then
      Some((Join(Join(Join(b[0] - 0xF0, b[1] - 0x80), b[2] - 0x80), b[3] - 0x80) as char, 4))
    else None
  }

  function Decode(b: Bytes): Option<string>
    decreases |b|
  {
    if b == [] then Some("")
    else
      match DecodeChar(b)
      case None => None
      case Some((c, width)) =>
        match Decode(b[width..])
        case None => None
        case Some(rest) => Some([c] + rest)
  }

  lemma DecodeEncodedChar(c: char, rest: Bytes)
    ensures DecodeChar(EncodeChar(c) + rest) == Some((c, |EncodeChar(c)|))
  {
    var n := c as int;
    var e := EncodeChar(c);
    var b := e + rest;
    assert b[0] == e[0];
    if n >= 0x80 { assert b[1] == e[1]; }
    if 0x800 <= n < 0x1_0000 {
      assert b[2] == e[2];
      ThreeBytes(n);
    } else if n >= 0x1_0000 {
      assert b[2] == e[2] && b[3] == e[3];
      FourBytes(n);
    }
  }

  lemma ThreeBytes(n: int)
    requires 0x800 <= n < 0x1_0000
    ensures n == Join(Join(n / 4096, n / 64 % 64), n % 64)
    ensures n < 0x1000 ==> n / 64 % 64 >= 0x20
  {
    assert n / 4096 == n / 64 / 64;
  }

  lemma FourBytes(n: int)
    requires 0x1_0000 <= n < 0x11_0000
    ensures n == Join(Join(Join(n / 262144, n / 4096 % 64), n / 64 % 64), n % 64)
    ensures n < 262144 ==> n / 4096 % 64 >= 0x10
  {
    assert n / 4096 == n / 64 / 64 && n / 262144 == n / 64 / 64 / 64;
  }

  lemma EncodeDecodedChar(b: Bytes)
    requires DecodeChar(b).Some?
    ensures EncodeChar(DecodeChar(b).value.0) == b[..DecodeChar(b).value.1]
  {
    var (c, width) := DecodeChar(b).value;
    var n := c as int;
    if width == 2 {
      SplitJoin(Join(0, b[0] - 0xC0), b[1] - 0x80);
    } else if width == 3 {
      SplitThree(b[0] - 0xE0, b[1] - 0x80, b[2] - 0x80);
    } else if width == 4 {
      SplitFour(b[0] - 0xF0, b[1] - 0x80, b[2] - 0x80, b[3] - 0x80);
    }
  }

  lemma SplitThree(high: int, x: int, y: int)
    requires 0 <= high < 16 && 0 <= x < 64 && 0 <= y < 64
    ensures var n := Join(Join(high, x), y); n / 4096 == high && n / 64 % 64 == x && n % 64 == y
  {
    SplitJoin(Join(high, x), y);
    SplitJoin(high, x);
    assert Join(Join(high, x), y) / 4096 == Join(Join(high, x), y) / 64 / 64;
  }

  lemma SplitFour(high: int, x: int, y: int, z: int)
    requires 0 <= high < 8 && 0 <= x < 64 && 0 <= y < 64 && 0 <= z < 64
    ensures var n := Join(Join(Join(high, x), y), z);
            n / 262144 == high && n / 4096 % 64 == x && n / 64 % 64 == y && n % 64 == z
  {
    var n := Join(Join(Join(high, x), y), z);
    SplitJoin(Join(Join(high, x), y), z);
    SplitThree(high, x, y);
    assert n / 262144 == n / 64 / 4096 && n / 4096 == n / 64 / 64;
  }

  lemma SplitJoin(high: int, six: int)
    requires high >= 0 && 0 <= six < 64
    ensures Join(high, six) / 64 == high && Join(high, six) % 64 == six
  {
  }

  /** Decoding inverts encoding. */
  lemma {:induction false} DecodeOfEncode(s: string)
    ensures Decode(Encode(s)) == Some(s)
  {
    hide EncodeChar, DecodeChar;
    if s != "" {
      DecodeEncodedChar(s[0], Encode(s[1..]));
      DecodeOfEncode(s[1..]);
      assert Encode(s)[|EncodeChar(s[0])|..] == Encode(s[1..]);
      assert s == [s[0]] + s[1..];
    }
  }

  /** Only encodings of scalar strings decode. */
  lemma {:induction false} EncodeOfDecode(b: Bytes)
    requires Decode(b).Some?
    ensures Encode(Decode(b).value) == b
    decreases |b|
  {
    hide EncodeChar, DecodeChar;
    if b != [] {
      var (c, width) := DecodeChar(b).value;
      EncodeDecodedChar(b);
      EncodeOfDecode(b[width..]);
      var s := Decode(b).value;
      assert s[0] == c && s[1..] == Decode(b[width..]).value;
      assert b == b[..width] + b[width..];
    }
  }

  /** What the continuation bytes add, six bits each. */
  function Sixes(start: int, tail: Bytes): int
    decreases |tail|
  { if tail == [] then start else Sixes(start, tail[..|tail| - 1]) * 64 + tail[|tail| - 1] - 0x80 }

  /** The table of section 3 of RFC 3629: how many bytes, which lead byte, which
      continuation bytes, and the number they spell. */
  lemma EncodeCharMeans(c: char)
    ensures var n, r := c as int, EncodeChar(c);
            && |r| == (if n < 0x80 then 1 else if n < 0x800 then 2 else if n < 0x1_0000 then 3 else 4)
            && (forall i | 1 <= i < |r| :: 0x80 <= r[i] <= 0xBF)
            && (if |r| == 1 then r[0] <= 0x7F
                else if |r| == 2 then 0xC2 <= r[0] <= 0xDF
                else if |r| == 3 then 0xE0 <= r[0] <= 0xEF
                else 0xF0 <= r[0] <= 0xF4)
            && Sixes(r[0] - (if |r| == 1 then 0 else if |r| == 2 then 0xC0 else if |r| == 3 then 0xE0 else 0xF0),
                     r[1..]) == n
  {
    var n, r := c as int, EncodeChar(c);
    if |r| == 2 {
      assert r[1..] == [r[1]];
      SixesOne(r[0] - 0xC0, r[1]);
    } else if |r| == 3 {
      assert r[1..] == [r[1], r[2]];
      SixesTwo(r[0] - 0xE0, r[1], r[2]);
      ThreeBytes(n);
    } else if |r| == 4 {
      assert r[1..] == [r[1], r[2], r[3]];
      SixesThree(r[0] - 0xF0, r[1], r[2], r[3]);
      FourBytes(n);
    }
  }

  lemma SixesOne(s: int, a: Byte)
    ensures Sixes(s, [a]) == s * 64 + a - 0x80
  {
    assert [a][..0] == [];
  }

  lemma SixesTwo(s: int, a: Byte, b: Byte)
    ensures Sixes(s, [a, b]) == (s * 64 + a - 0x80) * 64 + b - 0x80
  {
    SixesOne(s, a);
    assert [a, b][..1] == [a];
  }

  lemma SixesThree(s: int, a: Byte, b: Byte, c: Byte)
    ensures Sixes(s, [a, b, c]) == ((s * 64 + a - 0x80) * 64 + b - 0x80) * 64 + c - 0x80
  {
    SixesTwo(s, a, b);
    assert [a, b, c][..2] == [a, b];
  }
}
