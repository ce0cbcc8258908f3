/** The integer notations of the database: C-style input, decimal output. */
module Numbers {
  import opened Base

  const I64_MIN: int := -0x8000_0000_0000_0000
  const I64_MAX: int := 0x7FFF_FFFF_FFFF_FFFF

  predicate IsSpace(c: char) { c == ' ' || c == '\t' || c == '\n' || c == '\U{0C}' || c == '\r' }

  function SkipSpaces(s: string): (r: string)
    ensures |r| <= |s| && (r != "" ==> !IsSpace(r[0]))
  {
    if s != "" && IsSpace(s[0]) then SkipSpaces(s[1..]) else s
  }

  lemma {:induction false} SkipTwice(s: string)
    ensures SkipSpaces(SkipSpaces(s)) == SkipSpaces(s)
  {
    if s != "" && IsSpace(s[0]) { SkipTwice(s[1..]); }
  }

  predicate Space(s: string) { forall i | 0 <= i < |s| :: IsSpace(s[i]) }

  lemma {:induction false} SkipSpace(space: string, rest: string)
    requires Space(space) && (rest != "" ==> !IsSpace(rest[0]))
    ensures SkipSpaces(space + rest) == rest
  {
    if space == "" {
      assert space + rest == rest;
      if rest != "" { assert SkipSpaces(rest) == rest; }
    } else {
      assert (space + rest)[1..] == space[1..] + rest;
      SkipSpace(space[1..], rest);
    }
  }

  lemma {:induction false} SpaceSkipped(s: string) returns (space: string)
    ensures s == space + SkipSpaces(s) && Space(space)
  {
    space := "";
    if s != "" && IsSpace(s[0]) {
      space := SpaceSkipped(s[1..]);
      space := [s[0]] + space;
    }
  }

  predicate IsRadix(radix: nat) { radix == 8 || radix == 10 || radix == 16 }

  function DigitOf(c: char): (d: nat) {
    if '0' <= c <= '9' then c as int - '0' as int
    else if 'a' <= c <= 'f' then c as int - 'a' as int + 10
    else if 'A' <= c <= 'F' then c as int - 'A' as int + 10
    else 99
  }

  predicate IsHex(c: char) { DigitOf(c) < 16 }

  predicate AllDigits(s: string, radix: nat) { forall i | 0 <= i < |s| :: DigitOf(s[i]) < radix }

  function ValueOf(s: string, radix: nat): nat
    decreases |s|
  {
    if s == "" then 0 else ValueOf(s[..|s| - 1], radix) * radix + DigitOf(s[|s| - 1])
  }

  function InRange(negative: bool, magnitude: nat): Option<int> {
    var n: int := if negative then 0 - magnitude else magnitude;
    if I64_MIN <= n <= I64_MAX then Some(n) else None
  }

  /** `parse_integer`: leading space, a sign, then hexadecimal, octal or decimal
      digits to the very end. */
  function ParseInteger(input: string): (r: Option<int>)
    ensures r.Some? ==> I64_MIN <= r.value <= I64_MAX
  {
    var s := SkipSpaces(input);
    var negative := s != "" && s[0] == '-';
    ParseUnsigned(if s != "" && (s[0] == '-' || s[0] == '+') then s[1..] else s, negative)
  }

  /** A prefix for the radix and digits to the very end. */
  function ParseUnsigned(rest: string, negative: bool): (r: Option<int>)
    ensures r.Some? ==> I64_MIN <= r.value <= I64_MAX
  {
    var hex := |rest| >= 2 && rest[0] == '0' && (rest[1] == 'x' || rest[1] == 'X');
    var octal := !hex && |rest| > 1 && rest[0] == '0';
    var radix := if hex then 16 else if octal then 8 else 10;
    var digits := if hex then rest[2..] else if octal then rest[1..] else rest;
    if digits == "" || !AllDigits(digits, radix) then None
    else InRange(negative, ValueOf(digits, radix))
  }

  /** `trim_ascii_start(..).parse::<i64>()`: decimal only. */
  function ParseDecimal(input: string): (r: Option<int>)
    ensures r.Some? ==> I64_MIN <= r.value <= I64_MAX
  {
    var s := SkipSpaces(input);
    var negative := s != "" && s[0] == '-';
    var digits := if s != "" && (s[0] == '-' || s[0] == '+') then s[1..] else s;
    if digits == "" || !AllDigits(digits, 10) then None
    else InRange(negative, ValueOf(digits, 10))
  }

  // ----- Printing -----

  function DigitChar(d: nat): char
    requires d < 16
  { "0123456789ABCDEF"[d] }

  function Render(n: nat, radix: nat): (r: string)
    requires IsRadix(radix)
    ensures r != ""
  {
    if n < radix then [DigitChar(n)] else Render(n / radix, radix) + [DigitChar(n % radix)]
  }

  function ToDecimal(n: int): string { if n < 0 then "-" + Render(-n, 10) else Render(n, 10) }

  /** `{:02X}`. */
  function Hex02(n: nat): string { if n < 16 then "0" + Render(n, 16) else Render(n, 16) }

  lemma DigitInverse(d: nat)
    requires d < 16
    ensures DigitOf(DigitChar(d)) == d
  {
  }

  lemma {:induction false} RenderInverse(n: nat, radix: nat)
    requires IsRadix(radix)
    ensures AllDigits(Render(n, radix), radix) && ValueOf(Render(n, radix), radix) == n
    ensures n > 0 ==> Render(n, radix)[0] != '0'
    ensures |Render(n, radix)| > 1 ==> n >= radix
  {
    var r := Render(n, radix);
    if n < radix {
      DigitInverse(n);
      assert r[..0] == "";
    } else {
      RenderInverse(n / radix, radix);
      DigitInverse(n % radix);
      assert r[..|r| - 1] == Render(n / radix, radix);
    }
  }

  lemma PlainDigits(s: string)
    requires s != "" && AllDigits(s, 10)
    ensures !IsSpace(s[0]) && s[0] != '-' && s[0] != '+' && SkipSpaces(s) == s
    ensures |s| > 1 ==> s[1] != 'x' && s[1] != 'X'
  {
    assert DigitOf(s[0]) < 10;
    if |s| > 1 { assert DigitOf(s[1]) < 10; }
  }

  lemma DigitsReadBack(negative: bool, digits: string, n: nat)
    requires digits != "" && AllDigits(digits, 10) && ValueOf(digits, 10) == n && (|digits| > 1 ==> digits[0] != '0')
    ensures var s := if negative then "-" + digits else digits;
            ParseInteger(s) == InRange(negative, n) && ParseDecimal(s) == InRange(negative, n)
  {
    hide ValueOf, AllDigits, DigitOf;
    PlainDigits(digits);
    var s := if negative then "-" + digits else digits;
    assert SkipSpaces(s) == s;
    if negative { assert s[1..] == digits; }
  }

  /** Printing a number in decimal and reading it back, in either notation. */
  lemma DecimalReadsBack(n: int)
    requires I64_MIN <= n <= I64_MAX
    ensures ParseInteger(ToDecimal(n)) == Some(n) && ParseDecimal(ToDecimal(n)) == Some(n)
  {
    hide ParseInteger, ParseDecimal, ValueOf, AllDigits, Render;
    var magnitude := if n < 0 then -n else n;
    RenderInverse(magnitude, 10);
    DigitsReadBack(n < 0, Render(magnitude, 10), magnitude);
  }

  lemma {:induction false} LeadingZero(s: string, radix: nat)
    ensures ValueOf("0" + s, radix) == ValueOf(s, radix)
    decreases |s|
  {
    var t := "0" + s;
    if s == "" {
      assert t[..0] == "";
    } else {
      assert t[..|t| - 1] == "0" + s[..|s| - 1];
      LeadingZero(s[..|s| - 1], radix);
    }
  }

  lemma Hex02Inverse(n: nat)
    ensures AllDigits(Hex02(n), 16) && ValueOf(Hex02(n), 16) == n && |Hex02(n)| >= 2
    ensures n < 0x100 ==> |Hex02(n)| == 2
    ensures n < 0x1_0000 ==> |Hex02(n)| <= 4
  {
    RenderInverse(n, 16);
    if n < 16 { LeadingZero(Render(n, 16), 16); }
    RenderLength(n);
  }

  lemma RenderLength(n: nat)
    ensures n < 16 ==> |Render(n, 16)| == 1
    ensures 16 <= n < 0x100 ==> |Render(n, 16)| == 2
    ensures 16 <= n < 0x1_0000 ==> 2 <= |Render(n, 16)| <= 4
    ensures n >= 0x100 ==> |Render(n, 16)| >= 2
  {
    if n < 0x1_0000 {
      assert n / 16 < 0x1000 && n / 16 / 16 < 0x100 && n / 16 / 16 / 16 < 16;
      if n >= 16 { assert Render(n, 16) == Render(n / 16, 16) + [DigitChar(n % 16)]; }
      if n >= 0x100 { assert Render(n / 16, 16) == Render(n / 16 / 16, 16) + [DigitChar(n / 16 % 16)]; }
      if n >= 0x1000 { assert Render(n / 16 / 16, 16) == Render(n / 16 / 16 / 16, 16) + [DigitChar(n / 16 / 16 % 16)]; }
    }
  }

  /** `0x{:02X}` reads back as the number printed. */
  lemma HexAttributeReadsBack(n: nat)
    requires n < 0x1_0000
    ensures ParseInteger("0x" + Hex02(n)) == Some(n)
  {
    Hex02Inverse(n);
    assert ("0x" + Hex02(n))[2..] == Hex02(n);
  }
}
