/** The C-style integer notation, as a language: what is read, and as which number. */
module IntegerNotation {
  import opened Base
  import opened Numbers

  // ----- Digits and places -----

  const LOWER: string := "0123456789abcdef"
  const UPPER: string := "0123456789ABCDEF"

  lemma LowerDigits(c: char)
    ensures 'a' <= c <= 'f' || '0' <= c <= '9' <==> c in LOWER
    ensures forall d: nat | d < 16 :: DigitOf(LOWER[d]) == d
  {
  }

  lemma UpperDigits(c: char)
    ensures 'A' <= c <= 'F' || '0' <= c <= '9' <==> c in UPPER
    ensures forall d: nat | d < 16 :: DigitOf(UPPER[d]) == d
  {
  }

  /** Each digit in either case is worth its place in the alphabet of digits, and
      nothing else is a digit. */
  lemma DigitMeans(c: char, d: nat)
    requires d < 16
    ensures DigitOf(c) == d <==> c == LOWER[d] || c == UPPER[d]
    ensures DigitOf(c) < 16 <==> c in LOWER || c in UPPER
  {
    LowerDigits(c);
    UpperDigits(c);
    if DigitOf(c) == d {
      if c in LOWER { var i: nat :| i < 16 && LOWER[i] == c; } else { var i: nat :| i < 16 && UPPER[i] == c; }
    }
  }

  function Power(radix: nat, n: nat): nat { if n == 0 then 1 else radix * Power(radix, n - 1) }

  /** A digit before n others is worth its value times the n-th power of the radix. */
  lemma {:induction false} PlaceValue(s: string, radix: nat)
    requires s != ""
    ensures ValueOf(s, radix) == DigitOf(s[0]) * Power(radix, |s| - 1) + ValueOf(s[1..], radix)
    decreases |s|
  {
    hide DigitOf;
    var n := |s| - 1;
    if n == 0 {
      assert s[..0] == "" && s[1..] == "";
    } else {
      PlaceValue(s[..n], radix);
      assert s[..n][1..] == s[1..][..n - 1];
      var d, p, v := DigitOf(s[0]), Power(radix, n - 1), ValueOf(s[1..][..n - 1], radix);
      assert ValueOf(s, radix) == (d * p + v) * radix + DigitOf(s[n]);
      Scale(d, p, v, radix);
      assert ValueOf(s[1..], radix) == v * radix + DigitOf(s[n]);
    }
  }

  lemma Scale(d: nat, p: nat, v: nat, radix: nat)
    ensures (d * p + v) * radix == d * (radix * p) + v * radix
  {
    assert (d * p) * radix == d * (radix * p);
  }

  // ----- The language -----

  /** Space, a sign, a prefix for the radix, digits. */
  datatype Spelling = Spelling(space: string, sign: string, prefix: string, digits: string)

  function Text(p: Spelling): string { p.space + p.sign + p.prefix + p.digits }

  function Radix(prefix: string): nat {
    if prefix == "0x" || prefix == "0X" then 16 else if prefix == "0" then 8 else 10
  }

  predicate Spells(p: Spelling) {
    && (forall i | 0 <= i < |p.space| :: p.space[i] in " \t\n\U{0C}\r")
    && (p.sign == "" || p.sign == "+" || p.sign == "-")
    && (p.prefix == "" || p.prefix == "0" || p.prefix == "0x" || p.prefix == "0X")
    && p.digits != "" && AllDigits(p.digits, Radix(p.prefix))
    && (p.prefix == "" && p.digits[0] == '0' ==> |p.digits| == 1)
  }

  function Number(p: Spelling): int {
    if p.sign == "-" then 0 - ValueOf(p.digits, Radix(p.prefix)) else ValueOf(p.digits, Radix(p.prefix))
  }

  lemma NotSpace(c: char)
    requires DigitOf(c) < 16 || c == '+' || c == '-'
    ensures !IsSpace(c) && c != 'x' && c != 'X' && (DigitOf(c) < 16 ==> c != '+' && c != '-')
  {
  }

  function Signed(negative: bool, n: nat): int { if negative then 0 - n else n }

  function Fitting(n: int): Option<int> { if I64_MIN <= n <= I64_MAX then Some(n) else None }

  lemma UnsignedIsRead(prefix: string, digits: string, negative: bool)
    requires Spells(Spelling("", "", prefix, digits))
    ensures ParseUnsigned(prefix + digits, negative) ==
            Fitting(Signed(negative, ValueOf(digits, Radix(prefix))))
    ensures prefix + digits != "" && DigitOf((prefix + digits)[0]) < 16
  {
    hide ValueOf, DigitOf, AllDigits;
    var body := prefix + digits;
    FirstDigit(digits, Radix(prefix));
    ZeroDigit();
    if |prefix| == 2 {
      assert body[2..] == digits;
    } else if prefix == "0" {
      NotSpace(digits[0]);
      assert body[1..] == digits;
    } else {
      assert body == digits;
      if |digits| > 1 { SecondDigit(digits, 10); }
    }
  }

  /** The five ASCII white space characters. */
  lemma SpaceMeans(s: string)
    ensures Space(s) <==> forall i | 0 <= i < |s| :: s[i] in " \t\n\U{0C}\r"
  {
  }

  /** What is spelled is read as its number, if that fits 64 bits. */
  lemma SpelledIsRead(p: Spelling)
    requires Spells(p)
    ensures ParseInteger(Text(p)) == Fitting(Number(p))
  {
    hide ValueOf, DigitOf, AllDigits, SkipSpaces, ParseUnsigned, Space, IsSpace;
    SpaceMeans(p.space);
    UnsignedIsRead(p.prefix, p.digits, p.sign == "-");
    var body := p.prefix + p.digits;
    var signed := p.sign + body;
    NotSpace(body[0]);
    if p.sign != "" { NotSpace(p.sign[0]); }
    assert signed[0] == if p.sign != "" then p.sign[0] else body[0];
    SkipSpace(p.space, signed);
    assert Text(p) == p.space + signed;
    assert (if p.sign != "" then signed[1..] else signed) == body;
  }

  lemma ZeroDigit()
    ensures DigitOf('0') == 0
  {
  }

  lemma FirstDigit(s: string, radix: nat)
    requires s != "" && AllDigits(s, radix) && radix <= 16
    ensures DigitOf(s[0]) < 16
  {
  }

  lemma SecondDigit(s: string, radix: nat)
    requires |s| > 1 && AllDigits(s, radix) && radix <= 16
    ensures s[1] != 'x' && s[1] != 'X'
  {
    assert DigitOf(s[1]) < 16;
  }

  lemma UnsignedIsSpelled(rest: string, negative: bool) returns (prefix: string, digits: string)
    requires ParseUnsigned(rest, negative).Some?
    ensures rest == prefix + digits && Spells(Spelling("", "", prefix, digits))
    ensures ParseUnsigned(rest, negative) ==
            Some(Signed(negative, ValueOf(digits, Radix(prefix))))
  {
    hide ValueOf, DigitOf, AllDigits;
    if |rest| >= 2 && rest[0] == '0' && (rest[1] == 'x' || rest[1] == 'X') {
      prefix, digits := rest[..2], rest[2..];
      assert prefix == ['0', rest[1]];
    } else if |rest| > 1 && rest[0] == '0' {
      prefix, digits := rest[..1], rest[1..];
      assert prefix == "0";
    } else {
      prefix, digits := "", rest;
    }
    assert rest == prefix + digits;
  }

  /** And nothing else is read. */
  lemma ReadIsSpelled(input: string) returns (p: Spelling)
    requires ParseInteger(input).Some?
    ensures Spells(p) && Text(p) == input && ParseInteger(input) == Some(Number(p))
  {
    hide ValueOf, DigitOf, AllDigits, SkipSpaces, ParseUnsigned, Space, IsSpace, Radix, Text;
    var space := SpaceSkipped(input);
    SpaceMeans(space);
    var s := SkipSpaces(input);
    var sign := if s != "" && (s[0] == '-' || s[0] == '+') then s[..1] else "";
    var rest := if sign != "" then s[1..] else s;
    assert s == sign + rest;
    var prefix, digits := UnsignedIsSpelled(rest, sign == "-");
    p := Spelling(space, sign, prefix, digits);
    TextJoins(p);
  }

  lemma TextJoins(p: Spelling)
    ensures Text(p) == p.space + (p.sign + (p.prefix + p.digits))
  {
  }

  /** The integers of the database: exactly the spellings whose number fits 64 bits. */
  lemma IntegerMeans(input: string, n: int)
    ensures ParseInteger(input) == Some(n) <==>
            I64_MIN <= n <= I64_MAX && exists p :: Spells(p) && Text(p) == input && Number(p) == n
  {
    hide ParseInteger, Spells, Text, Number;
    if ParseInteger(input) == Some(n) { var p := ReadIsSpelled(input); }
    forall p | Spells(p) && Text(p) == input && Number(p) == n && I64_MIN <= n <= I64_MAX
      ensures ParseInteger(input) == Some(n)
    { SpelledIsRead(p); }
  }

  /** Delays are decimal: leading zeroes do not make them octal. */
  lemma DecimalMeans(space: string, sign: string, digits: string)
    requires Space(space) && (sign == "" || sign == "+" || sign == "-")
    requires digits != "" && AllDigits(digits, 10)
    ensures var n := if sign == "-" then 0 - ValueOf(digits, 10) else ValueOf(digits, 10);
            ParseDecimal(space + sign + digits) == if I64_MIN <= n <= I64_MAX then Some(n) else None
  {
    hide ValueOf, DigitOf, AllDigits, SkipSpaces, Space, IsSpace;
    FirstDigit(digits, 10);
    NotSpace(digits[0]);
    if sign != "" { NotSpace(sign[0]); }
    var signed := sign + digits;
    assert signed[0] == if sign != "" then sign[0] else digits[0];
    SkipSpace(space, signed);
    assert space + sign + digits == space + signed;
    assert (if sign != "" then signed[1..] else signed) == digits;
  }

  lemma DecimalOnly(input: string) returns (space: string, sign: string, digits: string)
    requires ParseDecimal(input).Some?
    ensures input == space + sign + digits && Space(space) && (sign == "" || sign == "+" || sign == "-")
    ensures digits != "" && AllDigits(digits, 10)
  {
    hide ValueOf, DigitOf, AllDigits, SkipSpaces, Space, IsSpace;
    space := SpaceSkipped(input);
    var s := SkipSpaces(input);
    sign := if s != "" && (s[0] == '-' || s[0] == '+') then s[..1] else "";
    digits := if sign != "" then s[1..] else s;
    assert s == sign + digits;
  }
}
