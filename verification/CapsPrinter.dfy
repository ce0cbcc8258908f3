/** The scanner's capability printer, which the parser inverts. */
module CapsPrinter {
  import opened Base
  import opened Numbers
  import opened Caps
  import opened CapsEdits

  // ----- What is printed -----

  function KindText(kind: MonitorType): string {
    match kind
    case Lcd => "type(lcd)"
    case Crt => "type(crt)"
    case Unknown => ""
  }

  /** Values after the first, each preceded by a space. */
  function ValueTail(values: seq<Word>): string
    decreases |values|
  { if values == [] then "" else " " + Hex02(values[0]) + ValueTail(values[1..]) }

  function ValueText(values: Option<seq<Word>>): string {
    match values
    case None => ""
    case Some(vs) => "(" + (if vs == [] then "" else Hex02(vs[0]) + ValueTail(vs[1..])) + ")"
  }

  function Advertised(caps: CapsTable, code: Code): Option<seq<Word>> {
    if code in caps.vcp then caps.vcp[code] else None
  }

  function CodeText(caps: CapsTable, code: Code): string { Hex02(code) + ValueText(Advertised(caps, code)) }

  function CodeTail(caps: CapsTable, codes: seq<Code>): string
    decreases |codes|
  { if codes == [] then "" else " " + CodeText(caps, codes[0]) + CodeTail(caps, codes[1..]) }

  function CodesText(caps: CapsTable, codes: seq<Code>): string {
    if codes == [] then "" else CodeText(caps, codes[0]) + CodeTail(caps, codes[1..])
  }

  function Printed(caps: CapsTable, codes: seq<Code>): string {
    "(" + KindText(caps.kind) + "vcp(" + CodesText(caps, codes) + "))"
  }

  // ----- What the parser makes of it -----

  /** An empty list is printed as `()`, which reads as all values. */
  function Normal(values: Option<seq<Word>>): Option<seq<Word>> { if values == Some([]) then None else values }

  function Reread(caps: CapsTable, codes: seq<Code>): seq<Item> {
    if codes == [] then [] else [Item(codes[0], Normal(Advertised(caps, codes[0])))] + Reread(caps, codes[1..])
  }

  lemma HexStart(n: nat, rest: string)
    ensures var s := Hex02(n) + rest; |s| >= 2 && IsHex(s[0]) && IsHex(s[1]) && InToken(s[0]) && SkipSpaces(s) == s
    ensures forall i | 0 <= i < |Hex02(n)| :: InToken(Hex02(n)[i])
  {
    hide Hex02;
    Hex02Inverse(n);
    forall i | 0 <= i < |Hex02(n)| ensures InToken(Hex02(n)[i]) { assert DigitOf(Hex02(n)[i]) < 16; }
    assert (Hex02(n) + rest)[0] == Hex02(n)[0] && (Hex02(n) + rest)[1] == Hex02(n)[1];
  }

  lemma {:induction false} SpanExact(s: string, rest: string, chars: CharClass)
    requires (forall i | 0 <= i < |s| :: In(s[i], chars)) && (rest != "" ==> !In(rest[0], chars))
    ensures Span(s + rest, chars) == |s|
  {
    var t := s + rest;
    if s != "" {
      assert t[1..] == s[1..] + rest;
      SpanExact(s[1..], rest, chars);
    } else {
      assert t == rest;
    }
  }

  predicate StartsLate(s: string) { s != "" && (s[0] == ' ' || s[0] == ')') }

  /** One more value: the token ends where the next space or parenthesis is. */
  lemma ReadValue(v: Word, rest: string, values: seq<Word>)
    requires StartsLate(rest)
    ensures ParseValues(Hex02(v) + rest, values) == ParseValues(rest, values + [v])
  {
    hide Hex02, ValueOf;
    var t := Hex02(v) + rest;
    HexStart(v, rest);
    Hex02Inverse(v);
    SpanExact(Hex02(v), rest, TokenChars);
    assert t[..|Hex02(v)|] == Hex02(v) && t[|Hex02(v)|..] == rest;
  }

  lemma SpaceBeforeValues(s: string, values: seq<Word>)
    ensures ParseValues(" " + s, values) == ParseValues(s, values)
  {
    assert (" " + s)[1..] == s;
    SkipTwice(s);
  }

  lemma {:induction false} ReadValues(vs: seq<Word>, rest: string, values: seq<Word>)
    ensures ParseValues(ValueTail(vs) + ")" + rest, values) == Good(values + vs, rest)
    decreases |vs|
  {
    hide Hex02, ParseValues;
    if vs == [] {
      ReadEnd(rest, values);
      assert ValueTail(vs) + ")" + rest == ")" + rest && values + vs == values;
    } else {
      var tail := ValueTail(vs[1..]) + ")" + rest;
      calc {
        ParseValues(ValueTail(vs) + ")" + rest, values);
        { assert ValueTail(vs) + ")" + rest == " " + (Hex02(vs[0]) + tail); }
        ParseValues(" " + (Hex02(vs[0]) + tail), values);
        { SpaceBeforeValues(Hex02(vs[0]) + tail, values); }
        ParseValues(Hex02(vs[0]) + tail, values);
        { LateTail(vs[1..], rest); ReadValue(vs[0], tail, values); }
        ParseValues(tail, values + [vs[0]]);
        { ReadValues(vs[1..], rest, values + [vs[0]]); }
        Good(values + [vs[0]] + vs[1..], rest);
        { assert values + [vs[0]] + vs[1..] == values + vs; }
        Good(values + vs, rest);
      }
    }
  }

  lemma ReadEnd(rest: string, values: seq<Word>)
    ensures ParseValues(")" + rest, values) == Good(values, rest)
  {
    assert (")" + rest)[1..] == rest;
  }

  lemma LateTail(vs: seq<Word>, rest: string)
    ensures StartsLate(ValueTail(vs) + ")" + rest)
  {
  }

  /** A printed code reads back as its item. */
  lemma ReadCode(caps: CapsTable, code: Code, rest: string)
    requires StartsLate(rest) && !Opens(SkipSpaces(rest))
    ensures var r := ParseItem(CodeText(caps, code) + rest);
            r.Good? && r.value == Item(code, Normal(Advertised(caps, code))) && SkipSpaces(r.rest) == SkipSpaces(rest)
  {
    hide Hex02, ParseValues, ValueText;
    var values := Advertised(caps, code);
    var t := CodeText(caps, code) + rest;
    var after := ValueText(values) + rest;
    assert t == Hex02(code) + after;
    TwoDigits(code, after);
    SkipTwice(rest);
    if values.Some? {
      ReadList(values.value, rest);
    } else {
      assert after == rest by { NoList(); }
    }
  }

  lemma NoList()
    ensures ValueText(None) == ""
  {
  }

  lemma ReadList(vs: seq<Word>, rest: string)
    ensures var after := ValueText(Some(vs)) + rest;
            SkipSpaces(after) == after && Opens(after) && ParseValues(after[1..], []) == Good(vs, rest)
  {
    hide Hex02, ParseValues, ValueTail;
    var after := ValueText(Some(vs)) + rest;
    if vs == [] {
      assert after[1..] == ")" + rest;
      ReadEnd(rest, []);
    } else {
      var tail := ValueTail(vs[1..]) + ")" + rest;
      assert after[1..] == Hex02(vs[0]) + tail;
      LateTail(vs[1..], rest);
      ReadValue(vs[0], tail, []);
      ReadValues(vs[1..], rest, [vs[0]]);
      assert [] + [vs[0]] == [vs[0]] && [vs[0]] + vs[1..] == vs;
    }
  }

  lemma TwoDigits(code: Code, rest: string)
    ensures var t := Hex02(code) + rest;
            |Hex02(code)| == 2 && IsHex(t[0]) && IsHex(t[1]) && DigitOf(t[0]) * 16 + DigitOf(t[1]) == code
                && t[2..] == rest
  {
    Hex02Inverse(code);
    HexStart(code, rest);
    var h := Hex02(code);
    assert h[..1][..0] == "" && h[..1] == [h[0]];
    assert ValueOf(h[..1], 16) == DigitOf(h[0]);
  }

  lemma {:induction false} ReadCodes(caps: CapsTable, codes: seq<Code>, rest: string, parsed: ParsedCaps)
    ensures ParseVcp(CodeTail(caps, codes) + ")" + rest, parsed) ==
            Good(parsed.(vcp := parsed.vcp + Reread(caps, codes)), rest)
    decreases |codes|
  {
    hide ParseVcp, CodeText, Advertised;
    if codes == [] {
      assert CodeTail(caps, codes) + ")" + rest == ")" + rest;
      assert parsed.vcp + [] == parsed.vcp;
      VcpEnd(rest, parsed);
    } else {
      var tail := CodeTail(caps, codes[1..]) + ")" + rest;
      assert CodeTail(caps, codes) + ")" + rest == " " + (CodeText(caps, codes[0]) + tail);
      VcpSpace(CodeText(caps, codes[0]) + tail, parsed);
      CodeTailLate(caps, codes[1..], rest);
      VcpCode(caps, codes[0], tail, parsed);
      var item := Item(codes[0], Normal(Advertised(caps, codes[0])));
      ReadCodes(caps, codes[1..], rest, parsed.(vcp := parsed.vcp + [item]));
      assert parsed.vcp + [item] + Reread(caps, codes[1..]) == parsed.vcp + Reread(caps, codes);
    }
  }

  lemma VcpEnd(rest: string, parsed: ParsedCaps)
    ensures ParseVcp(")" + rest, parsed) == Good(parsed, rest)
  {
    assert (")" + rest)[1..] == rest;
  }

  lemma VcpSpace(s: string, parsed: ParsedCaps)
    ensures ParseVcp(" " + s, parsed) == ParseVcp(s, parsed)
  {
    assert (" " + s)[1..] == s;
    SkipTwice(s);
  }

  lemma CodeTailLate(caps: CapsTable, codes: seq<Code>, rest: string)
    ensures var t := CodeTail(caps, codes) + ")" + rest; StartsLate(t) && !Opens(SkipSpaces(t))
  {
    hide CodeText;
    var t := CodeTail(caps, codes) + ")" + rest;
    if codes != [] {
      var next := CodeText(caps, codes[0]) + CodeTail(caps, codes[1..]) + ")" + rest;
      assert t[1..] == next;
      CodeStart(caps, codes[0], CodeTail(caps, codes[1..]) + ")" + rest);
      assert next == CodeText(caps, codes[0]) + (CodeTail(caps, codes[1..]) + ")" + rest);
    }
  }

  lemma CodeStart(caps: CapsTable, code: Code, rest: string)
    ensures var t := CodeText(caps, code) + rest;
            t != "" && IsHex(t[0]) && SkipSpaces(t) == t && !Opens(t) && t[0] != ')'
  {
    hide Hex02;
    HexStart(code, ValueText(Advertised(caps, code)) + rest);
    assert CodeText(caps, code) + rest == Hex02(code) + (ValueText(Advertised(caps, code)) + rest);
  }

  lemma VcpCode(caps: CapsTable, code: Code, tail: string, parsed: ParsedCaps)
    requires StartsLate(tail) && !Opens(SkipSpaces(tail))
    ensures ParseVcp(CodeText(caps, code) + tail, parsed)
         == ParseVcp(tail, parsed.(vcp := parsed.vcp + [Item(code, Normal(Advertised(caps, code)))]))
  {
    hide CodeText, ParseItem;
    CodeStart(caps, code, tail);
    ReadCode(caps, code, tail);
    var r := ParseItem(CodeText(caps, code) + tail);
    SameAfterSpaces(r.rest, tail, parsed.(vcp := parsed.vcp + [r.value]));
  }

  lemma SameAfterSpaces(s: string, t: string, parsed: ParsedCaps)
    requires SkipSpaces(s) == SkipSpaces(t)
    ensures ParseVcp(s, parsed) == ParseVcp(t, parsed)
  {
  }

  // ----- Sections -----

  function Continue(r: Read<ParsedCaps>, nested: bool): Read<ParsedCaps> {
    if r.Bad? then r else ParseSections(r.rest, nested, r.value)
  }

  lemma NamedSection(name: string, body: string, nested: bool, parsed: ParsedCaps)
    requires name != "" && forall i | 0 <= i < |name| :: IsName(name[i])
    ensures ParseSections(name + ("(" + body), nested, parsed) == Continue(ParseSection(name, body, parsed), nested)
  {
    hide ParseSection;
    var t := name + ("(" + body);
    assert t[0] == name[0] && IsName(name[0]);
    SpanExact(name, "(" + body, NameChars);
    assert t[..|name|] == name && t[|name|..] == "(" + body && ("(" + body)[1..] == body;
  }

  lemma NestedSections(body: string, parsed: ParsedCaps)
    ensures ParseSections("(" + body, false, parsed) == Continue(ParseSections(body, true, parsed), false)
  {
    assert ("(" + body)[1..] == body;
  }

  lemma SectionsEnd(parsed: ParsedCaps)
    ensures ParseSections(")", true, parsed) == Good(parsed, "") && ParseSections("", false, parsed) == Good(parsed, "")
  {
    assert ")"[1..] == "";
  }

  /** Reading what was printed: the monitor type, and one item per code. */
  lemma ParsePrinted(caps: CapsTable, codes: seq<Code>)
    ensures Parse(Printed(caps, codes)) ==
            Good(ParsedCaps(if caps.kind.Unknown? then None else Some(caps.kind), Reread(caps, codes)), "")
  {
    hide ParseSections, CodesText, Reread;
    var parsed := ParsedCaps(if caps.kind.Unknown? then None else Some(caps.kind), []);
    var vcp := "vcp(" + CodesText(caps, codes) + "))";
    assert Printed(caps, codes) == "(" + (KindText(caps.kind) + vcp);
    NestedSections(KindText(caps.kind) + vcp, NOTHING);
    if caps.kind.Unknown? {
      assert KindText(caps.kind) + vcp == vcp;
    } else {
      TypeSection(caps.kind, vcp);
    }
    ReadVcpSection(caps, codes, parsed);
    assert [] + Reread(caps, codes) == Reread(caps, codes);
    SectionsEnd(parsed.(vcp := Reread(caps, codes)));
  }

  lemma TypeSection(kind: MonitorType, rest: string)
    requires !kind.Unknown?
    ensures ParseSections(KindText(kind) + rest, true, NOTHING) == ParseSections(rest, true, ParsedCaps(Some(kind), []))
  {
    hide ParseSections, ParseType;
    var body := (if kind.Lcd? then "lcd" else "crt") + ")" + rest;
    assert KindText(kind) + rest == "type" + ("(" + body);
    NamedSection("type", body, true, NOTHING);
    ReadType(kind, rest);
  }

  lemma ReadType(kind: MonitorType, rest: string)
    requires !kind.Unknown?
    ensures ParseType((if kind.Lcd? then "lcd" else "crt") + ")" + rest, NOTHING) ==
            Good(ParsedCaps(Some(kind), []), rest)
  {
    var word := if kind.Lcd? then "lcd" else "crt";
    var t := word + ")" + rest;
    assert t == word + (")" + rest);
    SpanExact(word, ")" + rest, TypeChars);
    assert t[..3] == word && t[3..] == ")" + rest && (")" + rest)[1..] == rest;
    assert LowerCase(word) == word;
  }

  lemma ReadVcpSection(caps: CapsTable, codes: seq<Code>, parsed: ParsedCaps)
    ensures ParseSections("vcp(" + CodesText(caps, codes) + "))", true, parsed)
         == Good(parsed.(vcp := parsed.vcp + Reread(caps, codes)), "")
  {
    hide ParseSections, ParseVcp, CodesText, CodeTail, Reread;
    var body := CodesText(caps, codes) + ")" + ")";
    assert "vcp(" + CodesText(caps, codes) + "))" == "vcp" + ("(" + body);
    NamedSection("vcp", body, true, parsed);
    ReadCodes(caps, codes, ")", parsed);
    if codes == [] {
      assert body == CodeTail(caps, codes) + ")" + ")" by { NoCodes(caps); }
    } else {
      assert " " + body == CodeTail(caps, codes) + ")" + ")" by { SomeCodes(caps, codes); }
      VcpSpace(body, parsed);
    }
    SectionsEnd(parsed.(vcp := parsed.vcp + Reread(caps, codes)));
  }

  lemma NoCodes(caps: CapsTable)
    ensures CodeTail(caps, []) == "" && CodesText(caps, []) == ""
  {
  }

  lemma SomeCodes(caps: CapsTable, codes: seq<Code>)
    requires codes != []
    ensures CodeTail(caps, codes) == " " + CodesText(caps, codes)
  {
    hide CodeText;
  }

  // ----- Round trip -----

  ghost function Table(caps: CapsTable, codes: seq<Code>): CapsTable {
    CapsTable(caps.kind, map c | c in codes :: Normal(Advertised(caps, c)))
  }

  const EMPTY := CapsTable(Unknown, map[])

  lemma {:induction false} AddReread(caps: CapsTable, codes: seq<Code>)
    ensures EditItems(map[], Add, Reread(caps, codes)) == Table(caps, codes).vcp
    decreases |codes|
  {
    if codes != [] {
      var k := |codes| - 1;
      RereadLast(caps, codes);
      AddReread(caps, codes[..k]);
      var items := Reread(caps, codes);
      assert items[..|items| - 1] == Reread(caps, codes[..k]);
      assert codes == codes[..k] + [codes[k]];
    }
  }

  lemma {:induction false} RereadLast(caps: CapsTable, codes: seq<Code>)
    requires codes != []
    ensures var k := |codes| - 1;
            Reread(caps, codes) == Reread(caps, codes[..k]) + [Item(codes[k], Normal(Advertised(caps, codes[k])))]
  {
    if |codes| > 1 {
      RereadLast(caps, codes[1..]);
      assert codes[1..][..|codes| - 2] == codes[..|codes| - 1][1..];
    } else {
      assert codes[1..] == [] && codes[..0] == [];
    }
  }

  /** Printing and parsing: the same monitor type, every listed code, and codes the
      table does not hold as all-values. */
  lemma PrintThenParse(caps: CapsTable, codes: seq<Code>)
    ensures Apply(EMPTY, Add, Printed(caps, codes)) == Some(Table(caps, codes))
  {
    hide ParseSections, Printed, Reread, EditItems;
    ParsePrinted(caps, codes);
    AddReread(caps, codes);
  }

  /** The table itself survives exactly when none of its lists is empty, which
      parsing and edits guarantee. */
  lemma RoundTripIffListed(caps: CapsTable, codes: seq<Code>)
    requires forall c | c in caps.vcp :: c in codes
    ensures NonEmpty(caps.vcp) <==>
            var r := Apply(EMPTY, Add, Printed(caps, codes));
            r.Some? && r.value.kind == caps.kind && forall c | c in caps.vcp ::
                c in r.value.vcp && r.value.vcp[c] == caps.vcp[c]
  {
    hide Apply, Printed;
    PrintThenParse(caps, codes);
    var table := Table(caps, codes);
    forall c | c in caps.vcp ensures table.vcp[c] == caps.vcp[c] <==> Listed(caps.vcp[c]) {
      assert c in codes;
    }
  }

  // ----- The printer, as it runs -----

  method NormalizedCaps(caps: CapsTable, codes: seq<Code>) returns (output: string)
    ensures output == Printed(caps, codes)
  {
    hide CodesText, CodeText, KindText;
    output := "(";
    output := output + KindText(caps.kind);
    output := output + "vcp(";
    ghost var start := output;
    NoCodes(caps);
    assert codes[..0] == [];
    for k := 0 to |codes|
      invariant output == start + CodesText(caps, codes[..k])
    {
      var cell := PrintCode(caps, codes[k]);
      CodesGrow(caps, codes, k);
      if k > 0 { output := output + " "; }
      output := output + cell;
    }
    assert codes[..|codes|] == codes;
    output := output + "))";
  }

  method PrintCode(caps: CapsTable, code: Code) returns (cell: string)
    ensures cell == CodeText(caps, code)
  {
    hide Hex02, ValueText;
    cell := Hex02(code);
    var values := Advertised(caps, code);
    if values.Some? {
      var list := PrintList(values.value);
      cell := cell + list;
    } else {
      NoList();
    }
  }

  method PrintList(values: seq<Word>) returns (list: string)
    ensures list == ValueText(Some(values))
  {
    hide Hex02;
    list := "(";
    for k := 0 to |values|
      invariant list == "(" + ValuesText(values[..k])
    {
      if k > 0 { list := list + " "; }
      list := list + Hex02(values[k]);
      ValuesGrow(values, k);
    }
    assert values[..|values|] == values;
    list := list + ")";
  }

  function ValuesText(values: seq<Word>): string {
    if values == [] then "" else Hex02(values[0]) + ValueTail(values[1..])
  }

  lemma {:induction false} TailGrows(values: seq<Word>, v: Word)
    ensures ValueTail(values + [v]) == ValueTail(values) + " " + Hex02(v)
    decreases |values|
  {
    hide Hex02;
    if values != [] {
      TailGrows(values[1..], v);
      assert (values + [v])[1..] == values[1..] + [v];
    } else {
      assert ([] + [v])[1..] == [];
    }
  }

  lemma ValuesGrow(values: seq<Word>, k: nat)
    requires k < |values|
    ensures ValuesText(values[..k + 1]) == ValuesText(values[..k]) + (if k > 0 then " " else "") + Hex02(values[k])
  {
    hide Hex02;
    if k > 0 {
      assert values[..k + 1][1..] == values[..k][1..] + [values[k]];
      TailGrows(values[..k][1..], values[k]);
    }
  }

  lemma {:induction false} CodeTailGrows(caps: CapsTable, codes: seq<Code>, c: Code)
    ensures CodeTail(caps, codes + [c]) == CodeTail(caps, codes) + " " + CodeText(caps, c)
    decreases |codes|
  {
    hide CodeText;
    if codes != [] {
      CodeTailGrows(caps, codes[1..], c);
      assert (codes + [c])[1..] == codes[1..] + [c];
    } else {
      assert ([] + [c])[1..] == [];
    }
  }

  lemma CodesGrow(caps: CapsTable, codes: seq<Code>, k: nat)
    requires k < |codes|
    ensures CodesText(caps, codes[..k + 1]) == CodesText(caps, codes[..k]) + (if k > 0 then " " else "") +
            CodeText(caps, codes[k])
  {
    hide CodeText;
    if k > 0 {
      assert codes[..k + 1][1..] == codes[..k][1..] + [codes[k]];
      CodeTailGrows(caps, codes[..k][1..], codes[k]);
    }
  }
}
