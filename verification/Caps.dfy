/** Monitor capabilities: the grammar of capability strings and the edits they
    make. Parsers consume a prefix of the unread text and return the rest. */
module Caps {
  import opened Base
  import opened Numbers

  type Code = n: nat | n < 0x100
  type Word = n: nat | n < 0x1_0000

  datatype MonitorType = Unknown | Lcd | Crt

  /** A code maps to its value list; None stands for all values. */
  type Vcp = map<Code, Option<seq<Word>>>

  datatype CapsTable = CapsTable(kind: MonitorType, vcp: Vcp)

  datatype Item = Item(code: Code, values: Option<seq<Word>>)

  datatype ParsedCaps = ParsedCaps(kind: Option<MonitorType>, vcp: seq<Item>)

  const NOTHING := ParsedCaps(None, [])

  datatype ErrorKind = InvalidHex | UnexpectedCloseParen | UnexpectedEnd | UnbalancedParens | ValueWithoutVcpCode

  /** A result, with the text left unread; for an error, the text at which it is
      reported. */
  datatype Read<+T> = Bad(kind: ErrorKind, at: string) | Good(value: T, rest: string)

  predicate IsName(c: char) { '0' <= c <= '9' || 'a' <= c <= 'z' || 'A' <= c <= 'Z' || c == '_' }

  predicate InToken(c: char) { c != '(' && c != ')' && !IsSpace(c) }

  predicate InType(c: char) { c != ')' && !IsSpace(c) }

  function Lower(c: char): char { if 'A' <= c <= 'Z' then (c as int + 32) as char else c }

  function LowerCase(s: string): string { seq(|s|, i requires 0 <= i < |s| => Lower(s[i])) }

  datatype CharClass = NameChars | TokenChars | TypeChars

  predicate In(c: char, chars: CharClass) {
    match chars
    case NameChars => IsName(c)
    case TokenChars => InToken(c)
    case TypeChars => InType(c)
  }

  /** Length of the longest prefix of characters in the class. */
  function Span(s: string, chars: CharClass): (n: nat)
    ensures n <= |s| && (s != "" && In(s[0], chars) ==> n > 0)
  {
    if s == "" || !In(s[0], chars) then 0 else 1 + Span(s[1..], chars)
  }

  predicate Opens(s: string) { s != "" && s[0] == '(' }

  function SkipBalanced(s: string, depth: nat): (r: Read<()>)
    requires depth > 0
    ensures r.Good? ==> |r.rest| < |s|
    decreases |s|
  {
    if s == "" then Bad(UnbalancedParens, s)
    else if s[0] == '(' then SkipBalanced(s[1..], depth + 1)
    else if s[0] != ')' then SkipBalanced(s[1..], depth)
    else if depth == 1 then Good((), s[1..])
    else SkipBalanced(s[1..], depth - 1)
  }

  function SkipFromCurrent(s: string): (r: Read<()>)
    ensures r.Good? ==> |r.rest| < |s|
    decreases |s|
  {
    if s == "" then Bad(UnbalancedParens, s)
    else if s[0] == ')' then Good((), s[1..])
    else if s[0] == '(' then
      match SkipBalanced(s[1..], 1)
      case Bad(kind, at) => Bad(kind, at)
      case Good(_, rest) => SkipFromCurrent(rest)
    else SkipFromCurrent(s[1..])
  }

  function KindOf(word: string, otherwise: Option<MonitorType>): Option<MonitorType> {
    var lower := LowerCase(word);
    if lower == "lcd" then Some(Lcd) else if lower == "crt" then Some(Crt) else otherwise
  }

  function ParseType(s: string, parsed: ParsedCaps): (r: Read<ParsedCaps>)
    ensures r.Good? ==> |r.rest| < |s|
  {
    var t := SkipSpaces(s);
    var n := Span(t, TypeChars);
    var kind := KindOf(t[..n], parsed.kind);
    match SkipFromCurrent(t[n..])
    case Bad(k, at) => Bad(k, at)
    case Good(_, rest) => Good(parsed.(kind := kind), rest)
  }

  function HexWord(token: string): Option<Word> {
    if token == "" || |token| > 4 || !AllDigits(token, 16) then None
    else
      HexBound(token, |token|);
      Some(ValueOf(token, 16))
  }

  lemma {:induction false} HexBound(token: string, n: nat)
    requires |token| <= n <= 4 && AllDigits(token, 16)
    ensures ValueOf(token, 16) < (if n == 0 then 1 else if n == 1 then 16 else if n == 2 then 0x100
                                  else if n == 3 then 0x1000 else 0x1_0000)
    decreases n
  {
    if token != "" { HexBound(token[..|token| - 1], n - 1); }
  }

  /** One token of a value list: a value, or a nested list that is skipped. */
  function ValueToken(t: string, values: seq<Word>): (r: Read<seq<Word>>)
    requires t != "" && t[0] != ')' && !IsSpace(t[0])
    ensures r.Good? ==> |r.rest| < |t|
  {
    if t[0] == '(' then
      match SkipBalanced(t[1..], 1)
      case Bad(kind, at) => Bad(kind, at)
      case Good(_, rest) => Good(values, rest)
    else
      var n := Span(t, TokenChars);
      match HexWord(t[..n])
      case None => Bad(InvalidHex, t)
      case Some(value) => Good(values + [value], t[n..])
  }

  function ParseValues(s: string, values: seq<Word>): (r: Read<seq<Word>>)
    ensures r.Good? ==> |r.rest| < |s|
    decreases |s|
  {
    var t := SkipSpaces(s);
    if t == "" then Bad(UnbalancedParens, t)
    else if t[0] == ')' then Good(values, t[1..])
    else
      match ValueToken(t, values)
      case Bad(kind, at) => Bad(kind, at)
      case Good(values', rest) => ParseValues(rest, values')
  }

  /** One `code` or `code(values)`; an empty list means all values. */
  function ParseItem(t: string): (r: Read<Item>)
    ensures r.Good? ==> |r.rest| < |t|
  {
    if |t| < 2 || !IsHex(t[0]) || !IsHex(t[1]) then Bad(InvalidHex, t)
    else
      var code: Code := DigitOf(t[0]) * 16 + DigitOf(t[1]);
      var u := SkipSpaces(t[2..]);
      if !Opens(u) then Good(Item(code, None), u)
      else
        match ParseValues(u[1..], [])
        case Bad(kind, at) => Bad(kind, at)
        case Good(values, rest) => Good(Item(code, if values == [] then None else Some(values)), rest)
  }

  /** One element of a vcp section: a nested section, or an item. */
  function VcpToken(t: string, parsed: ParsedCaps): (r: Read<ParsedCaps>)
    requires t != ""
    ensures r.Good? ==> |r.rest| < |t|
    decreases |t|, 0
  {
    if IsName(t[0]) && !IsHex(t[0]) then
      var n := Span(t, NameChars);
      var u := SkipSpaces(t[n..]);
      if !Opens(u) then Bad(InvalidHex, t)
      else if LowerCase(t[..n]) == "vcp" then ParseVcp(u[1..], parsed)
      else
        match SkipBalanced(u[1..], 1)
        case Bad(kind, at) => Bad(kind, at)
        case Good(_, rest) => Good(parsed, rest)
    else
      match ParseItem(t)
      case Bad(kind, at) => Bad(kind, at)
      case Good(item, rest) => Good(parsed.(vcp := parsed.vcp + [item]), rest)
  }

  function ParseVcp(s: string, parsed: ParsedCaps): (r: Read<ParsedCaps>)
    ensures r.Good? ==> |r.rest| < |s|
    decreases |s|, 1
  {
    var t := SkipSpaces(s);
    if t == "" then Bad(UnbalancedParens, t)
    else if t[0] == ')' then Good(parsed, t[1..])
    else if t[0] == '(' then Bad(ValueWithoutVcpCode, t)
    else
      match VcpToken(t, parsed)
      case Bad(kind, at) => Bad(kind, at)
      case Good(parsed', rest) => ParseVcp(rest, parsed')
  }

  /** The body of a named section, after its opening parenthesis. */
  function ParseSection(name: string, s: string, parsed: ParsedCaps): (r: Read<ParsedCaps>)
    ensures r.Good? ==> |r.rest| < |s|
  {
    if name == "type" then ParseType(s, parsed)
    else if name == "vcp" then ParseVcp(s, parsed)
    else
      match SkipBalanced(s, 1)
      case Bad(kind, at) => Bad(kind, at)
      case Good(_, rest) => Good(parsed, rest)
  }

  /** One element at section level: a nested group, a name with or without a
      section, or a character that is passed over. */
  function SectionToken(t: string, parsed: ParsedCaps): (r: Read<ParsedCaps>)
    requires t != "" && t[0] != ')'
    ensures r.Good? ==> |r.rest| < |t|
    decreases |t|, 0
  {
    if t[0] == '(' then ParseSections(t[1..], true, parsed)
    else if IsName(t[0]) then
      var n := Span(t, NameChars);
      var u := SkipSpaces(t[n..]);
      if !Opens(u) then Good(parsed, u) else ParseSection(t[..n], u[1..], parsed)
    else Good(parsed, t[1..])
  }

  function ParseSections(s: string, nested: bool, parsed: ParsedCaps): (r: Read<ParsedCaps>)
    ensures r.Good? ==> |r.rest| <= |s| && (nested ==> |r.rest| < |s|)
    decreases |s|, 1
  {
    var t := SkipSpaces(s);
    if t == "" then if nested then Bad(UnbalancedParens, t) else Good(parsed, t)
    else if t[0] == ')' then if nested then Good(parsed, t[1..]) else Bad(UnexpectedCloseParen, t)
    else
      match SectionToken(t, parsed)
      case Bad(kind, at) => Bad(kind, at)
      case Good(parsed', rest) => ParseSections(rest, nested, parsed')
  }

  function Parse(input: string): Read<ParsedCaps> { ParseSections(input, false, NOTHING) }

  // ----- Edits -----

  datatype Edit = Add | Remove

  function EditItem(vcp: Vcp, edit: Edit, item: Item): Vcp {
    if edit.Add? then vcp[item.code := item.values]
    else if item.code !in vcp then vcp
    else if item.values.None? || vcp[item.code].None? then vcp - {item.code}
    else
      var left := Without(vcp[item.code].value, item.values.value);
      if left == [] then vcp - {item.code} else vcp[item.code := Some(left)]
  }

  /** `retain`: the values not listed for removal, in order. */
  function Without(values: seq<Word>, removed: seq<Word>): (r: seq<Word>)
    ensures forall v :: v in r <==> v in values && v !in removed
  {
    if values == [] then []
    else
      var rest := Without(values[1..], removed);
      if values[0] in removed then rest else [values[0]] + rest
  }

  function EditItems(vcp: Vcp, edit: Edit, items: seq<Item>): Vcp
    decreases |items|
  {
    if items == [] then vcp else EditItem(EditItems(vcp, edit, items[..|items| - 1]), edit, items[|items| - 1])
  }

  function ApplyParsed(caps: CapsTable, edit: Edit, parsed: ParsedCaps): CapsTable {
    CapsTable(if edit.Add? && parsed.kind.Some? then parsed.kind.value else caps.kind,
              EditItems(caps.vcp, edit, parsed.vcp))
  }

  /** `Caps::apply`: None when the string does not parse. */
  function Apply(caps: CapsTable, edit: Edit, input: string): Option<CapsTable> {
    match Parse(input)
    case Bad(_, _) => None
    case Good(parsed, _) => Some(ApplyParsed(caps, edit, parsed))
  }
}
