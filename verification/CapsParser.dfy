/** The capability parser and editor, as they run: a cursor moved over the input
    and a table changed in place. */
module CapsParser {
  import opened Base
  import opened Numbers
  import Utf8
  import G = Caps

  /** Where the cursor stood, in characters. */
  datatype Stop = Stop(kind: G.ErrorKind, cursor: nat)

  /** What the caller is told: a position in bytes of UTF-8. */
  datatype Error = Error(kind: G.ErrorKind, position: nat)

  lemma TypeSteps(s: string, parsed: G.ParsedCaps)
    ensures var t := SkipSpaces(s);
            var n := G.Span(t, G.TypeChars);
            var skipped := G.SkipFromCurrent(t[n..]);
            G.ParseType(s, parsed) ==
              if skipped.Bad? then G.Bad(skipped.kind, skipped.at)
              else G.Good(parsed.(kind := G.KindOf(t[..n], parsed.kind)), skipped.rest)
  {
  }

  lemma SectionsSteps(s: string, nested: bool, parsed: G.ParsedCaps)
    ensures var t := SkipSpaces(s);
            var r := G.ParseSections(s, nested, parsed);
            if t == "" then r == if nested then G.Bad(G.UnbalancedParens, t) else G.Good(parsed, t)
            else if t[0] == ')' then r == if nested then G.Good(parsed, t[1..]) else G.Bad(G.UnexpectedCloseParen, t)
            else
              var next := G.SectionToken(t, parsed);
              if next.Bad? then r == G.Bad(next.kind, next.at) else r == G.ParseSections(next.rest, nested, next.value)
  {
  }

  lemma VcpSteps(s: string, parsed: G.ParsedCaps)
    ensures var t := SkipSpaces(s);
            var r := G.ParseVcp(s, parsed);
            if t == "" then r == G.Bad(G.UnbalancedParens, t)
            else if t[0] == ')' then r == G.Good(parsed, t[1..])
            else if t[0] == '(' then r == G.Bad(G.ValueWithoutVcpCode, t)
            else
              var next := G.VcpToken(t, parsed);
              if next.Bad? then r == G.Bad(next.kind, next.at) else r == G.ParseVcp(next.rest, next.value)
  {
  }

  class Parser {
    const input: string
    var pos: nat
    var parsed: G.ParsedCaps

    constructor (input: string)
      ensures this.input == input && pos == 0 && parsed == G.NOTHING
    {
      this.input := input;
      pos, parsed := 0, G.NOTHING;
    }

    ghost predicate Valid()
      reads this
    { pos <= |input| }

    ghost function Unread(): string
      requires Valid()
      reads this
    { input[pos..] }

    /** A step ended as the grammar says, leaving the cursor where it says. */
    ghost predicate Ended<T>(error: Option<Stop>, r: G.Read<T>)
      requires Valid()
      reads this
    {
      match r
      case Bad(kind, at) => |at| <= |input| && at == input[|input| - |at|..]
          && error == Some(Stop(kind, |input| - |at|))
      case Good(_, rest) => error == None && Unread() == rest
    }

    method Fail(kind: G.ErrorKind) returns (error: Option<Stop>)
      ensures error == Some(Stop(kind, pos))
    { error := Some(Stop(kind, pos)); }

    method SkipSpace()
      requires Valid()
      modifies this`pos
      ensures Valid() && Unread() == SkipSpaces(old(Unread()))
    {
      while pos < |input| && IsSpace(input[pos])
        invariant Valid() && SkipSpaces(Unread()) == SkipSpaces(old(Unread()))
      {
        assert Unread()[1..] == input[pos + 1..];
        pos := pos + 1;
      }
    }

    method Consume(c: char) returns (ok: bool)
      requires Valid()
      modifies this`pos
      ensures Valid() && ok == (old(Unread()) != "" && old(Unread())[0] == c)
      ensures Unread() == if ok then old(Unread())[1..] else old(Unread())
    {
      ok := pos < |input| && input[pos] == c;
      if ok { pos := pos + 1; }
    }

    /** The longest run of characters in a class. */
    method Take(chars: G.CharClass) returns (taken: string)
      requires Valid()
      modifies this`pos
      ensures Valid()
      ensures var n := G.Span(old(Unread()), chars); taken == old(Unread())[..n] && Unread() == old(Unread())[n..]
    {
      var start := pos;
      while pos < |input| && G.In(input[pos], chars)
        invariant start <= pos <= |input|
        invariant G.Span(input[start..], chars) == pos - start + G.Span(input[pos..], chars)
      {
        assert input[pos..][1..] == input[pos + 1..];
        pos := pos + 1;
      }
      taken := input[start..pos];
      assert G.Span(input[pos..], chars) == 0;
    }

    method SkipBalanced() returns (error: Option<Stop>)
      requires Valid()
      modifies this`pos
      ensures Valid() && Ended(error, G.SkipBalanced(old(Unread()), 1))
    {
      var depth: nat := 1;
      while pos < |input|
        invariant Valid() && depth > 0
        invariant G.SkipBalanced(Unread(), depth) == G.SkipBalanced(old(Unread()), 1)
      {
        var c := input[pos];
        assert Unread()[1..] == input[pos + 1..];
        pos := pos + 1;
        if c == '(' {
          depth := depth + 1;
        } else if c == ')' {
          if depth == 1 { return None; }
          depth := depth - 1;
        }
      }
      error := Fail(G.UnbalancedParens);
    }

    method SkipBalancedFromCurrent() returns (error: Option<Stop>)
      requires Valid()
      modifies this`pos
      ensures Valid() && Ended(error, G.SkipFromCurrent(old(Unread())))
    {
      hide G.SkipBalanced;
      while true
        invariant Valid() && G.SkipFromCurrent(Unread()) == G.SkipFromCurrent(old(Unread()))
        decreases |input| - pos
      {
        if pos == |input| { error := Fail(G.UnbalancedParens); return; }
        var c := input[pos];
        assert Unread()[1..] == input[pos + 1..];
        pos := pos + 1;
        if c == ')' { return None; }
        if c == '(' {
          error := SkipBalanced();
          if error.Some? { return; }
        }
      }
    }

    method ParseType() returns (error: Option<Stop>)
      requires Valid()
      modifies this
      ensures Valid() && Ended(error, G.ParseType(old(Unread()), old(parsed)))
      ensures error.None? ==> parsed == G.ParseType(old(Unread()), old(parsed)).value
    {
      hide G.SkipFromCurrent, SkipSpaces, G.Span, G.KindOf, G.ParseType;
      TypeSteps(Unread(), parsed);
      SkipSpace();
      var word := Take(G.TypeChars);
      parsed := parsed.(kind := G.KindOf(word, parsed.kind));
      error := SkipBalancedFromCurrent();
    }

    method ValueToken(values0: seq<G.Word>) returns (error: Option<Stop>, values: seq<G.Word>)
      requires Valid() && Unread() != "" && Unread()[0] != ')' && !IsSpace(Unread()[0])
      modifies this`pos
      ensures Valid() && Ended(error, G.ValueToken(old(Unread()), values0))
      ensures error.None? ==> values == G.ValueToken(old(Unread()), values0).value
    {
      hide G.SkipBalanced, G.HexWord;
      values := values0;
      if input[pos] == '(' {
        assert Unread()[1..] == input[pos + 1..];
        pos := pos + 1;
        error := SkipBalanced();
      } else {
        var at := pos;
        var token := Take(G.TokenChars);
        var value := G.HexWord(token);
        if value.None? { error := Some(Stop(G.InvalidHex, at)); return; }
        values := values + [value.value];
        error := None;
      }
    }

    method ParseValues() returns (error: Option<Stop>, values: seq<G.Word>)
      requires Valid()
      modifies this`pos
      ensures Valid() && Ended(error, G.ParseValues(old(Unread()), []))
      ensures error.None? ==> values == G.ParseValues(old(Unread()), []).value
    {
      hide G.ValueToken;
      values := [];
      while true
        invariant Valid() && G.ParseValues(Unread(), values) == G.ParseValues(old(Unread()), [])
        decreases |input| - pos
      {
        SkipSpace();
        if pos == |input| { error := Fail(G.UnbalancedParens); return; }
        if input[pos] == ')' { pos := pos + 1; error := None; return; }
        error, values := ValueToken(values);
        if error.Some? { return; }
      }
    }

    method ParseItem() returns (error: Option<Stop>)
      requires Valid()
      modifies this
      ensures Valid() && Ended(error, G.ParseItem(old(Unread())))
      ensures error.None? ==> parsed == old(parsed).(vcp := old(parsed).vcp + [G.ParseItem(old(Unread())).value])
      ensures error.None? ==> |Unread()| < |old(Unread())|
    {
      hide G.ParseValues, SkipSpaces, DigitOf;
      if |input| - pos < 2 || !IsHex(input[pos]) || !IsHex(input[pos + 1]) { error := Fail(G.InvalidHex); return; }
      var code: G.Code := DigitOf(input[pos]) * 16 + DigitOf(input[pos + 1]);
      ghost var t := Unread();
      pos := pos + 2;
      assert t[2..] == Unread();
      SkipSpace();
      var listed := Consume('(');
      var values: Option<seq<G.Word>> := None;
      if listed {
        var list;
        error, list := ParseValues();
        if error.Some? { return; }
        if list != [] { values := Some(list); }
      }
      parsed := parsed.(vcp := parsed.vcp + [G.Item(code, values)]);
      error := None;
    }

    method VcpToken() returns (error: Option<Stop>)
      requires Valid() && Unread() != ""
      modifies this
      ensures Valid() && Ended(error, G.VcpToken(old(Unread()), old(parsed)))
      ensures error.None? ==> parsed == G.VcpToken(old(Unread()), old(parsed)).value
      decreases |input| - pos, 0
    {
      hide G.ParseItem, G.SkipBalanced, G.LowerCase, G.ParseVcp, SkipSpaces;
      if G.IsName(input[pos]) && !IsHex(input[pos]) {
        var at := pos;
        var name := Take(G.NameChars);
        SkipSpace();
        var opens := Consume('(');
        if !opens { error := Some(Stop(G.InvalidHex, at)); return; }
        if G.LowerCase(name) == "vcp" {
          error := ParseVcp();
        } else {
          error := SkipBalanced();
        }
      } else {
        error := ParseItem();
      }
    }

    method ParseVcp() returns (error: Option<Stop>)
      requires Valid()
      modifies this
      ensures Valid() && Ended(error, G.ParseVcp(old(Unread()), old(parsed)))
      ensures error.None? ==> parsed == G.ParseVcp(old(Unread()), old(parsed)).value
      decreases |input| - pos, 1
    {
      hide G.VcpToken, G.ParseVcp, SkipSpaces;
      while true
        invariant Valid() && G.ParseVcp(Unread(), parsed) == G.ParseVcp(old(Unread()), old(parsed)) && old(pos) <= pos
        decreases |input| - pos
      {
        VcpSteps(Unread(), parsed);
        SkipSpace();
        if pos == |input| { error := Fail(G.UnbalancedParens); return; }
        if input[pos] == ')' { pos := pos + 1; error := None; return; }
        if input[pos] == '(' { error := Fail(G.ValueWithoutVcpCode); return; }
        error := VcpToken();
        if error.Some? { return; }
      }
    }

    method ParseSection(name: string) returns (error: Option<Stop>)
      requires Valid()
      modifies this
      ensures Valid() && Ended(error, G.ParseSection(name, old(Unread()), old(parsed)))
      ensures error.None? ==> parsed == G.ParseSection(name, old(Unread()), old(parsed)).value
    {
      hide G.ParseVcp, G.ParseType, G.SkipBalanced;
      if name == "type" { error := ParseType(); }
      else if name == "vcp" { error := ParseVcp(); }
      else { error := SkipBalanced(); }
    }

    method SectionToken() returns (error: Option<Stop>)
      requires Valid() && Unread() != "" && Unread()[0] != ')'
      modifies this
      ensures Valid() && Ended(error, G.SectionToken(old(Unread()), old(parsed)))
      ensures error.None? ==> parsed == G.SectionToken(old(Unread()), old(parsed)).value
      decreases |input| - pos, 0
    {
      hide G.ParseSection, G.ParseSections;
      error := None;
      if input[pos] == '(' {
        assert Unread()[1..] == input[pos + 1..];
        pos := pos + 1;
        error := ParseSections(true);
      } else if G.IsName(input[pos]) {
        var name := Take(G.NameChars);
        SkipSpace();
        var opens := Consume('(');
        if opens { error := ParseSection(name); }
      } else {
        assert Unread()[1..] == input[pos + 1..];
        pos := pos + 1;
      }
    }

    method ParseSections(nested: bool) returns (error: Option<Stop>)
      requires Valid()
      modifies this
      ensures Valid() && Ended(error, G.ParseSections(old(Unread()), nested, old(parsed)))
      ensures error.None? ==> parsed == G.ParseSections(old(Unread()), nested, old(parsed)).value
      decreases |input| - pos, 1
    {
      hide G.SectionToken, G.ParseSections, SkipSpaces;
      while true
        invariant Valid() && old(pos) <= pos
        invariant G.ParseSections(Unread(), nested, parsed) == G.ParseSections(old(Unread()), nested, old(parsed))
        decreases |input| - pos
      {
        SectionsSteps(Unread(), nested, parsed);
        SkipSpace();
        if pos == |input| {
          if nested { error := Fail(G.UnbalancedParens); } else { error := None; }
          return;
        }
        if input[pos] == ')' {
          if !nested { error := Fail(G.UnexpectedCloseParen); return; }
          pos := pos + 1;
          return None;
        }
        error := SectionToken();
        if error.Some? { return; }
      }
    }
  }

  /** `Parser::parse`. */
  method Parse(input: string) returns (error: Option<Error>, parsed: G.ParsedCaps)
    ensures match G.Parse(input)
            case Bad(kind, at) =>
              && error.Some? && error.value.kind == kind
              && |at| <= |input| && input[|input| - |at|..] == at
              && error.value.position == |Utf8.Encode(input[..|input| - |at|])|
            case Good(value, _) => error == None && parsed == value
  {
    hide G.ParseSections, Utf8.Encode;
    var parser := new Parser(input);
    assert input[0..] == input;
    var stop := parser.ParseSections(false);
    error := if stop.None? then None else Some(Error(stop.value.kind, |Utf8.Encode(input[..stop.value.cursor])|));
    parsed := parser.parsed;
  }

  /** The capability table that edits change in place. */
  class Table {
    var kind: G.MonitorType
    var vcp: G.Vcp

    constructor (caps: G.CapsTable)
      ensures Value() == caps
    { kind, vcp := caps.kind, caps.vcp; }

    ghost function Value(): G.CapsTable
      reads this
    { G.CapsTable(kind, vcp) }

    /** `Caps::apply`: the whole edit on success, no change on a parse error; the
        count is the number of items in the string. */
    method Apply(input: string, edit: G.Edit) returns (error: Option<Error>, count: nat)
      modifies this
      ensures error.None? <==> G.Apply(old(Value()), edit, input).Some?
      ensures Value() == if error.None? then G.Apply(old(Value()), edit, input).value else old(Value())
      ensures error.None? ==> count == |G.Parse(input).value.vcp|
    {
      hide G.Parse, G.EditItem;
      var parsed;
      error, parsed := Parse(input);
      if error.Some? { return error, 0; }
      if edit.Add? && parsed.kind.Some? { kind := parsed.kind.value; }
      for k := 0 to |parsed.vcp|
        invariant vcp == G.EditItems(old(vcp), edit, parsed.vcp[..k])
        invariant kind == if edit.Add? && parsed.kind.Some? then parsed.kind.value else old(kind)
      {
        assert parsed.vcp[..k + 1][..k] == parsed.vcp[..k];
        EditOne(parsed.vcp[k], edit);
      }
      assert parsed.vcp[..|parsed.vcp|] == parsed.vcp;
      return None, |parsed.vcp|;
    }

    method EditOne(item: G.Item, edit: G.Edit)
      modifies this`vcp
      ensures vcp == G.EditItem(old(vcp), edit, item)
    {
      if edit.Add? {
        vcp := vcp[item.code := item.values];
      } else if item.values.Some? {
        if item.code in vcp {
          var entry := vcp[item.code];
          if entry.Some? {
            var left := Retain(entry.value, item.values.value);
            vcp := if left == [] then vcp - {item.code} else vcp[item.code := Some(left)];
          } else {
            vcp := vcp - {item.code};
          }
        }
      } else {
        vcp := vcp - {item.code};
      }
    }

    static method Retain(values: seq<G.Word>, removed: seq<G.Word>) returns (left: seq<G.Word>)
      ensures left == G.Without(values, removed)
    {
      left := [];
      for k := 0 to |values|
        invariant left + G.Without(values[k..], removed) == G.Without(values, removed)
      {
        assert values[k..][1..] == values[k + 1..];
        if values[k] !in removed { left := left + [values[k]]; }
      }
    }
  }
}
