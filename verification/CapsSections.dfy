/** Whole capability strings: what is accepted, and what it means. */
module CapsSections {
  import opened Base
  import opened Numbers
  import opened Caps
  import opened CapsGrammar

  /** The pieces of a string: a nested group, the two sections that matter, a
      section that is passed over, a name with no section, and a character that
      is passed over. */
  datatype Part =
    | Group(space: string, body: seq<Part>, end: string)
    | Type(space: string, gap: string, lead: string, word: string, tail: string)
    | Codes(space: string, gap: string, codes: seq<Elem>, end: string)
    | Other(space: string, name: string, gap: string, inner: string)
    | Bare(space: string, name: string)
    | Stray(space: string, c: char)

  function PartText(p: Part, after: string): string
    decreases p, 0
  {
    match p
    case Group(space, body, end) => space + ("(" + PartsText(body, Closing(end, after)))
    case Type(space, gap, lead, word, tail) =>
      space + ("type" + (gap + ("(" + (lead + (word + (tail + (")" + after)))))))
    case Codes(space, gap, codes, end) => space + ("vcp" + (gap + ("(" + ElemsText(codes, Closing(end, after)))))
    case Other(space, name, gap, inner) => space + (name + (gap + ("(" + (inner + (")" + after)))))
    case Bare(space, name) => space + (name + after)
    case Stray(space, c) => space + ([c] + after)
  }

  function PartsText(ps: seq<Part>, after: string): string
    decreases ps, 1
  { if ps == [] then after else PartText(ps[0], PartsText(ps[1..], after)) }

  predicate PartOk(p: Part, after: string)
    decreases p, 0
  {
    && Space(p.space)
    && match p
       case Group(_, body, end) => Space(end) && PartsOk(body, Closing(end, after))
       case Type(_, gap, lead, word, tail) => Space(gap) && Space(lead) && TypeBody(word, tail)
       case Codes(_, gap, codes, end) => Space(gap) && Space(end) && ElemsOk(codes, Closing(end, after))
       case Other(_, name, gap, inner) =>
         Run(name, NameChars) && name != "type" && name != "vcp" && Space(gap) && Balanced(inner)
       case Bare(_, name) => Run(name, NameChars) && EndsHere(after, NameChars) && !Opens(SkipSpaces(after))
       case Stray(_, c) => !IsName(c) && c != '(' && c != ')' && !IsSpace(c)
  }

  predicate PartsOk(ps: seq<Part>, after: string)
    decreases ps, 1
  { ps == [] || (PartOk(ps[0], PartsText(ps[1..], after)) && PartsOk(ps[1..], after)) }

  /** The word of a type section reaches to a space or the closing parenthesis; what
      follows it is passed over. */
  predicate TypeBody(word: string, tail: string) {
    && (forall i | 0 <= i < |word| :: InType(word[i]))
    && Balanced(tail) && EndsHere(tail, TypeChars) && (word == "" ==> tail == "")
  }

  /** The monitor types that are named, in order; other words name none. */
  function KindsOf(p: Part): seq<MonitorType>
    decreases p, 0
  {
    match p
    case Group(_, body, _) => Kinds(body)
    case Type(_, _, _, word, _) => if IsLcd(word) then [Lcd] else if IsCrt(word) then [Crt] else []
    case Codes(_, _, _, _) => []
    case Other(_, _, _, _) => []
    case Bare(_, _) => []
    case Stray(_, _) => []
  }

  function Kinds(ps: seq<Part>): seq<MonitorType>
    decreases ps, 1
  { if ps == [] then [] else KindsOf(ps[0]) + Kinds(ps[1..]) }

  predicate IsLcd(word: string) { |word| == 3 && word[0] in "lL" && word[1] in "cC" && word[2] in "dD" }

  predicate IsCrt(word: string) { |word| == 3 && word[0] in "cC" && word[1] in "rR" && word[2] in "tT" }

  function ItemsOf(p: Part, after: string): seq<Item>
    requires PartOk(p, after)
    decreases p, 0
  {
    match p
    case Group(_, body, end) => Items(body, Closing(end, after))
    case Type(_, _, _, _, _) => []
    case Codes(_, _, codes, end) => ElemsItems(codes, Closing(end, after))
    case Other(_, _, _, _) => []
    case Bare(_, _) => []
    case Stray(_, _) => []
  }

  function Items(ps: seq<Part>, after: string): seq<Item>
    requires PartsOk(ps, after)
    decreases ps, 1
  { if ps == [] then [] else ItemsOf(ps[0], PartsText(ps[1..], after)) + Items(ps[1..], after) }

  /** What parts add to what was parsed: the last type that is named, and all items. */
  function Meaning(parsed: ParsedCaps, kinds: seq<MonitorType>, items: seq<Item>): ParsedCaps {
    ParsedCaps(if kinds == [] then parsed.kind else Some(kinds[|kinds| - 1]), parsed.vcp + items)
  }

  lemma MeaningJoins(parsed: ParsedCaps, k: seq<MonitorType>, i: seq<Item>, k': seq<MonitorType>, i': seq<Item>)
    ensures Meaning(Meaning(parsed, k, i), k', i') == Meaning(parsed, k + k', i + i')
  {
    assert (parsed.vcp + i) + i' == parsed.vcp + (i + i');
  }

  lemma MeaningOfNothing(parsed: ParsedCaps)
    ensures Meaning(parsed, [], []) == parsed
  {
    assert parsed.vcp + [] == parsed.vcp;
  }

  lemma LowerMeans(c: char, upper: char, lower: char)
    requires 'A' <= upper <= 'Z' && lower as int == upper as int + 32
    ensures Lower(c) == lower <==> c == upper || c == lower
  {
  }

  /** The type's word is read without regard to case. */
  lemma KindMeans(word: string, otherwise: Option<MonitorType>)
    ensures KindOf(word, otherwise) == if IsLcd(word) then Some(Lcd) else if IsCrt(word) then Some(Crt) else otherwise
  {
    var lower := LowerCase(word);
    if |word| == 3 {
      assert lower == [Lower(word[0]), Lower(word[1]), Lower(word[2])];
      assert lower == "lcd" <==> lower[0] == 'l' && lower[1] == 'c' && lower[2] == 'd';
      assert lower == "crt" <==> lower[0] == 'c' && lower[1] == 'r' && lower[2] == 't';
    }
  }

  // ----- Steps -----

  lemma SectionsSkip(space: string, t: string, nested: bool, parsed: ParsedCaps)
    requires Space(space) && (t != "" ==> !IsSpace(t[0]))
    ensures ParseSections(space + t, nested, parsed) == ParseSections(t, nested, parsed)
  {
    hide SectionToken;
    SkipSpace(space, t);
    SkipSpace("", t);
    assert "" + t == t;
  }

  lemma SectionsSkipped(s: string, nested: bool, parsed: ParsedCaps)
    ensures ParseSections(SkipSpaces(s), nested, parsed) == ParseSections(s, nested, parsed)
  {
    hide SectionToken;
    SkipTwice(s);
  }

  lemma SectionsStep(space: string, t: string, nested: bool, parsed: ParsedCaps)
    requires Space(space) && t != "" && !IsSpace(t[0]) && t[0] != ')'
    ensures ParseSections(space + t, nested, parsed) ==
            var r := SectionToken(t, parsed);
            if r.Bad? then Bad(r.kind, r.at) else ParseSections(r.rest, nested, r.value)
  {
    hide SectionToken;
    SectionsSkip(space, t, nested, parsed);
    SkipSpace("", t);
    assert "" + t == t;
  }

  lemma NameEnds(name: string, gap: string, body: string)
    requires Run(name, NameChars) && Space(gap)
    ensures var t := name + (gap + ("(" + body));
            && t != "" && !IsSpace(t[0]) && t[0] != ')' && t[0] != '(' && IsName(t[0])
            && Span(t, NameChars) == |name| && t[..|name|] == name && SkipSpaces(t[|name|..]) == "(" + body
  {
    hide SkipSpaces, Span, Space;
    var u := "(" + body;
    var t := name + (gap + u);
    GapEnds(gap, u);
    TakeRun(name, gap + u, NameChars);
    SkipSpace(gap, u);
    assert t[0] == name[0] && In(name[0], NameChars);
    NameStarts(name[0]);
  }

  lemma NamedPart(name: string, gap: string, body: string, parsed: ParsedCaps)
    requires Run(name, NameChars) && Space(gap)
    ensures SectionToken(name + (gap + ("(" + body)), parsed) == ParseSection(name, body, parsed)
  {
    hide SkipSpaces, Span, Space, ParseSection;
    NameEnds(name, gap, body);
    assert ("(" + body)[1..] == body;
  }

  lemma TypeRead(lead: string, word: string, tail: string, after: string, parsed: ParsedCaps)
    requires Space(lead) && TypeBody(word, tail)
    ensures ParseType(lead + (word + (tail + (")" + after))), parsed) ==
            Good(parsed.(kind := KindOf(word, parsed.kind)), after)
  {
    hide SkipSpaces, Span, Space, KindOf, SkipFromCurrent, SkipBalanced, Balanced;
    var u := tail + (")" + after);
    var t := word + u;
    assert EndsHere(u, TypeChars) by { if tail != "" { assert u[0] == tail[0]; } else { assert u == ")" + after; } }
    if word == "" {
      assert t == u == ")" + after;
      SpanNone(t, TypeChars);
    } else {
      assert InType(word[0]) && t[0] == word[0];
      TakeRun(word, u, TypeChars);
    }
    assert t[..|word|] == word && t[|word|..] == u;
    SkipSpace(lead, t);
    SkipMeans(u, after);
    FromCurrentSkips(u);
  }

  lemma SpanNone(t: string, chars: CharClass)
    requires EndsHere(t, chars)
    ensures Span(t, chars) == 0
  {
  }

  lemma TypeIsRun()
    ensures Run("type", NameChars) && Run("vcp", NameChars)
  {
  }

  lemma TypeStep(p: Part, next: string, nested: bool, parsed: ParsedCaps)
    requires p.Type? && PartOk(p, next)
    ensures ParseSections(PartText(p, next), nested, parsed) ==
            ParseSections(next, nested, parsed.(kind := KindOf(p.word, parsed.kind)))
  {
    hide ParseSections, SectionToken, TypeBody, Space, KindOf, ParseType;
    var body := p.lead + (p.word + (p.tail + (")" + next)));
    TypeIsRun();
    NameEnds("type", p.gap, body);
    SectionsStep(p.space, "type" + (p.gap + ("(" + body)), nested, parsed);
    NamedPart("type", p.gap, body, parsed);
    TypeRead(p.lead, p.word, p.tail, next, parsed);
  }

  lemma CodesStep(p: Part, next: string, nested: bool, parsed: ParsedCaps)
    requires p.Codes? && PartOk(p, next)
    ensures ParseSections(PartText(p, next), nested, parsed) ==
            ParseSections(next, nested, AddItems(parsed, ItemsOf(p, next)))
  {
    hide ParseSections, SectionToken, Space, ParseVcp, ElemsOk, ElemsText;
    var body := ElemsText(p.codes, Closing(p.end, next));
    TypeIsRun();
    NameEnds("vcp", p.gap, body);
    SectionsStep(p.space, "vcp" + (p.gap + ("(" + body)), nested, parsed);
    NamedPart("vcp", p.gap, body, parsed);
    ElemsRead(p.codes, p.end, next, parsed);
  }

  lemma OtherStep(p: Part, next: string, nested: bool, parsed: ParsedCaps)
    requires p.Other? && PartOk(p, next)
    ensures ParseSections(PartText(p, next), nested, parsed) == ParseSections(next, nested, parsed)
  {
    hide ParseSections, SectionToken, Space, Balanced, SkipBalanced, Run;
    var body := p.inner + (")" + next);
    NameEnds(p.name, p.gap, body);
    SectionsStep(p.space, p.name + (p.gap + ("(" + body)), nested, parsed);
    NamedPart(p.name, p.gap, body, parsed);
    SkipMeans(body, next);
  }

  lemma BareStep(p: Part, next: string, nested: bool, parsed: ParsedCaps)
    requires p.Bare? && PartOk(p, next)
    ensures ParseSections(PartText(p, next), nested, parsed) == ParseSections(next, nested, parsed)
  {
    hide ParseSections, Space, SkipSpaces, Span;
    var t := p.name + next;
    assert t[0] == p.name[0] && In(t[0], NameChars);
    NameStarts(t[0]);
    TakeRun(p.name, next, NameChars);
    SectionsStep(p.space, t, nested, parsed);
    SectionsSkipped(next, nested, parsed);
  }

  lemma StrayStep(p: Part, next: string, nested: bool, parsed: ParsedCaps)
    requires p.Stray? && PartOk(p, next)
    ensures ParseSections(PartText(p, next), nested, parsed) == ParseSections(next, nested, parsed)
  {
    hide ParseSections, Space;
    var t := [p.c] + next;
    assert t[1..] == next;
    SectionsStep(p.space, t, nested, parsed);
  }

  lemma GroupStep(p: Part, next: string, nested: bool, parsed: ParsedCaps)
    requires p.Group? && PartOk(p, next)
    ensures ParseSections(PartText(p, next), nested, parsed) ==
            var r := ParseSections(PartsText(p.body, Closing(p.end, next)), true, parsed);
            if r.Bad? then r else ParseSections(r.rest, nested, r.value)
  {
    hide ParseSections, Space, PartsText, PartsOk;
    var u := PartsText(p.body, Closing(p.end, next));
    var t := "(" + u;
    assert t[1..] == u;
    SectionsStep(p.space, t, nested, parsed);
  }

  lemma PartStep(p: Part, next: string, nested: bool, parsed: ParsedCaps)
    requires !p.Group? && PartOk(p, next)
    ensures ParseSections(PartText(p, next), nested, parsed) ==
            ParseSections(next, nested, Meaning(parsed, KindsOf(p), ItemsOf(p, next)))
  {
    hide ParseSections, PartOk, PartText;
    assert parsed.vcp + [] == parsed.vcp;
    match p
    case Type(_, _, _, word, _) =>
      TypeStep(p, next, nested, parsed);
      KindMeans(word, parsed.kind);
      assert Meaning(parsed, KindsOf(p), []) == parsed.(kind := KindOf(word, parsed.kind));
    case Codes(_, _, _, _) => CodesStep(p, next, nested, parsed);
    case Other(_, _, _, _) => OtherStep(p, next, nested, parsed);
    case Bare(_, _) => BareStep(p, next, nested, parsed);
    case Stray(_, _) => StrayStep(p, next, nested, parsed);
  }

  function Ending(nested: bool, end: string, rest: string): string { if nested then Closing(end, rest) else end }

  lemma SectionsEnd(end: string, nested: bool, rest: string, parsed: ParsedCaps)
    requires Space(end) && (nested || rest == "")
    ensures ParseSections(Ending(nested, end, rest), nested, parsed) == Good(parsed, rest)
  {
    if nested {
      SectionsSkip(end, ")" + rest, nested, parsed);
      assert (")" + rest)[1..] == rest;
    } else {
      assert end + "" == end;
      SectionsSkip(end, "", nested, parsed);
    }
  }

  lemma {:induction false} PartsRead(ps: seq<Part>, end: string, nested: bool, rest: string, parsed: ParsedCaps)
    requires Space(end) && (nested || rest == "") && PartsOk(ps, Ending(nested, end, rest))
    ensures ParseSections(PartsText(ps, Ending(nested, end, rest)), nested, parsed) ==
            Good(Meaning(parsed, Kinds(ps), Items(ps, Ending(nested, end, rest))), rest)
    decreases ps
  {
    hide ParseSections, Space, PartOk, PartText, Meaning, Balanced, TypeBody;
    var after := Ending(nested, end, rest);
    if ps == [] {
      SectionsEnd(end, nested, rest, parsed);
      MeaningOfNothing(parsed);
    } else {
      var p, next := ps[0], PartsText(ps[1..], after);
      var mid := Meaning(parsed, KindsOf(p), ItemsOf(p, next));
      if p.Group? {
        GroupOk(p, next);
        GroupStep(p, next, nested, parsed);
        PartsRead(p.body, p.end, true, next, parsed);
      } else {
        PartStep(p, next, nested, parsed);
      }
      PartsRead(ps[1..], end, nested, rest, mid);
      MeaningJoins(parsed, KindsOf(p), ItemsOf(p, next), Kinds(ps[1..]), Items(ps[1..], after));
    }
  }

  lemma GroupOk(p: Part, next: string)
    requires p.Group? && PartOk(p, next)
    ensures Space(p.end) && PartsOk(p.body, Closing(p.end, next))
    ensures Kinds(p.body) == KindsOf(p) && Items(p.body, Closing(p.end, next)) == ItemsOf(p, next)
  {
  }

  // ----- Everything accepted has this form -----

  lemma ReadName(t: string) returns (name: string, next: string)
    requires t != "" && IsName(t[0])
    ensures Run(name, NameChars) && EndsHere(next, NameChars) && t == name + next && |next| < |t|
    ensures name == t[..Span(t, NameChars)] && next == t[Span(t, NameChars)..]
  {
    RunTaken(t, NameChars);
    var n := Span(t, NameChars);
    name, next := t[..n], t[n..];
  }

  lemma BalancedStarts(s: string)
    requires Balanced(s) && s != ""
    ensures s[0] != ')'
  {
    assert s[..1] == [s[0]] + "" && Depth(s[..1]) >= 0;
    DepthCons(s[0], "");
    EmptyDepth();
  }

  lemma ReadType(s: string, parsed: ParsedCaps) returns (lead: string, word: string, tail: string)
    requires ParseType(s, parsed).Good?
    ensures Space(lead) && TypeBody(word, tail)
    ensures s == lead + (word + (tail + (")" + ParseType(s, parsed).rest)))
    ensures ParseType(s, parsed).value == parsed.(kind := KindOf(word, parsed.kind))
  {
    hide SkipSpaces, Span, Space, KindOf, SkipFromCurrent, SkipBalanced, Balanced;
    var t := SkipSpaces(s);
    lead := SpaceSkipped(s);
    var n := Span(t, TypeChars);
    RunTaken(t, TypeChars);
    word := t[..n];
    var u := t[n..];
    FromCurrentSkips(u);
    tail := PassedBy(u);
    var rest := SkipFromCurrent(u).rest;
    assert u == tail + (")" + rest);
    if tail != "" {
      assert u[0] == tail[0];
      BalancedStarts(tail);
    }
  }

  lemma ReadSection(name: string, body: string, gap: string, space: string, parsed: ParsedCaps) returns (p: Part)
    requires Run(name, NameChars) && Space(gap) && Space(space) && ParseSection(name, body, parsed).Good?
    ensures var r := ParseSection(name, body, parsed);
            && !p.Group? && PartOk(p, r.rest) && space + (name + (gap + ("(" + body))) == PartText(p, r.rest)
            && r.value == Meaning(parsed, KindsOf(p), ItemsOf(p, r.rest))
  {
    hide ParseType, ParseVcp, SkipBalanced, Balanced, Space, Run, TypeBody, ElemsText, ElemsOk, KindOf;
    assert parsed.vcp + [] == parsed.vcp;
    if name == "type" {
      var lead, word, tail := ReadType(body, parsed);
      KindMeans(word, parsed.kind);
      p := Type(space, gap, lead, word, tail);
    } else if name == "vcp" {
      var codes, end := ReadElems(body, parsed);
      p := Codes(space, gap, codes, end);
    } else {
      var inner := PassedBy(body);
      p := Other(space, name, gap, inner);
    }
  }

  lemma ReadPart(t: string, nested: bool, space: string, parsed: ParsedCaps) returns (p: Part, next: string)
    requires t != "" && t[0] != '(' && t[0] != ')' && !IsSpace(t[0]) && Space(space) && SectionToken(t, parsed).Good?
    ensures !p.Group? && PartOk(p, next) && space + t == PartText(p, next) && |next| < |t|
    ensures var r := SectionToken(t, parsed);
            && r.value == Meaning(parsed, KindsOf(p), ItemsOf(p, next))
            && ParseSections(r.rest, nested, r.value) == ParseSections(next, nested, r.value)
  {
    hide ParseSections, ParseSection, SkipSpaces, Space, Balanced, TypeBody, ElemsText, ElemsOk;
    assert parsed.vcp + [] == parsed.vcp;
    if IsName(t[0]) {
      var name, after := ReadName(t);
      var u := SkipSpaces(after);
      if Opens(u) {
        var gap := SpaceSkipped(after);
        assert u == "(" + u[1..];
        p := ReadSection(name, u[1..], gap, space, parsed);
        next := SectionToken(t, parsed).rest;
      } else {
        p, next := Bare(space, name), after;
        SectionsSkipped(next, nested, parsed);
      }
    } else {
      p, next := Stray(space, t[0]), t[1..];
    }
  }

  lemma PartsCons(p: Part, ps: seq<Part>, after: string, parsed: ParsedCaps)
    requires PartOk(p, PartsText(ps, after)) && PartsOk(ps, after)
    ensures PartsOk([p] + ps, after) && PartsText([p] + ps, after) == PartText(p, PartsText(ps, after))
    ensures Meaning(Meaning(parsed, KindsOf(p), ItemsOf(p, PartsText(ps, after))), Kinds(ps), Items(ps, after)) ==
            Meaning(parsed, Kinds([p] + ps), Items([p] + ps, after))
  {
    hide PartOk, PartText, ItemsOf, KindsOf, Meaning;
    assert ([p] + ps)[1..] == ps;
    MeaningJoins(parsed, KindsOf(p), ItemsOf(p, PartsText(ps, after)), Kinds(ps), Items(ps, after));
  }

  lemma GroupWhole(space: string, body: seq<Part>, end: string, next: string)
    requires Space(space) && Space(end) && PartsOk(body, Closing(end, next))
    ensures var p := Group(space, body, end);
            && PartOk(p, next) && PartText(p, next) == space + ("(" + PartsText(body, Closing(end, next)))
            && KindsOf(p) == Kinds(body) && ItemsOf(p, next) == Items(body, Closing(end, next))
  {
  }

  lemma {:induction false} ReadParts(s: string, nested: bool, parsed: ParsedCaps)
    returns (ps: seq<Part>, end: string)
    requires ParseSections(s, nested, parsed).Good?
    ensures var r := ParseSections(s, nested, parsed);
            && Space(end) && PartsOk(ps, Ending(nested, end, r.rest)) && s == PartsText(ps, Ending(nested, end, r.rest))
            && r.value == Meaning(parsed, Kinds(ps), Items(ps, Ending(nested, end, r.rest)))
            && (!nested ==> r.rest == "")
    decreases |s|
  {
    hide PartOk, PartText, KindsOf, ItemsOf, Meaning, SkipSpaces, Space;
    var r := ParseSections(s, nested, parsed);
    var t := SkipSpaces(s);
    var space := SpaceSkipped(s);
    if t == "" || t[0] == ')' {
      ps, end := [], space;
      assert t != "" ==> t == ")" + r.rest;
      MeaningOfNothing(parsed);
    } else {
      var token := SectionToken(t, parsed);
      var p: Part, next: string;
      if t[0] == '(' {
        var body, close := ReadParts(t[1..], true, parsed);
        assert t == "(" + t[1..];
        p, next := Group(space, body, close), token.rest;
        GroupWhole(space, body, close, next);
      } else {
        p, next := ReadPart(t, nested, space, parsed);
      }
      ps, end := ReadParts(next, nested, token.value);
      PartsCons(p, ps, Ending(nested, end, r.rest), parsed);
      ps := [p] + ps;
    }
  }

  // ----- The language -----

  /** A whole string, written from its parts. */
  ghost predicate Reads(input: string, ps: seq<Part>, end: string) {
    Space(end) && PartsOk(ps, end) && input == PartsText(ps, end)
  }

  /** A string is accepted exactly when it can be written from parts; however that is
      done, what it means is the last type that the parts name and their codes, in
      order. */
  lemma LanguageExact(input: string)
    ensures Parse(input).Good? <==> exists ps, end :: Reads(input, ps, end)
    ensures forall ps, end | Reads(input, ps, end) ::
              Parse(input) == Good(Meaning(NOTHING, Kinds(ps), Items(ps, end)), "")
  {
    hide ParseSections, PartsOk, PartsText, Space;
    if Parse(input).Good? {
      var ps, end := ReadParts(input, false, NOTHING);
      assert Reads(input, ps, end);
    }
    forall ps, end | Reads(input, ps, end)
      ensures Parse(input) == Good(Meaning(NOTHING, Kinds(ps), Items(ps, end)), "")
    {
      PartsRead(ps, end, false, "", NOTHING);
    }
  }
}
