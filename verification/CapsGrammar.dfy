/** The language of capability strings: every string of the grammar is read as it
    means, and nothing else is accepted. Each piece of text is followed by what comes
    after it. */
module CapsGrammar {
  import opened Base
  import opened Numbers
  import opened Caps
  import opened Letters
  import IntegerNotation
  import CapsPrinter

  // ----- Balanced text -----

  /** Opening less closing parentheses. */
  function Depth(s: string): int
    decreases |s|
  {
    if s == "" then 0
    else Depth(s[..|s| - 1]) + if s[|s| - 1] == '(' then 1 else if s[|s| - 1] == ')' then -1 else 0
  }

  /** Nothing is closed that was not opened, and everything opened is closed. */
  predicate Balanced(s: string) { Depth(s) == 0 && forall k | 0 <= k <= |s| :: Depth(s[..k]) >= 0 }

  lemma {:induction false} DepthCons(c: char, s: string)
    ensures Depth([c] + s) == (if c == '(' then 1 else if c == ')' then -1 else 0) + Depth(s)
    decreases |s|
  {
    var t := [c] + s;
    if s == "" {
      assert t[..0] == "";
    } else {
      assert t[..|t| - 1] == [c] + s[..|s| - 1];
      DepthCons(c, s[..|s| - 1]);
    }
  }

  /** From depth d, a text that comes back to zero for the first time at its end. */
  predicate ClosesFrom(d: nat, inner: string) {
    d + Depth(inner) == 1 && forall k | 0 <= k <= |inner| :: d + Depth(inner[..k]) >= 1
  }

  lemma ClosesCons(d: nat, c: char, inner: string)
    requires d >= 1
    ensures var step := if c == '(' then 1 else if c == ')' then -1 else 0;
            d + step >= 1 ==> (ClosesFrom(d, [c] + inner) <==> ClosesFrom(d + step, inner))
    ensures c == ')' && d == 1 ==> !ClosesFrom(d, [c] + inner)
  {
    hide Depth;
    var t := [c] + inner;
    DepthCons(c, inner);
    forall k | 0 < k <= |t|
      ensures Depth(t[..k]) == (if c == '(' then 1 else if c == ')' then -1 else 0) + Depth(inner[..k - 1])
    {
      assert t[..k] == [c] + inner[..k - 1];
      DepthCons(c, inner[..k - 1]);
    }
    assert t[..0] == "" && inner[..0] == "";
    EmptyDepth();
    assert Depth(t[..1]) == (if c == '(' then 1 else if c == ')' then -1 else 0);
    assert forall k | 0 <= k <= |inner| ::
           Depth(t[..k + 1]) == (if c == '(' then 1 else if c == ')' then -1 else 0) + Depth(inner[..k]);
  }

  lemma EmptyDepth()
    ensures Depth("") == 0
  {
  }

  lemma {:induction false} SkipCloses(inner: string, rest: string, d: nat)
    requires d >= 1 && ClosesFrom(d, inner)
    ensures SkipBalanced(inner + (")" + rest), d) == Good((), rest)
    decreases |inner|
  {
    hide ClosesFrom, Depth;
    var s := inner + (")" + rest);
    if inner == "" {
      EmptyCloses(d);
      assert s == ")" + rest && s[1..] == rest;
    } else {
      var c, tail := inner[0], inner[1..];
      assert inner == [c] + tail;
      ClosesCons(d, c, tail);
      assert s[0] == c && s[1..] == tail + (")" + rest);
      SkipCloses(tail, rest, if c == '(' then d + 1 else if c == ')' then d - 1 else d);
    }
  }

  lemma EmptyCloses(d: nat)
    ensures ClosesFrom(d, "") <==> d == 1
  {
    assert ""[..0] == "";
  }

  lemma {:induction false} SkippedCloses(s: string, d: nat) returns (inner: string)
    requires d >= 1 && SkipBalanced(s, d).Good?
    ensures s == inner + (")" + SkipBalanced(s, d).rest) && ClosesFrom(d, inner)
    decreases |s|
  {
    hide ClosesFrom, Depth;
    var c := s[0];
    if c == ')' && d == 1 {
      inner := "";
      EmptyCloses(d);
    } else {
      var tail := SkippedCloses(s[1..], if c == '(' then d + 1 else if c == ')' then d - 1 else d);
      inner := [c] + tail;
      ClosesCons(d, c, tail);
    }
  }

  lemma BalancedCloses(inner: string)
    ensures Balanced(inner) <==> ClosesFrom(1, inner)
  {
  }

  /** A section that is passed over: balanced text up to its parenthesis. */
  lemma SkipMeans(s: string, rest: string)
    ensures SkipBalanced(s, 1) == Good((), rest) <==> exists inner :: Balanced(inner) && s == inner + (")" + rest)
  {
    hide Balanced, ClosesFrom;
    if SkipBalanced(s, 1) == Good((), rest) {
      var inner := SkippedCloses(s, 1);
      BalancedCloses(inner);
    }
    forall inner | Balanced(inner) && s == inner + (")" + rest)
      ensures SkipBalanced(s, 1) == Good((), rest)
    {
      BalancedCloses(inner);
      SkipCloses(inner, rest, 1);
    }
  }

  /** The two ways of passing over text agree. */
  lemma {:induction false} SameSkip(s: string, d: nat)
    requires d >= 1
    ensures SkipBalanced(s, d + 1) ==
            var r := SkipBalanced(s, d);
            if r.Bad? then r else SkipBalanced(r.rest, 1)
    decreases |s|
  {
    if s != "" {
      if s[0] == '(' {
        SameSkip(s[1..], d + 1);
      } else if s[0] != ')' {
        SameSkip(s[1..], d);
      } else if d > 1 {
        SameSkip(s[1..], d - 1);
      }
    }
  }

  lemma {:induction false} FromCurrentSkips(s: string)
    ensures SkipFromCurrent(s) == SkipBalanced(s, 1)
    decreases |s|
  {
    if s != "" {
      if s[0] == '(' {
        SameSkip(s[1..], 1);
        var r := SkipBalanced(s[1..], 1);
        if r.Good? { FromCurrentSkips(r.rest); }
      } else if s[0] != ')' {
        FromCurrentSkips(s[1..]);
      }
    }
  }

  // ----- Names, words -----

  /** What names and words are made of. */
  lemma CharsMean(c: char)
    ensures In(c, NameChars) <==> Letter(c) || Digit(c) || c == '_'
    ensures In(c, TokenChars) <==> c !in "() \t\n\U{0C}\r"
    ensures In(c, TypeChars) <==> c !in ") \t\n\U{0C}\r"
    ensures IsHex(c) <==> c in IntegerNotation.LOWER || c in IntegerNotation.UPPER
  {
    hide Letter, Digit;
    LettersMean(c);
    DigitsMean(c);
    IntegerNotation.DigitMeans(c, 0);
  }

  predicate Run(s: string, chars: CharClass) { s != "" && forall i | 0 <= i < |s| :: In(s[i], chars) }

  predicate EndsHere(rest: string, chars: CharClass) { rest != "" ==> !In(rest[0], chars) }

  lemma TakeRun(s: string, rest: string, chars: CharClass)
    requires Run(s, chars) && EndsHere(rest, chars)
    ensures Span(s + rest, chars) == |s| && (s + rest)[..|s|] == s && (s + rest)[|s|..] == rest
  {
    CapsPrinter.SpanExact(s, rest, chars);
  }

  lemma {:induction false} RunTaken(t: string, chars: CharClass)
    ensures var n := Span(t, chars);
            (forall i | 0 <= i < n :: In(t[i], chars)) && EndsHere(t[n..], chars) && t == t[..n] + t[n..]
  {
    if t != "" && In(t[0], chars) {
      RunTaken(t[1..], chars);
      var n := Span(t, chars);
      assert t[n..] == t[1..][n - 1..];
      forall i | 0 <= i < n ensures In(t[i], chars) { if i > 0 { assert t[i] == t[1..][i - 1]; } }
    }
  }

  /** One to four hexadecimal digits. */
  predicate HexToken(token: string) { 1 <= |token| <= 4 && AllDigits(token, 16) }

  lemma HexWordMeans(token: string)
    ensures HexWord(token).Some? <==> HexToken(token)
    ensures HexToken(token) ==> ValueOf(token, 16) < 0x1_0000 && HexWord(token) == Some(ValueOf(token, 16))
  {
    if HexToken(token) { HexBound(token, |token|); }
  }

  lemma HexChars(token: string)
    requires HexToken(token)
    ensures Run(token, TokenChars) && !IsSpace(token[0]) && token[0] != '(' && token[0] != ')'
  {
    forall i | 0 <= i < |token| ensures InToken(token[i]) { assert DigitOf(token[i]) < 16; }
  }

  // ----- Value lists -----

  /** A value, or a nested list that is passed over; each after optional space. */
  datatype ValueElem = Word(space: string, token: string) | Aside(space: string, inner: string)

  function ValuesText(vs: seq<ValueElem>, after: string): string {
    if vs == [] then after
    else
      match vs[0]
      case Word(space, token) => space + (token + ValuesText(vs[1..], after))
      case Aside(space, inner) => space + ("(" + (inner + (")" + ValuesText(vs[1..], after))))
  }

  /** A value is followed by space or a parenthesis. */
  predicate ValuesOk(vs: seq<ValueElem>, after: string) {
    vs == [] ||
    (&& Space(vs[0].space)
     && (vs[0].Word? ==> HexToken(vs[0].token) && EndsHere(ValuesText(vs[1..], after), TokenChars))
     && (vs[0].Aside? ==> Balanced(vs[0].inner))
     && ValuesOk(vs[1..], after))
  }

  function ValuesOf(vs: seq<ValueElem>, after: string): seq<Caps.Word>
    requires ValuesOk(vs, after)
  {
    if vs == [] then []
    else if vs[0].Word? then
      HexWordMeans(vs[0].token);
      [ValueOf(vs[0].token, 16)] + ValuesOf(vs[1..], after)
    else ValuesOf(vs[1..], after)
  }

  function Closing(end: string, rest: string): string { end + (")" + rest) }

  lemma WordStep(space: string, token: string, tail: string, values: seq<Caps.Word>)
    requires Space(space) && HexToken(token) && EndsHere(tail, TokenChars)
    ensures HexWord(token).Some?
    ensures ParseValues(space + (token + tail), values) == ParseValues(tail, values + [HexWord(token).value])
  {
    hide HexToken, HexWord, SkipSpaces, Span, SkipBalanced;
    HexChars(token);
    HexWordMeans(token);
    SkipSpace(space, token + tail);
    TakeRun(token, tail, TokenChars);
  }

  lemma AsideStep(space: string, inner: string, tail: string, values: seq<Caps.Word>)
    requires Space(space) && Balanced(inner)
    ensures ParseValues(space + ("(" + (inner + (")" + tail))), values) == ParseValues(tail, values)
  {
    hide Balanced, SkipSpaces, Span, HexWord, SkipBalanced;
    var t := "(" + (inner + (")" + tail));
    SkipSpace(space, t);
    assert t[1..] == inner + (")" + tail);
    SkipMeans(t[1..], tail);
  }

  lemma {:induction false} ValuesRead(vs: seq<ValueElem>, end: string, rest: string, values: seq<Caps.Word>)
    requires Space(end) && ValuesOk(vs, Closing(end, rest))
    ensures ParseValues(ValuesText(vs, Closing(end, rest)), values) ==
            Good(values + ValuesOf(vs, Closing(end, rest)), rest)
    decreases |vs|
  {
    hide Balanced, HexToken, HexWord, ValueOf, ParseValues, Space;
    var after := Closing(end, rest);
    if vs == [] {
      ValuesEnd(end, rest, values);
    } else if vs[0].Word? {
      var token := vs[0].token;
      HexWordMeans(token);
      WordStep(vs[0].space, token, ValuesText(vs[1..], after), values);
      ValuesRead(vs[1..], end, rest, values + [ValueOf(token, 16)]);
      assert values + [ValueOf(token, 16)] + ValuesOf(vs[1..], after) == values + ValuesOf(vs, after);
    } else {
      AsideStep(vs[0].space, vs[0].inner, ValuesText(vs[1..], after), values);
      ValuesRead(vs[1..], end, rest, values);
    }
  }

  lemma ValuesEnd(end: string, rest: string, values: seq<Caps.Word>)
    requires Space(end)
    ensures ParseValues(Closing(end, rest), values) == Good(values + [], rest)
  {
    SkipSpace(end, ")" + rest);
    assert (")" + rest)[1..] == rest && values + [] == values;
  }

  lemma {:induction false} ReadValues(s: string, values: seq<Caps.Word>) returns (vs: seq<ValueElem>, end: string)
    requires ParseValues(s, values).Good?
    ensures var r := ParseValues(s, values);
            && Space(end) && ValuesOk(vs, Closing(end, r.rest)) && s == ValuesText(vs, Closing(end, r.rest))
            && r.value == values + ValuesOf(vs, Closing(end, r.rest))
    decreases |s|
  {
    hide Balanced, HexToken, ValueOf, AllDigits, SkipBalanced, SkipSpaces;
    var r := ParseValues(s, values);
    var t := SkipSpaces(s);
    var space := SpaceSkipped(s);
    if t[0] == ')' {
      vs, end := [], space;
      assert t == ")" + r.rest;
    } else if t[0] == '(' {
      var tail := SkipBalanced(t[1..], 1).rest;
      assert SkipBalanced(t[1..], 1).value == ();
      SkipMeans(t[1..], tail);
      var inner :| Balanced(inner) && t[1..] == inner + (")" + tail);
      vs, end := ReadValues(tail, values);
      var e := Aside(space, inner);
      assert ([e] + vs)[1..] == vs;
      assert t == "(" + t[1..];
      vs := [e] + vs;
    } else {
      var n := Span(t, TokenChars);
      RunTaken(t, TokenChars);
      var token := t[..n];
      HexWordMeans(token);
      vs, end := ReadValues(t[n..], values + [ValueOf(token, 16)]);
      var e := Word(space, token);
      assert ([e] + vs)[1..] == vs;
      assert values + [ValueOf(token, 16)] + ValuesOf(vs, Closing(end, r.rest)) ==
             values + ([ValueOf(token, 16)] + ValuesOf(vs, Closing(end, r.rest)));
      vs := [e] + vs;
    }
  }

  // ----- Codes -----

  datatype ValueList = ValueList(gap: string, values: seq<ValueElem>, end: string)

  /** A code with an optional list, a nested vcp section, or another named section
      that is passed over. */
  datatype Elem =
    | Code(space: string, high: char, low: char, list: Option<ValueList>)
    | Nested(space: string, name: string, gap: string, body: seq<Elem>, end: string)
    | Passed(space: string, name: string, gap: string, inner: string)

  function ListText(list: Option<ValueList>, after: string): string {
    if list.None? then after
    else list.value.gap + ("(" + ValuesText(list.value.values, Closing(list.value.end, after)))
  }

  function ElemText(e: Elem, after: string): string
    decreases e, 0
  {
    match e
    case Code(space, high, low, list) => space + ([high, low] + ListText(list, after))
    case Nested(space, name, gap, body, end) => space + (name + (gap + ("(" + ElemsText(body, Closing(end, after)))))
    case Passed(space, name, gap, inner) => space + (name + (gap + ("(" + (inner + (")" + after)))))
  }

  function ElemsText(es: seq<Elem>, after: string): string
    decreases es, 1
  { if es == [] then after else ElemText(es[0], ElemsText(es[1..], after)) }

  /** A name that cannot be taken for a code. */
  predicate SectionName(name: string) { Run(name, NameChars) && !IsHex(name[0]) }

  predicate ElemOk(e: Elem, after: string)
    decreases e, 0
  {
    && Space(e.space)
    && match e
       case Code(_, high, low, list) =>
         && IsHex(high) && IsHex(low)
         && (list.Some? ==> Space(list.value.gap) && Space(list.value.end)
                            && ValuesOk(list.value.values, Closing(list.value.end, after)))
         && (list.None? ==> !Opens(SkipSpaces(after)))
       case Nested(_, name, gap, body, end) =>
         SectionName(name) && LowerCase(name) == "vcp" && Space(gap) && Space(end) && ElemsOk(body, Closing(end, after))
       case Passed(_, name, gap, inner) =>
         SectionName(name) && LowerCase(name) != "vcp" && Space(gap) && Balanced(inner)
  }

  predicate ElemsOk(es: seq<Elem>, after: string)
    decreases es, 1
  { es == [] || (ElemOk(es[0], ElemsText(es[1..], after)) && ElemsOk(es[1..], after)) }

  function ItemOf(high: char, low: char, list: Option<ValueList>, after: string): Item
    requires IsHex(high) && IsHex(low) && (list.Some? ==> ValuesOk(list.value.values, Closing(list.value.end, after)))
  {
    var values := if list.None? then [] else ValuesOf(list.value.values, Closing(list.value.end, after));
    Item(DigitOf(high) * 16 + DigitOf(low), if values == [] then None else Some(values))
  }

  function ElemItems(e: Elem, after: string): seq<Item>
    requires ElemOk(e, after)
    decreases e, 0
  {
    match e
    case Code(_, high, low, list) => [ItemOf(high, low, list, after)]
    case Nested(_, _, _, body, end) => ElemsItems(body, Closing(end, after))
    case Passed(_, _, _, _) => []
  }

  /** The items of a section, in order; nested sections add theirs in place. */
  function ElemsItems(es: seq<Elem>, after: string): seq<Item>
    requires ElemsOk(es, after)
    decreases es, 1
  { if es == [] then [] else ElemItems(es[0], ElemsText(es[1..], after)) + ElemsItems(es[1..], after) }

  lemma ItemRead(high: char, low: char, list: Option<ValueList>, after: string)
    requires ElemOk(Code("", high, low, list), after)
    ensures var r := ParseItem([high, low] + ListText(list, after));
            && r.Good? && r.value == ItemOf(high, low, list, after)
            && r.rest == if list.None? then SkipSpaces(after) else after
  {
    hide ParseValues, ValuesOk, ValuesText, DigitOf, SkipSpaces, ValuesOf;
    var t := [high, low] + ListText(list, after);
    assert t[2..] == ListText(list, after);
    assert t[0] == high && t[1] == low;
    if list.Some? {
      var u := "(" + ValuesText(list.value.values, Closing(list.value.end, after));
      SkipSpace(list.value.gap, u);
      assert u[1..] == ValuesText(list.value.values, Closing(list.value.end, after));
      ValuesRead(list.value.values, list.value.end, after, []);
      assert [] + ValuesOf(list.value.values, Closing(list.value.end, after)) ==
             ValuesOf(list.value.values, Closing(list.value.end, after));
    }
  }

  lemma ReadItem(t: string) returns (high: char, low: char, list: Option<ValueList>, after: string)
    requires ParseItem(t).Good?
    ensures ElemOk(Code("", high, low, list), after) && t == [high, low] + ListText(list, after)
    ensures ParseItem(t).value == ItemOf(high, low, list, after)
    ensures ParseItem(t).rest == (if list.None? then SkipSpaces(after) else after) && |after| < |t|
  {
    hide ParseValues, ValuesOk, ValuesText, DigitOf, SkipSpaces, ValuesOf;
    high, low := t[0], t[1];
    var u := SkipSpaces(t[2..]);
    var gap := SpaceSkipped(t[2..]);
    assert t == [high, low] + t[2..];
    if Opens(u) {
      var vs, end := ReadValues(u[1..], []);
      var r := ParseValues(u[1..], []);
      after := r.rest;
      list := Some(ValueList(gap, vs, end));
      assert u == "(" + u[1..];
      assert [] + ValuesOf(vs, Closing(end, after)) == ValuesOf(vs, Closing(end, after));
    } else {
      list, after := None, t[2..];
    }
  }

  // ----- A vcp section -----

  lemma VcpSkips(space: string, t: string, parsed: ParsedCaps)
    requires Space(space) && (t != "" ==> !IsSpace(t[0]))
    ensures ParseVcp(space + t, parsed) == ParseVcp(t, parsed)
  {
    hide VcpToken;
    SkipSpace(space, t);
    SkipSpace("", t);
    assert "" + t == t;
  }

  lemma VcpSkipped(s: string, parsed: ParsedCaps)
    ensures ParseVcp(SkipSpaces(s), parsed) == ParseVcp(s, parsed)
  {
    hide VcpToken;
    SkipTwice(s);
  }

  lemma VcpStep(t: string, parsed: ParsedCaps)
    requires t != "" && !IsSpace(t[0]) && t[0] != ')' && t[0] != '('
    ensures ParseVcp(t, parsed) ==
            var r := VcpToken(t, parsed);
            if r.Bad? then Bad(r.kind, r.at) else ParseVcp(r.rest, r.value)
  {
    hide VcpToken;
    SkipSpace("", t);
    assert "" + t == t;
  }

  lemma NamedStep(name: string, gap: string, body: string, parsed: ParsedCaps)
    requires SectionName(name) && Space(gap)
    ensures var t := name + (gap + ("(" + body));
            VcpToken(t, parsed) ==
            if LowerCase(name) == "vcp" then ParseVcp(body, parsed)
            else
              var r := SkipBalanced(body, 1);
              if r.Bad? then Bad(r.kind, r.at) else Good(parsed, r.rest)
  {
    hide ParseVcp, SkipBalanced, LowerCase;
    var u := "(" + body;
    var t := name + (gap + u);
    GapEnds(gap, u);
    TakeRun(name, gap + u, NameChars);
    SkipSpace(gap, u);
    assert t[0] == name[0] && u[1..] == body;
  }

  lemma GapEnds(gap: string, u: string)
    requires Space(gap) && Opens(u)
    ensures EndsHere(gap + u, NameChars)
  {
    if gap != "" { assert (gap + u)[0] == gap[0]; } else { assert gap + u == u; }
  }

  function AddItems(parsed: ParsedCaps, items: seq<Item>): ParsedCaps { parsed.(vcp := parsed.vcp + items) }

  lemma CodeStep(space: string, high: char, low: char, list: Option<ValueList>, after: string, parsed: ParsedCaps)
    requires ElemOk(Code(space, high, low, list), after)
    ensures ParseVcp(space + ([high, low] + ListText(list, after)), parsed) ==
            ParseVcp(after, AddItems(parsed, [ItemOf(high, low, list, after)]))
  {
    hide ParseVcp, ParseItem, Space, ListText, ItemOf, ValuesOk;
    var t := [high, low] + ListText(list, after);
    HexStarts(high);
    assert t[0] == high;
    VcpSkips(space, t, parsed);
    VcpStep(t, parsed);
    assert ElemOk(Code("", high, low, list), after) by { EmptySpace(); }
    ItemRead(high, low, list, after);
    VcpSkipped(after, AddItems(parsed, [ItemOf(high, low, list, after)]));
  }

  lemma HexStarts(c: char)
    requires IsHex(c)
    ensures !IsSpace(c) && c != '(' && c != ')' && !(IsName(c) && !IsHex(c))
  {
  }

  lemma NameStarts(c: char)
    requires IsName(c)
    ensures !IsSpace(c) && c != '(' && c != ')'
  {
  }

  lemma EmptySpace()
    ensures Space("")
  {
  }

  lemma SectionStep(space: string, name: string, gap: string, body: string, parsed: ParsedCaps)
    requires Space(space) && SectionName(name) && Space(gap)
    ensures ParseVcp(space + (name + (gap + ("(" + body))), parsed) ==
            var r := VcpToken(name + (gap + ("(" + body)), parsed);
            if r.Bad? then Bad(r.kind, r.at) else ParseVcp(r.rest, r.value)
  {
    hide ParseVcp, VcpToken, Space;
    var t := name + (gap + ("(" + body));
    assert t[0] == name[0] && In(name[0], NameChars);
    NameStarts(name[0]);
    VcpSkips(space, t, parsed);
    VcpStep(t, parsed);
  }

  lemma PassedStep(space: string, name: string, gap: string, inner: string, after: string, parsed: ParsedCaps)
    requires Space(space) && SectionName(name) && Space(gap) && Balanced(inner) && LowerCase(name) != "vcp"
    ensures ParseVcp(space + (name + (gap + ("(" + (inner + (")" + after))))), parsed) == ParseVcp(after, parsed)
  {
    hide ParseVcp, VcpToken, Space, SectionName, Balanced, LowerCase, SkipBalanced;
    SectionStep(space, name, gap, inner + (")" + after), parsed);
    NamedStep(name, gap, inner + (")" + after), parsed);
    SkipMeans(inner + (")" + after), after);
  }

  lemma NestedStep(space: string, name: string, gap: string, body: string, parsed: ParsedCaps)
    requires Space(space) && SectionName(name) && Space(gap) && LowerCase(name) == "vcp"
    ensures ParseVcp(space + (name + (gap + ("(" + body))), parsed) ==
            var r := ParseVcp(body, parsed);
            if r.Bad? then r else ParseVcp(r.rest, r.value)
  {
    hide ParseVcp, VcpToken, Space, SectionName, LowerCase;
    SectionStep(space, name, gap, body, parsed);
    NamedStep(name, gap, body, parsed);
  }

  /** A vcp section is read as its items. */
  lemma {:induction false} ElemsRead(es: seq<Elem>, end: string, rest: string, parsed: ParsedCaps)
    requires Space(end) && ElemsOk(es, Closing(end, rest))
    ensures ParseVcp(ElemsText(es, Closing(end, rest)), parsed) ==
            Good(AddItems(parsed, ElemsItems(es, Closing(end, rest))), rest)
    decreases es
  {
    hide ParseVcp, Space, SectionName, Balanced, LowerCase, ListText, ItemOf, ValuesOk;
    var after := Closing(end, rest);
    if es == [] {
      VcpSkips(end, ")" + rest, parsed);
      VcpEnds(rest, parsed);
      assert parsed.vcp + [] == parsed.vcp;
    } else {
      var e, next := es[0], ElemsText(es[1..], after);
      var mid := AddItems(parsed, ElemItems(e, next));
      ElemsRead(es[1..], end, rest, mid);
      assert (parsed.vcp + ElemItems(e, next)) + ElemsItems(es[1..], after) == parsed.vcp + ElemsItems(es, after);
      match e
      case Code(space, high, low, list) =>
        CodeStep(space, high, low, list, next, parsed);
      case Nested(space, name, gap, body, close) =>
        NestedStep(space, name, gap, ElemsText(body, Closing(close, next)), parsed);
        ElemsRead(body, close, next, parsed);
      case Passed(space, name, gap, inner) =>
        PassedStep(space, name, gap, inner, next, parsed);
        assert parsed.vcp + [] == parsed.vcp;
    }
  }

  lemma VcpEnds(rest: string, parsed: ParsedCaps)
    ensures ParseVcp(")" + rest, parsed) == Good(parsed, rest)
  {
    assert (")" + rest)[1..] == rest;
  }

  lemma ReadHead(t: string, parsed: ParsedCaps) returns (name: string, gap: string, body: string)
    requires t != "" && IsName(t[0]) && !IsHex(t[0]) && VcpToken(t, parsed).Good?
    ensures SectionName(name) && Space(gap) && t == name + (gap + ("(" + body)) && |body| < |t|
  {
    hide ParseVcp, LowerCase, SkipBalanced, SkipSpaces, Space;
    var n := Span(t, NameChars);
    RunTaken(t, NameChars);
    var u := SkipSpaces(t[n..]);
    gap := SpaceSkipped(t[n..]);
    name, body := t[..n], u[1..];
    assert u == "(" + body;
  }

  lemma PassedBy(body: string) returns (inner: string)
    requires SkipBalanced(body, 1).Good?
    ensures Balanced(inner) && body == inner + (")" + SkipBalanced(body, 1).rest)
  {
    hide Balanced, SkipBalanced;
    var rest := SkipBalanced(body, 1).rest;
    assert SkipBalanced(body, 1).value == ();
    SkipMeans(body, rest);
    inner :| Balanced(inner) && body == inner + (")" + rest);
  }

  lemma ReadNamed(t: string, parsed: ParsedCaps, space: string) returns (e: Elem, body: string)
    requires t != "" && IsName(t[0]) && !IsHex(t[0]) && VcpToken(t, parsed).Good? && Space(space)
    ensures |body| < |t| && e.space == space
    ensures var r := VcpToken(t, parsed);
            && (e.Passed? ==> r.value == parsed && ElemOk(e, r.rest) && space + t == ElemText(e, r.rest))
            && (!e.Passed? ==>
                  && e.Nested? && SectionName(e.name) && LowerCase(e.name) == "vcp" && Space(e.gap)
                  && space + t == space + (e.name + (e.gap + ("(" + body)))
                  && r == ParseVcp(body, parsed))
  {
    hide ParseVcp, LowerCase, SkipBalanced, Space, SectionName, VcpToken, Balanced;
    var name, gap, rest := ReadHead(t, parsed);
    NamedStep(name, gap, rest, parsed);
    body := rest;
    if LowerCase(name) == "vcp" {
      e := Nested(space, name, gap, [], "");
    } else {
      var inner := PassedBy(body);
      e := Passed(space, name, gap, inner);
    }
  }

  lemma ReadCode(t: string, parsed: ParsedCaps, space: string) returns (e: Elem, next: string)
    requires t != "" && !(IsName(t[0]) && !IsHex(t[0])) && VcpToken(t, parsed).Good? && Space(space)
    ensures |next| < |t| && e.Code? && ElemOk(e, next) && space + t == ElemText(e, next)
    ensures var r := VcpToken(t, parsed);
            r.value == AddItems(parsed, ElemItems(e, next)) && ParseVcp(r.rest, r.value) == ParseVcp(next, r.value)
  {
    hide ParseItem, ParseVcp, ListText, ItemOf, ValuesOk, Space, SkipSpaces;
    var high, low, list, after := ReadItem(t);
    VcpSkipped(after, VcpToken(t, parsed).value);
    e, next := Code(space, high, low, list), after;
  }

  lemma ElemsCons(e: Elem, es: seq<Elem>, after: string, parsed: ParsedCaps)
    requires ElemOk(e, ElemsText(es, after)) && ElemsOk(es, after)
    ensures ElemsOk([e] + es, after) && ElemsText([e] + es, after) == ElemText(e, ElemsText(es, after))
    ensures AddItems(AddItems(parsed, ElemItems(e, ElemsText(es, after))), ElemsItems(es, after)) ==
            AddItems(parsed, ElemsItems([e] + es, after))
  {
    hide ElemOk, ElemText, ElemItems;
    assert ([e] + es)[1..] == es;
    assert (parsed.vcp + ElemItems(e, ElemsText(es, after))) + ElemsItems(es, after) ==
           parsed.vcp + (ElemItems(e, ElemsText(es, after)) + ElemsItems(es, after));
  }

  /** A vcp section that is read has that form. */
  lemma {:induction false} ReadElems(s: string, parsed: ParsedCaps) returns (es: seq<Elem>, end: string)
    requires ParseVcp(s, parsed).Good?
    ensures var r := ParseVcp(s, parsed);
            && Space(end) && ElemsOk(es, Closing(end, r.rest)) && s == ElemsText(es, Closing(end, r.rest))
            && r.value == AddItems(parsed, ElemsItems(es, Closing(end, r.rest)))
    decreases |s|
  {
    hide LowerCase, ItemOf, ValuesOk, SkipSpaces, Space, ElemItems, ElemOk, ElemText, VcpToken;
    var r := ParseVcp(s, parsed);
    var t := SkipSpaces(s);
    var space := SpaceSkipped(s);
    if t[0] == ')' {
      es, end := [], space;
      assert t == ")" + r.rest;
      assert parsed.vcp + [] == parsed.vcp;
    } else {
      var token := VcpToken(t, parsed);
      var e: Elem, next: string;
      if IsName(t[0]) && !IsHex(t[0]) {
        var body: string;
        e, body := ReadNamed(t, parsed, space);
        next := token.rest;
        if e.Nested? {
          var inner, close := ReadElems(body, parsed);
          e := NestedWhole(e, inner, close, next);
        } else {
          PassedAdds(e, next, parsed);
        }
      } else {
        e, next := ReadCode(t, parsed, space);
      }
      es, end := ReadElems(next, token.value);
      ElemsCons(e, es, Closing(end, r.rest), parsed);
      es := [e] + es;
    }
  }

  lemma PassedAdds(e: Elem, next: string, parsed: ParsedCaps)
    requires e.Passed? && ElemOk(e, next)
    ensures AddItems(parsed, ElemItems(e, next)) == parsed
  {
    assert parsed.vcp + [] == parsed.vcp;
  }

  lemma NestedWhole(e: Elem, body: seq<Elem>, close: string, next: string) returns (whole: Elem)
    requires e.Nested? && SectionName(e.name) && LowerCase(e.name) == "vcp" && Space(e.gap) && Space(e.space)
    requires Space(close) && ElemsOk(body, Closing(close, next))
    ensures ElemOk(whole, next) && ElemItems(whole, next) == ElemsItems(body, Closing(close, next))
    ensures ElemText(whole, next) == e.space + (e.name + (e.gap + ("(" + ElemsText(body, Closing(close, next)))))
  {
    whole := Nested(e.space, e.name, e.gap, body, close);
  }
}
