/** The scanner: indexes the shared vocabulary by its address hints and writes a
    profile that enables the unambiguous, readable controls. */
module Scanner {
  import opened Base
  import opened Numbers
  import opened Caps
  import opened Database
  import opened CapsPrinter
  import Schema
  import L = Loader

  /** A shared control with the hints only the scanner reads: an address, and a
      number for each of its values. */
  datatype Hinted = Hinted(control: OptionControl, rawAddress: Option<string>, rawValues: seq<Option<string>>)

  datatype Reading = Reading(current: Word, maximum: Word)

  datatype Scan = Scan(pnpId: string, name: string, caps: CapsTable, readings: map<Code, Reading>)

  type Index = map<Code, seq<Hinted>>

  // ----- The index -----

  function ValueHint(h: Hinted, i: nat): Option<Word> { if i < |h.rawValues| then L.ParseWord(h.rawValues[i])
                                                        else None }

  /** Labels and refresh settings do not make identical mappings ambiguous. */
  predicate SameMapping(a: Hinted, b: Hinted) {
    && a.control.id == b.control.id && a.control.name == b.control.name
        && a.control.controlType == b.control.controlType
    && |a.control.values| == |b.control.values|
    && forall i | 0 <= i < |a.control.values| ::
        a.control.values[i].id == b.control.values[i].id && ValueHint(a, i) == ValueHint(b, i)
  }

  predicate Represented(candidates: seq<Hinted>, h: Hinted) { exists i | 0 <= i < |candidates| ::
      SameMapping(candidates[i], h) }

  function At(index: Index, code: Code): seq<Hinted> { if code in index then index[code] else [] }

  function Enter(index: Index, code: Code, h: Hinted): Index {
    if Represented(At(index, code), h) then index[code := At(index, code)] else index[code := At(index, code) + [h]]
  }

  /** None when an address hint is invalid. */
  function IndexOptions(vocabulary: seq<Hinted>): Option<Index>
    decreases |vocabulary|
  {
    if vocabulary == [] then Some(map[])
    else
      var last := vocabulary[|vocabulary| - 1];
      match IndexOptions(vocabulary[..|vocabulary| - 1])
      case None => None
      case Some(index) =>
        if last.rawAddress.None? then Some(index)
        else
          match L.ParseAddress(last.rawAddress)
          case None => None
          case Some(code) => Some(Enter(index, code, last))
  }

  method BuildIndex(vocabulary: seq<Hinted>) returns (index: Option<Index>)
    ensures index == IndexOptions(vocabulary)
  {
    hide Enter, L.ParseAddress;
    var result: Index := map[];
    for k := 0 to |vocabulary|
      invariant IndexOptions(vocabulary[..k]) == Some(result)
    {
      var h := vocabulary[k];
      assert vocabulary[..k + 1][..k] == vocabulary[..k];
      if h.rawAddress.Some? {
        var code := L.ParseAddress(h.rawAddress);
        if code.None? {
          StaysInvalid(vocabulary, k + 1);
          return None;
        }
        result := Enter(result, code.value, h);
      }
    }
    assert vocabulary[..|vocabulary|] == vocabulary;
    index := Some(result);
  }

  lemma {:induction false} StaysInvalid(vocabulary: seq<Hinted>, k: nat)
    requires k <= |vocabulary| && IndexOptions(vocabulary[..k]).None?
    ensures IndexOptions(vocabulary).None?
    decreases |vocabulary|
  {
    hide Enter, L.ParseAddress;
    if k < |vocabulary| {
      assert vocabulary[..|vocabulary| - 1][..k] == vocabulary[..k];
      StaysInvalid(vocabulary[..|vocabulary| - 1], k);
    } else {
      assert vocabulary[..k] == vocabulary;
    }
  }

  predicate HintsAt(h: Hinted, code: Code) { h.rawAddress.Some? && L.ParseAddress(h.rawAddress) == Some(code) }

  /** The index holds controls of the vocabulary under their hinted address, and a
      representative of every one that has a hint. */
  lemma {:induction false} IndexExact(vocabulary: seq<Hinted>, code: Code)
    requires IndexOptions(vocabulary).Some?
    ensures forall h | h in At(IndexOptions(vocabulary).value, code) :: h in vocabulary && HintsAt(h, code)
    ensures forall h | h in vocabulary && HintsAt(h, code) :: Represented(At(IndexOptions(vocabulary).value, code), h)
    ensures code in IndexOptions(vocabulary).value ==> At(IndexOptions(vocabulary).value, code) != []
    decreases |vocabulary|
  {
    hide L.ParseAddress, SameMapping, Represented;
    if vocabulary != [] {
      var init, last := vocabulary[..|vocabulary| - 1], vocabulary[|vocabulary| - 1];
      assert vocabulary == init + [last];
      IndexExact(init, code);
      var before, after := IndexOptions(init).value, IndexOptions(vocabulary).value;
      if HintsAt(last, code) { EnterExact(before, code, last); }
      forall h | h in At(before, code)
        ensures Represented(At(before, code), h)
      { SelfRepresented(At(before, code), h); }
      if At(before, code) == [] { NoneRepresented(last); }
    }
  }

  lemma NoneRepresented(h: Hinted)
    ensures !Represented([], h)
  {
  }

  lemma SelfRepresented(candidates: seq<Hinted>, h: Hinted)
    requires h in candidates
    ensures Represented(candidates, h)
  {
    var i :| 0 <= i < |candidates| && candidates[i] == h;
    assert SameMapping(candidates[i], h);
  }

  lemma EnterExact(index: Index, code: Code, h: Hinted)
    ensures var after := At(Enter(index, code, h), code);
            && Represented(after, h)
            && (forall g | g in after :: g in At(index, code) || g == h)
            && (forall g | Represented(At(index, code), g) :: Represented(after, g))
  {
    hide SameMapping;
    var before, after := At(index, code), At(Enter(index, code, h), code);
    SelfRepresented([h], h);
    if !Represented(before, h) {
      assert after == before + [h];
      SelfRepresented(after, h);
    }
    forall g | Represented(before, g)
      ensures Represented(after, g)
    {
      var i :| 0 <= i < |before| && SameMapping(before[i], g);
      assert after[i] == before[i];
    }
  }

  // ----- The decision -----

  datatype Match = Match(id: string, number: Word)

  /** Vocabulary values whose number the monitor advertises. */
  function MatchingFrom(h: Hinted, advertised: Option<seq<Word>>, k: nat): seq<Match>
    requires k <= |h.control.values|
    decreases |h.control.values| - k
  {
    if k == |h.control.values| then []
    else
      var rest := MatchingFrom(h, advertised, k + 1);
      var number := ValueHint(h, k);
      if number.Some? && advertised.Some? && number.value in advertised.value
          then [Match(h.control.values[k].id, number.value)] + rest else rest
  }

  function MatchingValues(h: Hinted, advertised: Option<seq<Word>>): seq<Match> { MatchingFrom(h, advertised, 0) }

  /** More than one meaning for an ID or for a number. */
  predicate AmbiguousValues(values: seq<Match>) {
    (exists i, j | 0 <= i < j < |values| :: values[i].id == values[j].id) ||
    (exists i, j | 0 <= i < j < |values| :: values[i].number == values[j].number)
  }

  predicate OtherAddress(index: Index, code: Code, id: string) {
    exists other | other in index && other != code :: exists i | 0 <= i < |index[other]| ::
        index[other][i].control.id == id
  }

  /** No reason is found against the candidate. */
  predicate Enabled(scan: Scan, index: Index, code: Code, h: Hinted) {
    var values := MatchingValues(h, Advertised(scan.caps, code));
    && code in scan.readings && |At(index, code)| <= 1 && !OtherAddress(index, code, h.control.id)
    && code < 0xE0 && !h.control.controlType.CommandControl?
    && (h.control.controlType.ValueControl? ==>
          var r := scan.readings[code]; r.maximum != 0 && r.current <= r.maximum)
    && (h.control.controlType.ListControl? ==> values != [] && !AmbiguousValues(values))
  }

  // ----- The profile -----

  /** The scanned codes in ascending order: advertised or readable. */
  function CodesFrom(scan: Scan, from: nat): seq<Code>
    requires from <= 0x100
    decreases 0x100 - from
  {
    if from == 0x100 then []
    else if from in scan.caps.vcp || from in scan.readings then [from] + CodesFrom(scan, from + 1)
    else CodesFrom(scan, from + 1)
  }

  function Codes(scan: Scan): seq<Code> { CodesFrom(scan, 0) }

  datatype Choice = Choice(code: Code, hinted: Hinted)

  function ChoicesAmong(scan: Scan, index: Index, code: Code, candidates: seq<Hinted>): seq<Choice> {
    if candidates == [] then []
    else
      var rest := ChoicesAmong(scan, index, code, candidates[1..]);
      if Enabled(scan, index, code, candidates[0]) then [Choice(code, candidates[0])] + rest else rest
  }

  function Choices(scan: Scan, index: Index, codes: seq<Code>): seq<Choice> {
    if codes == [] then []
        else ChoicesAmong(scan, index, codes[0], At(index, codes[0])) + Choices(scan, index, codes[1..])
  }

  predicate IsXmlChar(c: char) {
    c == '\t' || c == '\n' || c == '\r' || ' ' <= c <= '\U{D7FF}' || '\U{E000}' <= c <= '\U{FFFD}' || '\U{10000}' <= c
  }

  predicate IsXml(s: string) { forall i | 0 <= i < |s| :: IsXmlChar(s[i]) }

  /** Characters that XML cannot hold are replaced. */
  function XmlText(s: string): (r: string)
    ensures IsXml(r) && (IsXml(s) ==> r == s)
  { seq(|s|, i requires 0 <= i < |s| => if IsXmlChar(s[i]) then s[i] else '\U{FFFD}') }

  function Hex(n: Word): string { "0x" + Hex02(n) }

  function ValueNodes(values: seq<Match>): seq<Node> {
    if values == [] then []
    else
      var attrs := map["id" := XmlText(values[0].id), "value" := Hex(values[0].number)];
      [Node("value", attrs, [], 0, false)] + ValueNodes(values[1..])
  }

  function ChoiceValues(scan: Scan, c: Choice): seq<Match> { MatchingValues(c.hinted, Advertised(scan.caps, c.code)) }

  function ControlNode(scan: Scan, c: Choice): Node {
    Node("control", map["id" := XmlText(c.hinted.control.id), "address" := Hex(c.code)],
         ValueNodes(ChoiceValues(scan, c)), 0, false)
  }

  function ControlNodes(scan: Scan, cs: seq<Choice>): (r: seq<Node>)
    ensures |r| == |cs| && forall i | 0 <= i < |cs| :: r[i] == ControlNode(scan, cs[i])
  { if cs == [] then [] else [ControlNode(scan, cs[0])] + ControlNodes(scan, cs[1..]) }

  function CapsNodes(scan: Scan): seq<Node> {
    if Codes(scan) == [] then []
        else [Node("caps", map["add" := XmlText(Printed(scan.caps, Codes(scan)))], [], 0, false)]
  }

  function ControlsNode(scan: Scan, index: Index): Node {
    Node("controls", map[], ControlNodes(scan, Choices(scan, index, Codes(scan))), 0, false)
  }

  /** The elements of the generated profile; its comments have no effect. */
  function Generated(scan: Scan, index: Index): Node {
    Node("monitor", map["name" := XmlText(if Schema.Blank(scan.name) then scan.pnpId else scan.name),
        "init" := "standard"],
         CapsNodes(scan) + [ControlsNode(scan, index)], 0, false)
  }

  /** `generate`, as it runs. */
  method Generate(scan: Scan, index: Index) returns (root: Node)
    ensures root == Generated(scan, index)
  {
    hide Enabled, ControlNode, Printed, Choices, ControlNodes, ChoicesAmong, CodesFrom, XmlText;
    var codes := Codes(scan);
    var children: seq<Node> := [];
    if codes != [] {
      var caps := NormalizedCaps(scan.caps, codes);
      children := [Node("caps", map["add" := XmlText(caps)], [], 0, false)];
    }
    var controls: seq<Node> := [];
    assert codes[0..] == codes;
    for k := 0 to |codes|
      invariant controls + ControlNodes(scan, Choices(scan, index, codes[k..])) ==
                ControlNodes(scan, Choices(scan, index, codes))
    {
      var more := GenerateAt(scan, index, codes[k]);
      ChoicesStep(scan, index, codes, k);
      controls := controls + more;
    }
    NoChoices(scan, index, codes);
    assert controls == ControlsNode(scan, index).children;
    assert children == CapsNodes(scan);
    root := Node("monitor",
                 map["name" := XmlText(if Schema.Blank(scan.name) then scan.pnpId else scan.name),
        "init" := "standard"],
                 children + [Node("controls", map[], controls, 0, false)], 0, false);
  }

  /** The candidates of one code. */
  method GenerateAt(scan: Scan, index: Index, code: Code) returns (controls: seq<Node>)
    ensures controls == ControlNodes(scan, ChoicesAmong(scan, index, code, At(index, code)))
  {
    hide Enabled, ControlNode, ControlNodes;
    var candidates := At(index, code);
    controls := [];
    assert candidates[0..] == candidates;
    for j := 0 to |candidates|
      invariant controls + ControlNodes(scan, ChoicesAmong(scan, index, code, candidates[j..])) ==
                ControlNodes(scan, ChoicesAmong(scan, index, code, candidates))
    {
      assert candidates[j..][1..] == candidates[j + 1..];
      ghost var rest := ChoicesAmong(scan, index, code, candidates[j + 1..]);
      if Enabled(scan, index, code, candidates[j]) {
        OneNode(scan, Choice(code, candidates[j]));
        NodesConcat(scan, [Choice(code, candidates[j])], rest);
        controls := controls + [ControlNode(scan, Choice(code, candidates[j]))];
      }
    }
    NoNodes(scan);
  }

  lemma OneNode(scan: Scan, c: Choice)
    ensures ControlNodes(scan, [c]) == [ControlNode(scan, c)]
  {
  }

  lemma NoNodes(scan: Scan)
    ensures ControlNodes(scan, []) == []
  {
  }

  lemma ChoicesStep(scan: Scan, index: Index, codes: seq<Code>, k: nat)
    requires k < |codes|
    ensures ControlNodes(scan, Choices(scan, index, codes[k..])) ==
            ControlNodes(scan, ChoicesAmong(scan, index, codes[k], At(index, codes[k]))) +
                ControlNodes(scan, Choices(scan, index, codes[k + 1..]))
  {
    hide ControlNode, ChoicesAmong, ControlNodes;
    assert codes[k..][1..] == codes[k + 1..];
    NodesConcat(scan, ChoicesAmong(scan, index, codes[k], At(index, codes[k])), Choices(scan, index, codes[k + 1..]));
  }

  lemma NoChoices(scan: Scan, index: Index, codes: seq<Code>)
    ensures ControlNodes(scan, Choices(scan, index, codes[|codes|..])) == []
  {
  }

  lemma {:induction false} NodesConcat(scan: Scan, a: seq<Choice>, b: seq<Choice>)
    ensures ControlNodes(scan, a + b) == ControlNodes(scan, a) + ControlNodes(scan, b)
  {
    hide ControlNode;
    if a == [] {
      assert a + b == b;
    } else {
      assert (a + b)[1..] == a[1..] + b;
      NodesConcat(scan, a[1..], b);
    }
  }

  // ----- What is chosen -----

  lemma {:induction false} CodesExact(scan: Scan, from: nat)
    requires from <= 0x100
    ensures forall c: Code :: c in CodesFrom(scan, from) <==> c >= from && (c in scan.caps.vcp || c in scan.readings)
    ensures forall i, j | 0 <= i < j < |CodesFrom(scan, from)| :: CodesFrom(scan, from)[i] < CodesFrom(scan, from)[j]
    decreases 0x100 - from
  {
    if from < 0x100 {
      CodesExact(scan, from + 1);
      var rest := CodesFrom(scan, from + 1);
      assert forall i | 0 <= i < |rest| :: rest[i] in rest;
    }
  }

  /** Choice c is the only candidate for its address, and enabled. */
  predicate Chosen(scan: Scan, index: Index, c: Choice) { At(index, c.code) == [c.hinted]
                                                          && Enabled(scan, index, c.code, c.hinted) }

  lemma {:induction false} AmongExact(scan: Scan, index: Index, code: Code)
    ensures var cs := ChoicesAmong(scan, index, code, At(index, code));
            && |cs| <= 1 && (forall c | c in cs :: c.code == code && Chosen(scan, index, c))
            && (|At(index, code)| == 1 && Enabled(scan, index, code, At(index, code)[0]) ==>
                cs == [Choice(code, At(index, code)[0])])
  {
    var hs := At(index, code);
    if |hs| > 1 {
      NoneAmong(scan, index, code, hs);
    } else if |hs| == 1 {
      assert hs[1..] == [];
    }
  }

  lemma {:induction false} NoneAmong(scan: Scan, index: Index, code: Code, hs: seq<Hinted>)
    requires |At(index, code)| > 1
    ensures ChoicesAmong(scan, index, code, hs) == []
  {
    if hs != [] { NoneAmong(scan, index, code, hs[1..]); }
  }

  predicate Ascending(codes: seq<Code>) { forall i, j | 0 <= i < j < |codes| :: codes[i] < codes[j] }

  /** The choices: exactly the enabled sole candidates of the codes, with distinct
      addresses and distinct IDs. */
  lemma {:induction false} ChoicesExact(scan: Scan, index: Index, codes: seq<Code>)
    requires Ascending(codes)
    ensures forall c | c in Choices(scan, index, codes) :: c.code in codes && Chosen(scan, index, c)
    ensures forall c: Choice | c.code in codes && Chosen(scan, index, c) :: c in Choices(scan, index, codes)
    ensures forall i, j | 0 <= i < j < |Choices(scan, index, codes)| ::
            Choices(scan, index, codes)[i].code < Choices(scan, index, codes)[j].code
  {
    hide Enabled, ChoicesAmong;
    if codes != [] {
      assert codes == [codes[0]] + codes[1..];
      AmongExact(scan, index, codes[0]);
      ChoicesExact(scan, index, codes[1..]);
      var a, b := ChoicesAmong(scan, index, codes[0], At(index, codes[0])), Choices(scan, index, codes[1..]);
      forall c | c in b
        ensures codes[0] < c.code
      { var i :| 0 <= i < |codes| - 1 && codes[1..][i] == c.code; }
    }
  }

  lemma ChosenIdsDiffer(scan: Scan, index: Index, c: Choice, d: Choice)
    requires Chosen(scan, index, c) && Chosen(scan, index, d) && c.code != d.code
    ensures c.hinted.control.id != d.hinted.control.id
  {
    hide OtherAddress;
    if c.hinted.control.id == d.hinted.control.id { SeenElsewhere(index, c.code, d); }
  }

  lemma SeenElsewhere(index: Index, code: Code, d: Choice)
    requires d.code != code && At(index, d.code) == [d.hinted]
    ensures OtherAddress(index, code, d.hinted.control.id)
  {
    assert index[d.code][0] == d.hinted;
  }
}
