/** What the scanner writes loads strictly against the vocabulary it was made from,
    and gives a tree of exactly the enabled controls. */
module ScannerLoads {
  import opened Base
  import opened Numbers
  import opened Caps
  import opened Database
  import opened Loader
  import opened Scanner
  import opened Placement
  import CapsPrinter
  import Schema
  import PublishedTree
  import Requirements
  import S = Session

  // ----- What is asked of the vocabulary -----

  predicate UniqueIds(controls: seq<OptionControl>) { forall i, j | 0 <= i < j < |controls| ::
                                                      controls[i].id != controls[j].id }

  predicate NamedValues(oc: OptionControl) {
    && (forall i | 0 <= i < |oc.values| :: oc.values[i].name.Some?)
    && forall i, j | 0 <= i < j < |oc.values| :: oc.values[i].id != oc.values[j].id
  }

  /** IDs hold only what an XML file can. */
  predicate FromXml(oc: OptionControl) { IsXml(oc.id) && forall i | 0 <= i < |oc.values| :: IsXml(oc.values[i].id) }

  /** The vocabulary is that of the options, as read from a file, with control IDs
      unique and each control available with named values of unique IDs. */
  ghost predicate Vocabulary(options: Options, vocabulary: seq<Hinted>) {
    var controls := Controls(Subgroups(options));
    && |vocabulary| == |controls| && (forall i | 0 <= i < |controls| :: vocabulary[i].control == controls[i])
    && UniqueIds(controls)
    && forall i | 0 <= i < |controls| :: !controls[i].unavailable && NamedValues(controls[i]) && FromXml(controls[i])
  }

  // ----- Values -----

  function MonitorValuesOf(ms: seq<Match>): (r: seq<MonitorValue>)
    ensures |r| == |ms|
    ensures forall i | 0 <= i < |ms| :: r[i] == MonitorValue("value", Some(ms[i].id), Some(Hex(ms[i].number)))
  { if ms == [] then []
    else [MonitorValue("value", Some(ms[0].id), Some(Hex(ms[0].number)))] + MonitorValuesOf(ms[1..]) }

  lemma {:induction false} ValuesReadBack(ms: seq<Match>)
    requires forall i | 0 <= i < |ms| :: IsXml(ms[i].id)
    ensures MonitorValues(ValueNodes(ms)) == MonitorValuesOf(ms)
  {
    hide Hex, IsXml;
    if ms != [] {
      ValuesReadBack(ms[1..]);
      assert ValueNodes(ms)[1..] == ValueNodes(ms[1..]);
    }
  }

  lemma WordReadsBack(n: Word)
    ensures ParseWord(Some(Hex(n))) == Some(n)
  {
    HexAttributeReadsBack(n);
  }

  /** Where the k-th value and later ones match. */
  lemma {:induction false} MatchedLater(h: Hinted, advertised: Option<seq<Word>>, k: nat, m: Match)
    requires k <= |h.control.values| && m in MatchingFrom(h, advertised, k)
    ensures exists i | k <= i < |h.control.values| :: h.control.values[i].id == m.id
    decreases |h.control.values| - k
  {
    hide ValueHint;
    var rest := MatchingFrom(h, advertised, k + 1);
    if m in rest { MatchedLater(h, advertised, k + 1, m); } else { assert h.control.values[k].id == m.id; }
  }

  lemma {:induction false} MatchedDistinct(h: Hinted, advertised: Option<seq<Word>>, k: nat)
    requires k <= |h.control.values| && NamedValues(h.control)
    ensures forall i, j | 0 <= i < j < |MatchingFrom(h, advertised, k)| ::
              MatchingFrom(h, advertised, k)[i].id != MatchingFrom(h, advertised, k)[j].id
    decreases |h.control.values| - k
  {
    hide ValueHint;
    if k < |h.control.values| {
      MatchedDistinct(h, advertised, k + 1);
      var rest := MatchingFrom(h, advertised, k + 1);
      forall i | 0 <= i < |rest|
        ensures rest[i].id != h.control.values[k].id
      { MatchedLater(h, advertised, k + 1, rest[i]); }
    }
  }

  predicate DistinctMatches(ms: seq<Match>) { forall i, j | 0 <= i < j < |ms| :: ms[i].id != ms[j].id }

  lemma {:induction false} FindMatch(ms: seq<Match>, id: string)
    requires DistinctMatches(ms)
    ensures FindValue(MonitorValuesOf(ms), id).Some? <==> exists i | 0 <= i < |ms| :: ms[i].id == id
    ensures forall i | 0 <= i < |ms| && ms[i].id == id ::
              FindValue(MonitorValuesOf(ms), id) == Some(MonitorValue("value", Some(id), Some(Hex(ms[i].number))))
  {
    hide Hex;
    if ms != [] {
      assert MonitorValuesOf(ms)[1..] == MonitorValuesOf(ms[1..]);
      FindMatch(ms[1..], id);
      assert forall i | 0 < i < |ms| :: ms[i] == ms[1..][i - 1];
    }
  }

  /** The values a control shows: the matches with their names. */
  function Shown(h: Hinted, advertised: Option<seq<Word>>, k: nat): seq<Value>
    requires k <= |h.control.values|
    decreases |h.control.values| - k
  {
    if k == |h.control.values| then []
    else
      var rest := Shown(h, advertised, k + 1);
      var number := ValueHint(h, k);
      if number.Some? && advertised.Some? && number.value in advertised.value && h.control.values[k].name.Some?
      then [Value(h.control.values[k].id, h.control.values[k].name.value, number.value)] + rest
      else rest
  }

  lemma {:induction false} CollectShown(h: Hinted, advertised: Option<seq<Word>>, k: nat)
    requires k <= |h.control.values| && NamedValues(h.control)
    ensures CollectValues(h.control, h.control.values[k..], MonitorValuesOf(MatchingValues(h, advertised))) ==
            Some(Shown(h, advertised, k))
    decreases |h.control.values| - k
  {
    hide ParseWord, FindValue, ValueHint, MatchingValues, MonitorValuesOf;
    var vs := h.control.values;
    if k < |vs| {
      CollectShown(h, advertised, k + 1);
      assert vs[k..][0] == vs[k] && vs[k..][1..] == vs[k + 1..];
      FoundAt(h, advertised, k);
    } else {
      assert vs[k..] == [];
    }
  }

  /** What the loader finds of value k in a generated control. */
  lemma FoundAt(h: Hinted, advertised: Option<seq<Word>>, k: nat)
    requires k < |h.control.values| && NamedValues(h.control)
    ensures var found := FindValue(MonitorValuesOf(MatchingValues(h, advertised)), h.control.values[k].id);
            var number := ValueHint(h, k);
            if number.Some? && advertised.Some? && number.value in advertised.value
            then found.Some? && ParseWord(found.value.rawValue) == number
            else found == None
  {
    hide ParseWord, FindValue, Hex, ValueHint, MatchingFrom;
    var ms, number, id := MatchingValues(h, advertised), ValueHint(h, k), h.control.values[k].id;
    MatchedDistinct(h, advertised, 0);
    FindMatch(ms, id);
    MatchAt(h, advertised, 0, k);
    if number.Some? && advertised.Some? && number.value in advertised.value {
      WordReadsBack(number.value);
      var i :| 0 <= i < |ms| && ms[i] == Match(id, number.value);
    } else {
      assert forall i | 0 <= i < |ms| :: ms[i] in ms;
    }
  }

  /** Value j is among the matches exactly when the monitor advertises its number. */
  lemma {:induction false} MatchAt(h: Hinted, advertised: Option<seq<Word>>, k: nat, j: nat)
    requires k <= j < |h.control.values| && NamedValues(h.control)
    ensures var ms, n := MatchingFrom(h, advertised, k), ValueHint(h, j);
            if n.Some? && advertised.Some? && n.value in advertised.value
            then Match(h.control.values[j].id, n.value) in ms
            else forall m | m in ms :: m.id != h.control.values[j].id
    decreases |h.control.values| - k
  {
    hide ValueHint;
    var ms, rest := MatchingFrom(h, advertised, k), MatchingFrom(h, advertised, k + 1);
    if k < j {
      MatchAt(h, advertised, k + 1, j);
    } else {
      forall m | m in rest
        ensures m.id != h.control.values[j].id
      { MatchedLater(h, advertised, k + 1, m); }
    }
    assert ms == rest || (ms != [] && ms[0].id == h.control.values[k].id && ms == [ms[0]] + rest);
  }

  lemma MatchesKnown(h: Hinted, advertised: Option<seq<Word>>)
    requires NamedValues(h.control)
    ensures AllValuesMatched(h.control.values, MonitorValuesOf(MatchingValues(h, advertised)))
  {
    hide ValueHint, Hex, MatchingFrom;
    var ms := MatchingValues(h, advertised);
    MatchedDistinct(h, advertised, 0);
    forall i: nat | i < |ms|
      ensures KnownValue(h.control.values, ms[i].id)
    { MatchedLater(h, advertised, 0, ms[i]); }
  }

  /** The values of a generated control are accepted strictly. */
  lemma GeneratedValues(h: Hinted, advertised: Option<seq<Word>>)
    requires NamedValues(h.control) && !h.control.controlType.CommandControl?
    ensures ControlValues(h.control, MonitorValuesOf(MatchingValues(h, advertised)), false) ==
            Some(Shown(h, advertised, 0))
  {
    hide CollectValues, AllValuesMatched, Shown, MatchingValues;
    assert h.control.values[0..] == h.control.values;
    CollectShown(h, advertised, 0);
    MatchesKnown(h, advertised);
  }

  // ----- Controls -----

  function MonitorControlFor(scan: Scan, c: Choice): MonitorControl {
    MonitorControl(c.hinted.control.id, Some(Hex(c.code)), None, MonitorValuesOf(ChoiceValues(scan, c)), false)
  }

  lemma {:induction false} ValueNodesPlain(ms: seq<Match>)
    ensures !AnyRequired(ValueNodes(ms))
  {
    hide Hex, XmlText;
    if ms != [] {
      ValueNodesPlain(ms[1..]);
      assert ValueNodes(ms)[1..] == ValueNodes(ms[1..]);
    }
  }

  lemma NodePlain(scan: Scan, c: Choice)
    ensures !HasRequired(ControlNode(scan, c))
  {
    hide Hex, MatchingValues, XmlText;
    ValueNodesPlain(ChoiceValues(scan, c));
  }

  lemma NodeReadsBack(scan: Scan, c: Choice)
    requires FromXml(c.hinted.control)
    ensures !HasRequired(ControlNode(scan, c)) && MonitorControlOf(ControlNode(scan, c)) ==
            Some(MonitorControlFor(scan, c))
  {
    hide Hex, MatchingFrom, IsXml;
    var ms, advertised := ChoiceValues(scan, c), CapsPrinter.Advertised(scan.caps, c.code);
    forall i | 0 <= i < |ms|
      ensures IsXml(ms[i].id)
    { MatchedLater(c.hinted, advertised, 0, ms[i]); }
    ValuesReadBack(ms);
    NodePlain(scan, c);
  }

  function MonitorControlsFor(scan: Scan, cs: seq<Choice>): (r: seq<MonitorControl>)
    ensures |r| == |cs| && forall i | 0 <= i < |cs| :: r[i] == MonitorControlFor(scan, cs[i])
  { if cs == [] then [] else [MonitorControlFor(scan, cs[0])] + MonitorControlsFor(scan, cs[1..]) }

  lemma {:induction false} NodesReadBack(scan: Scan, cs: seq<Choice>)
    requires forall i | 0 <= i < |cs| :: FromXml(cs[i].hinted.control)
    ensures MonitorControls(ControlNodes(scan, cs)) == MonitorControlsFor(scan, cs)
  {
    hide ControlNode, MonitorControlOf, FromXml;
    if cs != [] {
      NodeReadsBack(scan, cs[0]);
      NodesReadBack(scan, cs[1..]);
      assert ControlNodes(scan, cs)[1..] == ControlNodes(scan, cs[1..]);
    }
  }

  predicate DistinctChoices(cs: seq<Choice>) {
    forall i, j | 0 <= i < j < |cs| :: cs[i].code != cs[j].code && cs[i].hinted.control.id != cs[j].hinted.control.id
  }

  /** The choice for an ID, if any. */
  function ChoiceFor(cs: seq<Choice>, id: string): Option<Choice> {
    if cs == [] then None else if cs[0].hinted.control.id == id then Some(cs[0]) else ChoiceFor(cs[1..], id)
  }

  lemma {:induction false} FindChoice(scan: Scan, cs: seq<Choice>, id: string)
    ensures ChoiceFor(cs, id).None? ==> Find(MonitorControlsFor(scan, cs), id) == None
    ensures ChoiceFor(cs, id).Some? ==>
              && Find(MonitorControlsFor(scan, cs), id) == Some(MonitorControlFor(scan, ChoiceFor(cs, id).value))
              && ChoiceFor(cs, id).value in cs && ChoiceFor(cs, id).value.hinted.control.id == id
  {
    hide ChoiceValues, Hex;
    if cs != [] {
      FindChoice(scan, cs[1..], id);
      assert MonitorControlsFor(scan, cs)[1..] == MonitorControlsFor(scan, cs[1..]);
    }
  }

  lemma SameChoice(cs: seq<Choice>, c: Choice, d: Choice)
    requires DistinctChoices(cs) && c in cs && d in cs && c.code == d.code
    ensures c == d
  {
    var i :| 0 <= i < |cs| && cs[i] == c;
    var j :| 0 <= j < |cs| && cs[j] == d;
  }

  // ----- Placement -----

  /** What the tree must show for an enabled shared control. */
  predicate Shows(scan: Scan, cs: seq<Choice>, oc: OptionControl, c: Control) {
    var choice := ChoiceFor(cs, oc.id);
    && choice.Some?
    && c == Control(oc.id, oc.name, choice.value.code, -1, oc.controlType, oc.refresh,
                    Shown(choice.value.hinted, CapsPrinter.Advertised(scan.caps, choice.value.code), 0))
  }

  /** The choices fit the places: each is the shared control with its ID, not a
      command, and its values are named. */
  predicate Fitting(cs: seq<Choice>, ps: seq<Place>) {
    && DistinctChoices(cs)
    && (forall i | 0 <= i < |ps| :: !ps[i].oc.unavailable)
    && (forall i, j | 0 <= i < j < |ps| :: ps[i].oc.id != ps[j].oc.id)
    && (forall i | 0 <= i < |cs| ::
        NamedValues(cs[i].hinted.control) && !cs[i].hinted.control.controlType.CommandControl?)
    && forall i, j | 0 <= i < |ps| && 0 <= j < |cs| && ps[i].oc.id == cs[j].hinted.control.id ::
        ps[i].oc == cs[j].hinted.control
  }

  lemma FoundChoice(scan: Scan, cs: seq<Choice>, ps: seq<Place>, k: nat)
    requires Fitting(cs, ps) && k < |ps| && ChoiceFor(cs, ps[k].oc.id).Some?
    ensures var c := ChoiceFor(cs, ps[k].oc.id).value;
            && c in cs && ps[k].oc == c.hinted.control && NamedValues(c.hinted.control)
                && !c.hinted.control.controlType.CommandControl?
            && Find(MonitorControlsFor(scan, cs), ps[k].oc.id) == Some(MonitorControlFor(scan, c))
            && ParseAddress(Some(Hex(c.code))) == Some(c.code)
            && ControlValues(ps[k].oc, MonitorControlFor(scan, c).values, false) ==
               Some(Shown(c.hinted, CapsPrinter.Advertised(scan.caps, c.code), 0))
  {
    hide NamedValues, ControlValues, MonitorControlsFor, ChoiceFor, Find, Shown, ParseInteger;
    FindChoice(scan, cs, ps[k].oc.id);
    var c := ChoiceFor(cs, ps[k].oc.id).value;
    var j :| 0 <= j < |cs| && cs[j] == c;
    assert ps[k].oc == cs[j].hinted.control;
    HexAttributeReadsBack(c.code);
    GeneratedValues(c.hinted, CapsPrinter.Advertised(scan.caps, c.code));
  }

  lemma PlaceOneDone(scan: Scan, cs: seq<Choice>, ps: seq<Place>, k: nat, b: Build, mode: Mode)
    requires Fitting(cs, ps) && k < |ps| && !mode.tolerant
    ensures PlaceOne(b, ps[k].slot, ps[k].oc, MonitorControlsFor(scan, cs), mode).Done?
  {
    hide Fitting, ChoiceFor, Find, ParseAddress, ControlValues, Shown;
    FindChoice(scan, cs, ps[k].oc.id);
    if ChoiceFor(cs, ps[k].oc.id).Some? { FoundChoice(scan, cs, ps, k); }
  }

  lemma {:induction false} PlaceEachDone(scan: Scan, cs: seq<Choice>, ps: seq<Place>, n: nat, b: Build, mode: Mode)
    requires Fitting(cs, ps) && n <= |ps| && !mode.tolerant
    ensures PlaceEach(b, ps[..n], MonitorControlsFor(scan, cs), mode).Done?
  {
    hide Fitting, PlaceOne;
    if n > 0 {
      PlaceEachDone(scan, cs, ps, n - 1, b, mode);
      assert ps[..n][..n - 1] == ps[..n - 1];
      PlaceOneDone(scan, cs, ps, n - 1, PlaceEach(b, ps[..n - 1], MonitorControlsFor(scan, cs), mode).build, mode);
    }
  }

  ghost predicate Offers(caps: CapsTable, cs: seq<Choice>) { forall i | 0 <= i < |cs| :: cs[i].code in caps.vcp }

  lemma ClaimOfChoice(scan: Scan, cs: seq<Choice>, ps: seq<Place>, k: nat, caps: CapsTable)
    requires Fitting(cs, ps) && k < |ps| && Offers(caps, cs)
    ensures var choice := ChoiceFor(cs, ps[k].oc.id);
            Claim(caps, MonitorControlsFor(scan, cs), ps[k].oc) == if choice.None? then None
                else Some(choice.value.code)
  {
    hide ChoiceFor, Find, ParseAddress, ControlValues, Shown;
    FindChoice(scan, cs, ps[k].oc.id);
    if ChoiceFor(cs, ps[k].oc.id).Some? { FoundChoice(scan, cs, ps, k); }
  }

  lemma WinsIffChosen(scan: Scan, cs: seq<Choice>, ps: seq<Place>, k: nat, b: Build)
    requires Fitting(cs, ps) && k < |ps| && Offers(b.caps, cs) && b.defined == {}
    ensures Wins(b, MonitorControlsFor(scan, cs), ps, k) <==> ChoiceFor(cs, ps[k].oc.id).Some?
  {
    hide Claim, ChoiceFor, Offers;
    ClaimOfChoice(scan, cs, ps, k, b.caps);
    if ChoiceFor(cs, ps[k].oc.id).Some? {
      var c := ChoiceFor(cs, ps[k].oc.id).value;
      FindChoice(scan, cs, ps[k].oc.id);
      forall i | 0 <= i < k
        ensures Claim(b.caps, MonitorControlsFor(scan, cs), ps[i].oc) != Some(c.code)
      {
        ClaimOfChoice(scan, cs, ps, i, b.caps);
        FindChoice(scan, cs, ps[i].oc.id);
        var d := ChoiceFor(cs, ps[i].oc.id);
        if d.Some? && d.value.code == c.code { SameChoice(cs, c, d.value); }
      }
    }
  }

  /** The enabled shared controls of a subgroup, in order. */
  function EnabledIn(cs: seq<Choice>, ocs: seq<OptionControl>): seq<OptionControl> {
    if ocs == [] then []
    else
      var rest := EnabledIn(cs, ocs[1..]);
      if ChoiceFor(cs, ocs[0].id).Some? then [ocs[0]] + rest else rest
  }

  function EnabledAt(cs: seq<Choice>, ps: seq<Place>, slot: nat): seq<OptionControl> {
    if ps == [] then []
    else
      var rest := EnabledAt(cs, ps[1..], slot);
      if ps[0].slot == slot && ChoiceFor(cs, ps[0].oc.id).Some? then [ps[0].oc] + rest else rest
  }

  lemma {:induction false} EnabledConcat(cs: seq<Choice>, ps: seq<Place>, qs: seq<Place>, slot: nat)
    ensures EnabledAt(cs, ps + qs, slot) == EnabledAt(cs, ps, slot) + EnabledAt(cs, qs, slot)
  {
    hide ChoiceFor;
    if ps == [] {
      assert ps + qs == qs;
    } else {
      assert (ps + qs)[1..] == ps[1..] + qs;
      EnabledConcat(cs, ps[1..], qs, slot);
    }
  }

  lemma {:induction false} WinnersEnabled(scan: Scan, cs: seq<Choice>, ps: seq<Place>, n: nat, b: Build, slot: nat)
    requires Fitting(cs, ps) && n <= |ps| && Offers(b.caps, cs) && b.defined == {}
    ensures Winners(b, MonitorControlsFor(scan, cs), ps, n, slot) == EnabledAt(cs, ps[..n], slot)
  {
    hide Wins, ChoiceFor, Offers, Fitting, EnabledAt, MonitorControlsFor;
    NoneEnabled(cs, slot);
    if n > 0 {
      WinnersEnabled(scan, cs, ps, n - 1, b, slot);
      WinsIffChosen(scan, cs, ps, n - 1, b);
      assert ps[..n] == ps[..n - 1] + [ps[n - 1]];
      EnabledConcat(cs, ps[..n - 1], [ps[n - 1]], slot);
      OneEnabled(cs, ps[n - 1], slot);
    } else {
      assert ps[..n] == [];
    }
  }

  lemma NoneEnabled(cs: seq<Choice>, slot: nat)
    ensures EnabledAt(cs, [], slot) == []
  {
  }

  lemma OneEnabled(cs: seq<Choice>, p: Place, slot: nat)
    ensures EnabledAt(cs, [p], slot) == if p.slot == slot && ChoiceFor(cs, p.oc.id).Some? then [p.oc] else []
  {
    hide ChoiceFor;
    NoneEnabled(cs, slot);
    assert [p][1..] == [];
  }

  lemma {:induction false} EnabledInSlot(cs: seq<Choice>, at: nat, ocs: seq<OptionControl>, slot: nat)
    ensures EnabledAt(cs, PlacesIn(at, ocs), slot) == if at == slot then EnabledIn(cs, ocs) else []
  {
    hide ChoiceFor;
    if ocs != [] {
      EnabledInSlot(cs, at, ocs[1..], slot);
      assert PlacesIn(at, ocs)[1..] == PlacesIn(at, ocs[1..]);
    }
  }

  lemma {:induction false} EnabledInSubgroup(cs: seq<Choice>, at: nat, subgroups: seq<OptionSubgroup>, slot: nat)
    ensures EnabledAt(cs, Places(at, subgroups), slot) ==
            if at <= slot < at + |subgroups| then EnabledIn(cs, subgroups[slot - at].controls) else []
    decreases |subgroups|
  {
    hide ChoiceFor, EnabledIn;
    if subgroups != [] {
      EnabledConcat(cs, PlacesIn(at, subgroups[0].controls), Places(at + 1, subgroups[1..]), slot);
      EnabledInSlot(cs, at, subgroups[0].controls, slot);
      EnabledInSubgroup(cs, at + 1, subgroups[1..], slot);
    }
  }

  /** Slot by slot, the tree shows exactly the enabled controls. */
  ghost predicate ShowsEnabled(scan: Scan, cs: seq<Choice>, subgroups: seq<OptionSubgroup>, slots: seq<seq<Control>>) {
    |slots| == |subgroups| &&
    forall k | 0 <= k < |slots| ::
      var enabled := EnabledIn(cs, subgroups[k].controls);
      |slots[k]| == |enabled| && forall i | 0 <= i < |enabled| :: Shows(scan, cs, enabled[i], slots[k][i])
  }

  lemma {:induction false} EnabledPlace(cs: seq<Choice>, ps: seq<Place>, slot: nat, i: nat) returns (k: nat)
    requires i < |EnabledAt(cs, ps, slot)|
    ensures k < |ps| && ps[k].oc == EnabledAt(cs, ps, slot)[i] && ChoiceFor(cs, ps[k].oc.id).Some?
  {
    hide ChoiceFor;
    var here := ps[0].slot == slot && ChoiceFor(cs, ps[0].oc.id).Some?;
    if here && i == 0 {
      k := 0;
    } else {
      k := EnabledPlace(cs, ps[1..], slot, if here then i - 1 else i);
      k := k + 1;
    }
  }

  lemma {:induction false} PlacesShown(scan: Scan, cs: seq<Choice>, subgroups: seq<OptionSubgroup>, b: Build,
                                       mode: Mode)
    requires Fitting(cs, Places(0, subgroups)) && Offers(b.caps, cs) && b.defined == {} && !mode.tolerant
             && !mode.validateAll
    requires |b.slots| == |subgroups| && forall k | 0 <= k < |b.slots| :: b.slots[k] == []
    ensures PlaceAll(b, 0, subgroups, MonitorControlsFor(scan, cs), mode).Done?
    ensures var r := PlaceAll(b, 0, subgroups, MonitorControlsFor(scan, cs), mode).build;
            ShowsEnabled(scan, cs, subgroups, r.slots) && r.init == b.init && r.name == b.name && r.caps == b.caps
  {
    hide Fitting, Offers, PlaceAll, EnabledIn, Shows, Winners, MonitorControlsFor, Places, Made, Claims;
    var ps, controls := Places(0, subgroups), MonitorControlsFor(scan, cs);
    assert ps[..|ps|] == ps;
    PlaceEachDone(scan, cs, ps, |ps|, b, mode);
    AllIsPlaces(b, 0, subgroups, controls, mode);
    PlacementExact(b, subgroups, controls, mode);
    var r := PlaceAll(b, 0, subgroups, controls, mode).build;
    forall k | 0 <= k < |r.slots|
      ensures var enabled := EnabledIn(cs, subgroups[k].controls);
              |r.slots[k]| == |enabled| && forall i | 0 <= i < |enabled| :: Shows(scan, cs, enabled[i], r.slots[k][i])
    {
      WinnersEnabled(scan, cs, ps, |ps|, b, k);
      EnabledInSubgroup(cs, 0, subgroups, k);
      assert r.slots[k][|b.slots[k]|..] == r.slots[k];
      SlotShown(scan, cs, ps, k, r.slots[k]);
    }
  }

  lemma SlotsShown(scan: Scan, cs: seq<Choice>, subgroups: seq<OptionSubgroup>, slots: seq<seq<Control>>)
    requires ShowsEnabled(scan, cs, subgroups, slots)
    ensures |slots| == |subgroups|
  {
  }

  lemma SlotShown(scan: Scan, cs: seq<Choice>, ps: seq<Place>, k: nat, made: seq<Control>)
    requires Fitting(cs, ps) && Made(MonitorControlsFor(scan, cs), EnabledAt(cs, ps, k), false, made)
    ensures |made| == |EnabledAt(cs, ps, k)|
    ensures forall i | 0 <= i < |made| :: Shows(scan, cs, EnabledAt(cs, ps, k)[i], made[i])
  {
    hide Fitting, Shows, Becomes, EnabledAt, MonitorControlsFor, ChoiceFor;
    forall i: nat | i < |made|
      ensures Shows(scan, cs, EnabledAt(cs, ps, k)[i], made[i])
    {
      var p := EnabledPlace(cs, ps, k, i);
      BecomesShown(scan, cs, ps, p, made[i]);
    }
  }

  lemma BecomesShown(scan: Scan, cs: seq<Choice>, ps: seq<Place>, p: nat, c: Control)
    requires Fitting(cs, ps) && p < |ps| && ChoiceFor(cs, ps[p].oc.id).Some?
    requires Becomes(MonitorControlsFor(scan, cs), ps[p].oc, false, c)
    ensures Shows(scan, cs, ps[p].oc, c)
  {
    hide Fitting, ChoiceFor, Find, ParseAddress, ControlValues, Shown;
    FoundChoice(scan, cs, ps, p);
  }

  // ----- Vocabulary and choices fit -----

  lemma {:induction false} PlacesAreControls(at: nat, subgroups: seq<OptionSubgroup>)
    ensures |Places(at, subgroups)| == |Controls(subgroups)|
    ensures forall i | 0 <= i < |Controls(subgroups)| :: Places(at, subgroups)[i].oc == Controls(subgroups)[i]
    decreases |subgroups|
  {
    if subgroups != [] {
      PlacesInAre(at, subgroups[0].controls);
      PlacesAreControls(at + 1, subgroups[1..]);
    }
  }

  lemma {:induction false} PlacesInAre(at: nat, ocs: seq<OptionControl>)
    ensures forall i | 0 <= i < |ocs| :: PlacesIn(at, ocs)[i].oc == ocs[i]
  {
    if ocs != [] { PlacesInAre(at, ocs[1..]); }
  }

  /** Choices from the index of a vocabulary fit its places. */
  lemma ChoicesFit(scan: Scan, options: Options, vocabulary: seq<Hinted>, index: Index)
    requires Vocabulary(options, vocabulary) && IndexOptions(vocabulary) == Some(index)
    ensures Fitting(Choices(scan, index, Scanner.Codes(scan)), Places(0, Subgroups(options)))
    ensures forall i | 0 <= i < |Choices(scan, index, Scanner.Codes(scan))| ::
              Choices(scan, index, Scanner.Codes(scan))[i].hinted in vocabulary
              && Choices(scan, index, Scanner.Codes(scan))[i].code in Scanner.Codes(scan)
  {
    hide Enabled, Choices, IndexOptions, NamedValues, Places, CodesFrom, Vocabulary, Chosen;
    var codes := Scanner.Codes(scan);
    var cs, ps := Choices(scan, index, codes), Places(0, Subgroups(options));
    CodesExact(scan, 0);
    ChoicesExact(scan, index, codes);
    forall i | 0 <= i < |cs|
      ensures cs[i].code in codes && cs[i].hinted in vocabulary && NamedValues(cs[i].hinted.control)
              && !cs[i].hinted.control.controlType.CommandControl? && Chosen(scan, index, cs[i])
    {
      assert cs[i] in cs;
      ChoiceKnown(scan, options, vocabulary, index, cs[i]);
    }
    forall i, j | 0 <= i < j < |cs|
      ensures cs[i].code != cs[j].code && cs[i].hinted.control.id != cs[j].hinted.control.id
    { ChosenIdsDiffer(scan, index, cs[i], cs[j]); }
    VocabularyPlaces(options, vocabulary);
    forall i, j | 0 <= i < |ps| && 0 <= j < |cs| && ps[i].oc.id == cs[j].hinted.control.id
      ensures ps[i].oc == cs[j].hinted.control
    { PlaceOfHinted(options, vocabulary, cs[j].hinted, i); }
  }

  lemma ChoiceKnown(scan: Scan, options: Options, vocabulary: seq<Hinted>, index: Index, c: Choice)
    requires Vocabulary(options, vocabulary) && IndexOptions(vocabulary) == Some(index) && Chosen(scan, index, c)
    ensures c.hinted in vocabulary && NamedValues(c.hinted.control) && !c.hinted.control.controlType.CommandControl?
  {
    hide Enabled, IndexOptions, NamedValues, UniqueIds;
    IndexExact(vocabulary, c.code);
    assert c.hinted in At(index, c.code);
    var k :| 0 <= k < |vocabulary| && vocabulary[k] == c.hinted;
    NotCommand(scan, index, c);
  }

  lemma VocabularyPlaces(options: Options, vocabulary: seq<Hinted>)
    requires Vocabulary(options, vocabulary)
    ensures var ps := Places(0, Subgroups(options));
            && (forall i | 0 <= i < |ps| :: !ps[i].oc.unavailable)
            && forall i, j | 0 <= i < j < |ps| :: ps[i].oc.id != ps[j].oc.id
  {
    hide Places, NamedValues;
    PlacesAreControls(0, Subgroups(options));
  }

  lemma PlaceOfHinted(options: Options, vocabulary: seq<Hinted>, h: Hinted, i: nat)
    requires Vocabulary(options, vocabulary) && h in vocabulary && i < |Places(0, Subgroups(options))|
    requires Places(0, Subgroups(options))[i].oc.id == h.control.id
    ensures Places(0, Subgroups(options))[i].oc == h.control
  {
    hide Places, NamedValues;
    PlacesAreControls(0, Subgroups(options));
    var k :| 0 <= k < |vocabulary| && vocabulary[k] == h;
  }

  lemma NotCommand(scan: Scan, index: Index, c: Choice)
    requires Chosen(scan, index, c)
    ensures !c.hinted.control.controlType.CommandControl?
  {
  }

  // ----- The caps element -----

  predicate Printable(s: string) { forall c | c in s :: ' ' <= c <= '~' }

  lemma PrintableXml(s: string)
    requires Printable(s)
    ensures XmlText(s) == s && '\0' !in s
  {
    assert forall i | 0 <= i < |s| :: s[i] in s;
  }

  lemma HexPrintable(n: nat)
    ensures Printable(Hex02(n))
  {
    hide Hex02;
    Hex02Inverse(n);
    forall c | c in Hex02(n)
      ensures ' ' <= c <= '~'
    {
      var i :| 0 <= i < |Hex02(n)| && Hex02(n)[i] == c;
      assert DigitOf(Hex02(n)[i]) < 16;
    }
  }

  lemma {:induction false} ValueTailPrintable(values: seq<Word>)
    ensures Printable(CapsPrinter.ValueTail(values))
    decreases |values|
  {
    if values != [] {
      HexPrintable(values[0]);
      ValueTailPrintable(values[1..]);
    }
  }

  lemma CodePrintable(caps: CapsTable, code: Code)
    ensures Printable(CapsPrinter.CodeText(caps, code))
  {
    HexPrintable(code);
    var values := CapsPrinter.Advertised(caps, code);
    if values.Some? && values.value != [] {
      HexPrintable(values.value[0]);
      ValueTailPrintable(values.value[1..]);
    }
  }

  lemma {:induction false} CodeTailPrintable(caps: CapsTable, codes: seq<Code>)
    ensures Printable(CapsPrinter.CodeTail(caps, codes))
    decreases |codes|
  {
    hide CapsPrinter.CodeText;
    if codes != [] {
      CodePrintable(caps, codes[0]);
      CodeTailPrintable(caps, codes[1..]);
    }
  }

  lemma PrintedPrintable(caps: CapsTable, codes: seq<Code>)
    ensures Printable(CapsPrinter.Printed(caps, codes))
  {
    hide CapsPrinter.CodeText, CapsPrinter.CodeTail;
    if codes != [] {
      CodePrintable(caps, codes[0]);
      CodeTailPrintable(caps, codes[1..]);
    }
  }

  lemma {:induction false} AddedCodes(vcp: Vcp, caps: CapsTable, codes: seq<Code>, c: Code)
    requires c in codes
    ensures c in EditItems(vcp, Add, CapsPrinter.Reread(caps, codes))
    decreases |codes|
  {
    var k := |codes| - 1;
    CapsPrinter.RereadLast(caps, codes);
    var items := CapsPrinter.Reread(caps, codes);
    assert items[..|items| - 1] == CapsPrinter.Reread(caps, codes[..k]);
    if codes[k] != c {
      assert codes == codes[..k] + [codes[k]];
      AddedCodes(vcp, caps, codes[..k], c);
    }
  }

  /** The caps element is accepted, and makes every scanned code available. */
  lemma CapsAccepted(caps0: CapsTable, caps: CapsTable, codes: seq<Code>)
    requires codes != []
    ensures XmlText(CapsPrinter.Printed(caps, codes)) == CapsPrinter.Printed(caps, codes)
    ensures EditCaps(caps0, Add, Some(CapsPrinter.Printed(caps, codes))).Some?
    ensures forall c | c in codes :: c in EditCaps(caps0, Add, Some(CapsPrinter.Printed(caps, codes))).value.vcp
  {
    hide CapsPrinter.Printed, ParseSections, CapsPrinter.Normal, EditItems, XmlText;
    PrintedPrintable(caps, codes);
    PrintableXml(CapsPrinter.Printed(caps, codes));
    CapsPrinter.ParsePrinted(caps, codes);
    forall c | c in codes
      ensures c in EditItems(caps0.vcp, Add, CapsPrinter.Reread(caps, codes))
    { AddedCodes(caps0.vcp, caps, codes, c); }
  }

  // ----- The controls element -----

  lemma NoneBlocked(options: Options, vocabulary: seq<Hinted>, id: string)
    requires Vocabulary(options, vocabulary)
    ensures !Blocked(options, id)
  {
  }

  lemma {:induction false} BlockNothing(b: Build, options: Options, vocabulary: seq<Hinted>,
                                        controls: seq<MonitorControl>)
    requires Vocabulary(options, vocabulary)
    ensures Block(b, options, controls) == Done(b)
    decreases |controls|
  {
    hide Blocked, Vocabulary;
    if controls != [] {
      NoneBlocked(options, vocabulary, controls[0].id);
      BlockNothing(b, options, vocabulary, controls[1..]);
    }
  }

  lemma {:induction false} ReserveNothing(b: Build, scan: Scan, cs: seq<Choice>)
    ensures Reserve(b, ControlNodes(scan, cs)) == Done(b)
    decreases |cs|
  {
    hide ControlNode, HasRequired;
    if cs != [] {
      NodePlain(scan, cs[0]);
      ReserveNothing(b, scan, cs[1..]);
      assert ControlNodes(scan, cs)[1..] == ControlNodes(scan, cs[1..]);
    }
  }

  lemma ChildrenMatched(scan: Scan, options: Options, vocabulary: seq<Hinted>, cs: seq<Choice>)
    requires Vocabulary(options, vocabulary) && DistinctChoices(cs) && forall i | 0 <= i < |cs| ::
             cs[i].hinted in vocabulary
    ensures AllMatched(options, ControlNodes(scan, cs)) && !RequiredBeside(ControlNodes(scan, cs), "control")
  {
    hide ControlNode, HasRequired, MonitorControlOf, Blocked, Vocabulary, KnownControl, MonitorControlFor, FromXml;
    var ns := ControlNodes(scan, cs);
    forall i | 0 <= i < |ns|
      ensures !HasRequired(ns[i]) && MonitorControlOf(ns[i]) == Some(MonitorControlFor(scan, cs[i]))
      ensures MonitorControlFor(scan, cs[i]).id == cs[i].hinted.control.id
              && KnownControl(options, cs[i].hinted.control.id)
    {
      HintedKnown(options, vocabulary, cs[i].hinted);
      NodeReadsBack(scan, cs[i]);
      ControlId(scan, cs[i]);
    }
    forall i: nat | i < |ns|
      ensures Matched(options, ns, i)
    { assert forall j | 0 <= j < i :: MonitorControlOf(ns[j]).value.id == cs[j].hinted.control.id; }
  }

  lemma ControlId(scan: Scan, c: Choice)
    ensures MonitorControlFor(scan, c).id == c.hinted.control.id
  {
  }

  lemma HintedKnown(options: Options, vocabulary: seq<Hinted>, h: Hinted)
    requires Vocabulary(options, vocabulary) && h in vocabulary
    ensures KnownControl(options, h.control.id) && FromXml(h.control)
  {
    hide NamedValues, UniqueIds, FromXml;
    var k :| 0 <= k < |vocabulary| && vocabulary[k] == h;
    assert Controls(Subgroups(options))[k].id == h.control.id;
  }

  lemma ControlsAccepted(scan: Scan, options: Options, vocabulary: seq<Hinted>, index: Index, b: Build, mode: Mode)
    requires Vocabulary(options, vocabulary) && IndexOptions(vocabulary) == Some(index) && mode == Mode(false, false)
    requires b.defined == {} && |b.slots| == |Subgroups(options)| && forall k | 0 <= k < |b.slots| :: b.slots[k] == []
    requires forall c | c in Scanner.Codes(scan) :: c in b.caps.vcp
    ensures ControlsElement(b, options, ControlsNode(scan, index), mode).Done?
    ensures var r := ControlsElement(b, options, ControlsNode(scan, index), mode).build;
            && ShowsEnabled(scan, Choices(scan, index, Scanner.Codes(scan)), Subgroups(options), r.slots)
            && r.init == b.init && r.name == b.name && r.caps == b.caps
  {
    hide Vocabulary, IndexOptions, Choices, Places, Fitting, ShowsEnabled, AllMatched, RequiredBeside, PlaceAll,
      Block, Reserve, MonitorControls, CodesFrom, FromXml;
    var cs := Choices(scan, index, Scanner.Codes(scan));
    ChoicesFit(scan, options, vocabulary, index);
    FitDistinct(cs, Places(0, Subgroups(options)));
    ChildrenMatched(scan, options, vocabulary, cs);
    ReserveNothing(b, scan, cs);
    forall i | 0 <= i < |cs|
      ensures FromXml(cs[i].hinted.control)
    { HintedKnown(options, vocabulary, cs[i].hinted); }
    NodesReadBack(scan, cs);
    BlockNothing(b, options, vocabulary, MonitorControlsFor(scan, cs));
    PlacesShown(scan, cs, Subgroups(options), b, mode);
  }

  lemma FitDistinct(cs: seq<Choice>, ps: seq<Place>)
    requires Fitting(cs, ps)
    ensures DistinctChoices(cs)
  {
  }

  // ----- The whole profile -----

  /** A context in which a name stands for the generated profile. */
  predicate Installs(ctx: Context, name: string, root: Node) {
    ValidName(name) && Root(ctx, name, true) == Some(root)
  }

  lemma CapsElementAccepted(scan: Scan, b: Build)
    requires Scanner.Codes(scan) != []
    ensures CapsElement(b, CapsNodes(scan)[0]).Done?
    ensures var r := CapsElement(b, CapsNodes(scan)[0]).build;
            r == b.(caps := r.caps) && forall c | c in Scanner.Codes(scan) :: c in r.caps.vcp
  {
    hide EditCaps, CapsPrinter.Printed, CodesFrom, XmlText;
    CapsAccepted(b.caps, scan.caps, Scanner.Codes(scan));
    assert Attr(CapsNodes(scan)[0], "remove") == None;
    NoEdit(b.caps);
  }

  lemma NoEdit(caps: CapsTable)
    ensures EditCaps(caps, Remove, None) == Some(caps)
  {
  }

  lemma ElementsAccepted(scan: Scan, vocabulary: seq<Hinted>, index: Index, ctx: Context, b: Build, mode: Mode)
    requires Vocabulary(ctx.options, vocabulary) && IndexOptions(vocabulary) == Some(index)
             && mode == Mode(false, false)
    requires b.defined == {} && |b.slots| == |Subgroups(ctx.options)| && forall k | 0 <= k < |b.slots| ::
             b.slots[k] == []
    ensures Elements(ctx, b, Generated(scan, index).children, 0, mode, false, false).Done?
    ensures var r := Elements(ctx, b, Generated(scan, index).children, 0, mode, false, false).build;
            && ShowsEnabled(scan, Choices(scan, index, Scanner.Codes(scan)), Subgroups(ctx.options), r.slots)
            && r.init == b.init && r.name == b.name
  {
    hide Vocabulary, IndexOptions, Choices, ShowsEnabled, CapsElement, ControlsElement, HasRequired, ControlsNode,
      CodesFrom;
    var n := ControlsNode(scan, index);
    ControlsNodePlain(scan, index);
    var ns := Generated(scan, index).children;
    if Scanner.Codes(scan) == [] {
      assert ns == [n];
      ControlsAccepted(scan, ctx.options, vocabulary, index, b, mode);
      LastElement(ctx, b, n, mode);
    } else {
      var first := CapsNodes(scan)[0];
      CapsElementAccepted(scan, b);
      var b1 := CapsElement(b, first).build;
      CapsNodePlain(scan);
      ControlsAccepted(scan, ctx.options, vocabulary, index, b1, mode);
      LastElement(ctx, b1, n, mode);
      assert ns[0] == first && ns[1..] == [n];
      assert Element(ctx, b, first, 0, mode, false) == CapsElement(b, first);
    }
  }

  lemma ControlsNodePlain(scan: Scan, index: Index)
    ensures var n := ControlsNode(scan, index); n.tag == "controls" && !n.required
  {
  }

  lemma CapsNodePlain(scan: Scan)
    requires Scanner.Codes(scan) != []
    ensures var n := CapsNodes(scan)[0]; n.tag == "caps" && !n.required && !HasRequired(n)
  {
  }

  lemma LastElement(ctx: Context, b: Build, n: Node, mode: Mode)
    requires n.tag == "controls" && !n.required && ControlsElement(b, ctx.options, n, mode).Done?
    ensures Elements(ctx, b, [n], 0, mode, false, false) == ControlsElement(b, ctx.options, n, mode)
  {
    hide ControlsElement, HasRequired;
    assert [n][1..] == [];
    assert Element(ctx, b, n, 0, mode, false) == ControlsElement(b, ctx.options, n, mode);
  }

  /** For any scan and any capabilities, the generated profile loads in strict mode
      against the same options. Its tree shows exactly the enabled controls: each
      under its own subgroup and in order, with its address and its named values. */
  lemma GeneratedLoads(scan: Scan, vocabulary: seq<Hinted>, index: Index, ctx: Context, name: string, caps: CapsTable)
      returns (b: Build)
    requires Vocabulary(ctx.options, vocabulary) && IndexOptions(vocabulary) == Some(index)
    requires Installs(ctx, name, Generated(scan, index))
    ensures S.Built(ctx, name, caps, false, b)
    ensures PublishedTree.Publishes(ctx.options, b.slots, S.Load(ctx, name, caps, false).monitor.value.groups)
    ensures ShowsEnabled(scan, Choices(scan, index, Scanner.Codes(scan)), Subgroups(ctx.options), b.slots)
    ensures var m := S.Load(ctx, name, caps, false).monitor.value;
            && m.init == InitStandard
            && (Schema.Blank(scan.name) ==> m.name == XmlText(scan.pnpId))
            && (!Schema.Blank(scan.name) ==> m.name == XmlText(scan.name))
  {
    hide Vocabulary, IndexOptions, Choices, ShowsEnabled, Elements, CodesFrom, Requirements.Demanding, ValidName,
      Arrange;
    var root, mode := Generated(scan, index), Mode(false, false);
    var start := Start(ctx.options, caps);
    var b1 := start.(visits := 1);
    assert FindRoot(ctx, name, true) == Found(root);
    var title := XmlText(if Schema.Blank(scan.name) then scan.pnpId else scan.name);
    var b2 := b1.(name := Some(title), init := InitStandard);
    assert OpenRoot(b1, root, mode) == Done(b2);
    ElementsAccepted(scan, vocabulary, index, ctx, b2, mode);
    b := Elements(ctx, b2, root.children, 0, mode, false, false).build;
    assert S.Attempt(ctx, name, caps, false) == Done(b);
    SlotsShown(scan, Choices(scan, index, Scanner.Codes(scan)), Subgroups(ctx.options), b.slots);
    PublishedTree.ArrangePublishes(ctx.options, b.slots);
  }

  /** The enabled controls have distinct addresses, below the manufacturer range and
      readable, and distinct IDs. */
  lemma GeneratedDistinct(scan: Scan, options: Options, vocabulary: seq<Hinted>, index: Index)
    requires Vocabulary(options, vocabulary) && IndexOptions(vocabulary) == Some(index)
    ensures DistinctChoices(Choices(scan, index, Scanner.Codes(scan)))
    ensures forall c: Choice :: c in Choices(scan, index, Scanner.Codes(scan)) <==> Chosen(scan, index, c)
  {
    hide Vocabulary, IndexOptions, Choices, CodesFrom;
    ChoicesFit(scan, options, vocabulary, index);
    CodesExact(scan, 0);
    ChoicesExact(scan, index, Scanner.Codes(scan));
  }
}
