/** Which controls the scanner enables, said of the vocabulary, the capabilities and
    the readings themselves. */
module ScannerDecision {
  import opened Base
  import opened Caps
  import opened Database
  import opened Scanner
  import CapsPrinter
  import L = Loader

  // ----- Values -----

  /** The number a value is hinted at, if the monitor advertises it for the code. */
  predicate Advertises(scan: Scan, code: Code, h: Hinted, i: nat, number: Word) {
    && i < |h.control.values| && ValueHint(h, i) == Some(number)
    && code in scan.caps.vcp && scan.caps.vcp[code].Some? && number in scan.caps.vcp[code].value
  }

  lemma {:induction false} MatchingMeans(scan: Scan, code: Code, h: Hinted, k: nat, m: Match)
    requires k <= |h.control.values|
    ensures m in MatchingFrom(h, CapsPrinter.Advertised(scan.caps, code), k) <==>
            exists i: nat :: k <= i && Advertises(scan, code, h, i, m.number) && h.control.values[i].id == m.id
    decreases |h.control.values| - k
  {
    hide ValueHint;
    if k < |h.control.values| {
      MatchingMeans(scan, code, h, k + 1, m);
      if i: nat :| k <= i && Advertises(scan, code, h, i, m.number) && h.control.values[i].id == m.id {
        if i > k { assert k + 1 <= i; }
      }
    }
  }

  /** Two different advertised values of the control share an ID or a number. */
  predicate Clash(scan: Scan, code: Code, h: Hinted, i: nat, j: nat) {
    && i < j < |h.control.values| && ValueHint(h, i).Some? && ValueHint(h, j).Some?
    && Advertises(scan, code, h, i, ValueHint(h, i).value) && Advertises(scan, code, h, j, ValueHint(h, j).value)
    && (h.control.values[i].id == h.control.values[j].id || ValueHint(h, i) == ValueHint(h, j))
  }

  lemma {:induction false} MatchAtIndex(scan: Scan, code: Code, h: Hinted, k: nat, a: nat) returns (i: nat)
    requires k <= |h.control.values| && a < |MatchingFrom(h, CapsPrinter.Advertised(scan.caps, code), k)|
    ensures k <= i && Advertises(scan, code, h, i,
                                 MatchingFrom(h, CapsPrinter.Advertised(scan.caps, code), k)[a].number)
    ensures h.control.values[i].id == MatchingFrom(h, CapsPrinter.Advertised(scan.caps, code), k)[a].id
    decreases |h.control.values| - k
  {
    hide ValueHint;
    var ms, rest := MatchingFrom(h, CapsPrinter.Advertised(scan.caps, code), k),
        MatchingFrom(h, CapsPrinter.Advertised(scan.caps, code), k + 1);
    if ms == rest {
      i := MatchAtIndex(scan, code, h, k + 1, a);
    } else if a == 0 {
      i := k;
    } else {
      i := MatchAtIndex(scan, code, h, k + 1, a - 1);
    }
  }

  lemma {:induction false} AmbiguousMeans(scan: Scan, code: Code, h: Hinted, k: nat)
    requires k <= |h.control.values|
    ensures AmbiguousValues(MatchingFrom(h, CapsPrinter.Advertised(scan.caps, code), k)) <==>
            exists i: nat, j: nat :: k <= i && Clash(scan, code, h, i, j)
    decreases |h.control.values| - k
  {
    hide ValueHint, Advertises;
    if k < |h.control.values| {
      AmbiguousMeans(scan, code, h, k + 1);
      AmbiguousStep(scan, code, h, k);
      if i: nat, j: nat :| k <= i && Clash(scan, code, h, i, j) {
        if i > k { assert k + 1 <= i; }
      }
      if i: nat, j: nat :| k + 1 <= i && Clash(scan, code, h, i, j) { assert k <= i; }
    }
  }

  /** The k-th value makes the list ambiguous exactly when it clashes with a later one. */
  lemma AmbiguousStep(scan: Scan, code: Code, h: Hinted, k: nat)
    requires k < |h.control.values|
    ensures var advertised := CapsPrinter.Advertised(scan.caps, code);
            AmbiguousValues(MatchingFrom(h, advertised, k)) <==>
            AmbiguousValues(MatchingFrom(h, advertised, k + 1)) || exists j: nat :: Clash(scan, code, h, k, j)
  {
    hide ValueHint;
    var advertised := CapsPrinter.Advertised(scan.caps, code);
    var ms, rest := MatchingFrom(h, advertised, k), MatchingFrom(h, advertised, k + 1);
    var number := ValueHint(h, k);
    if number.Some? && advertised.Some? && number.value in advertised.value {
      var m := Match(h.control.values[k].id, number.value);
      assert ms == [m] + rest;
      AmbiguousCons(m, rest);
      if a: nat :| a < |rest| && Alike(rest[a], m) {
        var j := MatchAtIndex(scan, code, h, k + 1, a);
        assert Clash(scan, code, h, k, j);
      }
      if j: nat :| Clash(scan, code, h, k, j) {
        var later := Match(h.control.values[j].id, ValueHint(h, j).value);
        MatchingMeans(scan, code, h, k + 1, later);
        assert later in rest;
        var a: nat :| a < |rest| && rest[a] == later;
        assert Alike(rest[a], m);
      }
    } else {
      assert ms == rest;
    }
  }

  predicate Alike(m: Match, n: Match) { m.id == n.id || m.number == n.number }

  lemma AmbiguousPair(ms: seq<Match>)
    ensures AmbiguousValues(ms) <==> exists i, j | 0 <= i < j < |ms| :: Alike(ms[i], ms[j])
  {
    if i, j :| 0 <= i < j < |ms| && ms[i].id == ms[j].id { assert Alike(ms[i], ms[j]); }
    if i, j :| 0 <= i < j < |ms| && ms[i].number == ms[j].number { assert Alike(ms[i], ms[j]); }
  }

  lemma AmbiguousCons(m: Match, rest: seq<Match>)
    ensures AmbiguousValues([m] + rest) <==> AmbiguousValues(rest) || exists a: nat :: a < |rest| && Alike(rest[a], m)
  {
    hide AmbiguousValues;
    var ms := [m] + rest;
    AmbiguousPair(ms);
    AmbiguousPair(rest);
    if i, j :| 0 <= i < j < |ms| && Alike(ms[i], ms[j]) {
      assert ms[j] == rest[j - 1];
      if i > 0 { assert ms[i] == rest[i - 1]; } else { assert Alike(rest[j - 1], m); }
    }
    if i, j :| 0 <= i < j < |rest| && Alike(rest[i], rest[j]) {
      assert ms[i + 1] == rest[i] && ms[j + 1] == rest[j];
    }
    if a: nat :| a < |rest| && Alike(rest[a], m) {
      assert ms[0] == m && ms[a + 1] == rest[a] && Alike(ms[0], ms[a + 1]);
    }
  }

  // ----- Candidates -----

  /** What a control does: its ID, name and type, and its values with their numbers. */
  datatype Mapping = Mapping(id: string, name: string, controlType: ControlType, values: seq<(string, Option<Word>)>)

  function MappingOf(h: Hinted): Mapping {
    Mapping(h.control.id, h.control.name, h.control.controlType,
            seq(|h.control.values|,
                i requires 0 <= i < |h.control.values| =>
                  (h.control.values[i].id, if i < |h.rawValues| then L.ParseWord(h.rawValues[i]) else None)))
  }

  lemma SameMappingMeans(a: Hinted, b: Hinted)
    ensures SameMapping(a, b) <==> MappingOf(a) == MappingOf(b)
  {
    hide L.ParseWord;
    var x, y := MappingOf(a), MappingOf(b);
    assert forall i | 0 <= i < |x.values| :: x.values[i] == (a.control.values[i].id, ValueHint(a, i));
    assert forall i | 0 <= i < |y.values| :: y.values[i] == (b.control.values[i].id, ValueHint(b, i));
    if SameMapping(a, b) { assert x.values == y.values; }
    if x == y {
      forall i | 0 <= i < |x.values|
        ensures a.control.values[i].id == b.control.values[i].id && ValueHint(a, i) == ValueHint(b, i)
      { assert x.values[i] == y.values[i]; }
    }
  }

  lemma SameMappingLaws(a: Hinted, b: Hinted, c: Hinted)
    ensures SameMapping(a, a)
    ensures SameMapping(a, b) ==> SameMapping(b, a) && a.control.id == b.control.id
    ensures SameMapping(a, b) && SameMapping(b, c) ==> SameMapping(a, c)
  {
    hide SameMapping, L.ParseWord;
    SameMappingMeans(a, a);
    SameMappingMeans(a, b);
    SameMappingMeans(b, a);
    SameMappingMeans(b, c);
    SameMappingMeans(a, c);
  }

  /** No candidate of an address repeats the mapping of an earlier one. */
  lemma {:induction false} CandidatesDiffer(vocabulary: seq<Hinted>, code: Code)
    requires IndexOptions(vocabulary).Some?
    ensures var cs := At(IndexOptions(vocabulary).value, code);
            forall i, j | 0 <= i < j < |cs| :: !SameMapping(cs[i], cs[j])
    decreases |vocabulary|
  {
    hide SameMapping, L.ParseAddress, Represented;
    if vocabulary != [] {
      var init, last := vocabulary[..|vocabulary| - 1], vocabulary[|vocabulary| - 1];
      CandidatesDiffer(init, code);
      var before, after := At(IndexOptions(init).value, code), At(IndexOptions(vocabulary).value, code);
      if after != before {
        assert after == before + [last] && !Represented(before, last);
        NotRepresented(before, last);
      }
    }
  }

  lemma NotRepresented(candidates: seq<Hinted>, h: Hinted)
    requires !Represented(candidates, h)
    ensures forall i | 0 <= i < |candidates| :: !SameMapping(candidates[i], h)
  {
    hide SameMapping;
  }

  /** Everything hinted at the address is this mapping. */
  ghost predicate Sole(vocabulary: seq<Hinted>, code: Code, h: Hinted) {
    forall g | g in vocabulary && HintsAt(g, code) :: SameMapping(h, g)
  }

  /** The ID is hinted at no other address. */
  ghost predicate OneAddress(vocabulary: seq<Hinted>, code: Code, id: string) {
    forall g, other: Code | g in vocabulary && HintsAt(g, other) && g.control.id == id :: other == code
  }

  lemma SoleMeans(vocabulary: seq<Hinted>, index: Index, code: Code, h: Hinted)
    requires IndexOptions(vocabulary) == Some(index) && h in At(index, code)
    ensures |At(index, code)| <= 1 <==> Sole(vocabulary, code, h)
    ensures Sole(vocabulary, code, h) ==> At(index, code) == [h]
  {
    hide SameMapping, HintsAt, IndexOptions;
    IndexExact(vocabulary, code);
    CandidatesDiffer(vocabulary, code);
    var cs := At(index, code);
    var k :| 0 <= k < |cs| && cs[k] == h;
    if |cs| <= 1 {
      forall g | g in vocabulary && HintsAt(g, code)
        ensures SameMapping(h, g)
      {
        assert Represented(cs, g);
        var i :| 0 <= i < |cs| && SameMapping(cs[i], g);
        assert cs[i] == h;
      }
    }
    if Sole(vocabulary, code, h) && |cs| > 1 {
      var other := if k == 0 then 1 else 0;
      assert cs[other] in cs;
      SameMappingLaws(h, cs[other], h);
    }
  }

  lemma OtherAddressMeans(vocabulary: seq<Hinted>, index: Index, code: Code, id: string)
    requires IndexOptions(vocabulary) == Some(index)
    ensures OtherAddress(index, code, id) <==> !OneAddress(vocabulary, code, id)
  {
    hide SameMapping, HintsAt, IndexOptions;
    if other, i :| other in index && other != code && 0 <= i < |index[other]| && index[other][i].control.id == id {
      IndexExact(vocabulary, other);
      var g := index[other][i];
      assert g in At(index, other);
      assert g in vocabulary && HintsAt(g, other);
    }
    if !OneAddress(vocabulary, code, id) {
      var g, other: Code :| g in vocabulary && HintsAt(g, other) && g.control.id == id && other != code;
      IndexExact(vocabulary, other);
      assert Represented(At(index, other), g);
      var i :| 0 <= i < |At(index, other)| && SameMapping(At(index, other)[i], g);
      SameMappingLaws(At(index, other)[i], g, g);
      assert index[other][i].control.id == id;
    }
  }

  // ----- The decision -----

  /** A control is enabled exactly when its mapping is the only one hinted at the
      address and its ID is hinted nowhere else, the address was read and is below
      0xE0, and it is a scalar with a sensible range or a list with some advertised
      values and no two alike. */
  lemma EnabledMeans(scan: Scan, vocabulary: seq<Hinted>, index: Index, code: Code, h: Hinted)
    requires IndexOptions(vocabulary) == Some(index) && h in At(index, code)
    ensures Enabled(scan, index, code, h) <==>
            && Sole(vocabulary, code, h) && OneAddress(vocabulary, code, h.control.id)
            && code in scan.readings && code <= 0xDF
            && (|| (h.control.controlType == ValueControl && 1 <= scan.readings[code].maximum
                    && scan.readings[code].current <= scan.readings[code].maximum)
                || (h.control.controlType == ListControl
                    && (exists i: nat, n: Word :: Advertises(scan, code, h, i, n))
                    && forall i: nat, j: nat :: !Clash(scan, code, h, i, j)))
  {
    hide Sole, OneAddress, IndexOptions, OtherAddress, MatchingFrom, AmbiguousValues, Advertises, Clash;
    SoleMeans(vocabulary, index, code, h);
    OtherAddressMeans(vocabulary, index, code, h.control.id);
    AmbiguousMeans(scan, code, h, 0);
    SomeMatch(scan, code, h);
  }

  lemma SomeMatch(scan: Scan, code: Code, h: Hinted)
    ensures MatchingValues(h, CapsPrinter.Advertised(scan.caps, code)) != [] <==>
            exists i: nat, n: Word :: Advertises(scan, code, h, i, n)
  {
    hide ValueHint, MatchingFrom;
    var ms := MatchingValues(h, CapsPrinter.Advertised(scan.caps, code));
    if ms != [] { var i := MatchAtIndex(scan, code, h, 0, 0); }
    if i: nat, n: Word :| Advertises(scan, code, h, i, n) {
      MatchingMeans(scan, code, h, 0, Match(h.control.values[i].id, n));
    }
  }

  // ----- Text -----

  /** Tabs, line ends and everything from space on, without surrogates and the two
      code points that XML leaves out, are written as they are. */
  lemma XmlTextMeans(s: string, i: nat)
    requires i < |s|
    ensures |XmlText(s)| == |s|
    ensures var code := s[i] as int;
            XmlText(s)[i] == if code < 0x20 && code !in {9, 10, 13} then '\U{FFFD}'
                             else if code == 0xFFFE || code == 0xFFFF then '\U{FFFD}' else s[i]
  {
  }
}
