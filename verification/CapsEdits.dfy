/** Laws of capability edits. */
module CapsEdits {
  import opened Base
  import opened Numbers
  import opened Caps

  // ----- No edit leaves an empty value list -----

  predicate Listed(values: Option<seq<Word>>) { values != Some([]) }

  predicate NonEmpty(vcp: Vcp) { forall c | c in vcp :: Listed(vcp[c]) }

  predicate NonEmptyItems(items: seq<Item>) { forall i | 0 <= i < |items| :: Listed(items[i].values) }

  ghost predicate ReadsListed(r: Read<ParsedCaps>) { r.Good? ==> NonEmptyItems(r.value.vcp) }

  lemma {:induction false} VcpTokenListed(t: string, parsed: ParsedCaps)
    requires NonEmptyItems(parsed.vcp) && t != ""
    ensures ReadsListed(VcpToken(t, parsed))
    decreases |t|, 0
  {
    if IsName(t[0]) && !IsHex(t[0]) {
      var u := SkipSpaces(t[Span(t, NameChars)..]);
      if Opens(u) { ParseVcpListed(u[1..], parsed); }
    }
  }

  lemma {:induction false} ParseVcpListed(s: string, parsed: ParsedCaps)
    requires NonEmptyItems(parsed.vcp)
    ensures ReadsListed(ParseVcp(s, parsed))
    decreases |s|, 1
  {
    hide VcpToken;
    var t := SkipSpaces(s);
    if t != "" && t[0] != ')' && t[0] != '(' {
      VcpTokenListed(t, parsed);
      var r := VcpToken(t, parsed);
      if r.Good? { ParseVcpListed(r.rest, r.value); }
    }
  }

  lemma {:induction false} SectionTokenListed(t: string, parsed: ParsedCaps)
    requires NonEmptyItems(parsed.vcp) && t != "" && t[0] != ')'
    ensures ReadsListed(SectionToken(t, parsed))
    decreases |t|, 0
  {
    hide ParseSection;
    if t[0] == '(' {
      ParseSectionsListed(t[1..], true, parsed);
    } else if IsName(t[0]) {
      var n := Span(t, NameChars);
      var u := SkipSpaces(t[n..]);
      if Opens(u) { SectionListed(t[..n], u[1..], parsed); }
    }
  }

  lemma {:induction false} ParseSectionsListed(s: string, nested: bool, parsed: ParsedCaps)
    requires NonEmptyItems(parsed.vcp)
    ensures ReadsListed(ParseSections(s, nested, parsed))
    decreases |s|, 1
  {
    hide SectionToken;
    var t := SkipSpaces(s);
    if t != "" && t[0] != ')' {
      SectionTokenListed(t, parsed);
      var r := SectionToken(t, parsed);
      if r.Good? { ParseSectionsListed(r.rest, nested, r.value); }
    }
  }

  lemma SectionListed(name: string, s: string, parsed: ParsedCaps)
    requires NonEmptyItems(parsed.vcp)
    ensures ReadsListed(ParseSection(name, s, parsed))
  {
    if name == "vcp" { ParseVcpListed(s, parsed); }
  }

  lemma {:induction false} EditItemsListed(vcp: Vcp, edit: Edit, items: seq<Item>)
    requires NonEmpty(vcp) && NonEmptyItems(items)
    ensures NonEmpty(EditItems(vcp, edit, items))
    decreases |items|
  {
    if items != [] { EditItemsListed(vcp, edit, items[..|items| - 1]); }
  }

  /** The invariant of every capability table that parsing and edits produce. */
  lemma ApplyListed(caps: CapsTable, edit: Edit, input: string)
    requires NonEmpty(caps.vcp)
    ensures Apply(caps, edit, input).Some? ==> NonEmpty(Apply(caps, edit, input).value.vcp)
  {
    hide ParseSections;
    ParseSectionsListed(input, false, NOTHING);
    if Parse(input).Good? { EditItemsListed(caps.vcp, edit, Parse(input).value.vcp); }
  }

  // ----- Adding then removing -----

  ghost function Codes(items: seq<Item>): set<Code>
    decreases |items|
  {
    if items == [] then {} else Codes(items[..|items| - 1]) + {items[|items| - 1].code}
  }

  /** The list given last for a code is the one that stays. */
  lemma {:induction false} LastAddWins(vcp: Vcp, items: seq<Item>, c: Code) returns (j: nat)
    ensures c in Codes(items) ==>
              && j < |items| && items[j].code == c && (forall i | j < i < |items| :: items[i].code != c)
              && c in EditItems(vcp, Add, items) && EditItems(vcp, Add, items)[c] == items[j].values
    ensures c !in Codes(items) ==>
              && (c in EditItems(vcp, Add, items) <==> c in vcp)
              && (c in vcp ==> EditItems(vcp, Add, items)[c] == vcp[c])
    decreases |items|
  {
    j := 0;
    if items != [] {
      var k := |items| - 1;
      if items[k].code == c {
        j := k;
      } else {
        j := LastAddWins(vcp, items[..k], c);
      }
    }
  }

  /** How far the removal of a prefix can leave a code, given what it started with. */
  ghost predicate Remains(table: Vcp, start: Vcp, c: Code) {
    c in table ==>
      && c in start && (table[c].None? <==> start[c].None?)
      && (start[c].Some? ==> forall v | v in table[c].value :: v in start[c].value)
  }

  lemma {:induction false} RemovePrefix(start: Vcp, items: seq<Item>, k: nat, c: Code)
    requires k <= |items|
    ensures Remains(EditItems(start, Remove, items[..k]), start, c)
    ensures c !in Codes(items[..k]) && c in start ==>
            c in EditItems(start, Remove, items[..k]) && EditItems(start, Remove, items[..k])[c] == start[c]
    decreases k
  {
    if k > 0 {
      RemovePrefix(start, items, k - 1, c);
      assert items[..k][..k - 1] == items[..k - 1];
    }
  }

  lemma {:induction false} RemovedStays(start: Vcp, items: seq<Item>, j: nat, k: nat, c: Code)
    requires j < k <= |items| && items[j].code == c && c in start && start[c] == items[j].values
    ensures c !in EditItems(start, Remove, items[..k])
    decreases k
  {
    RemovePrefix(start, items, k - 1, c);
    assert items[..k][..k - 1] == items[..k - 1];
    if j < k - 1 {
      RemovedStays(start, items, j, k - 1, c);
    } else {
      var table := EditItems(start, Remove, items[..k - 1]);
      if c in table && table[c].Some? { NothingLeft(table[c].value, start[c].value); }
    }
  }

  lemma {:induction false} NothingLeft(values: seq<Word>, removed: seq<Word>)
    requires forall v | v in values :: v in removed
    ensures Without(values, removed) == []
  {
    if values != [] {
      assert values[0] in values;
      NothingLeft(values[1..], removed);
    }
  }

  /** Adding a string and then removing it deletes exactly the codes it mentions,
      repeated codes included, and leaves every other entry as it was. */
  lemma AddThenRemove(caps: CapsTable, input: string)
    requires Parse(input).Good?
    ensures var added := Apply(caps, Add, input);
            added.Some? && Apply(added.value, Remove, input) ==
              Some(CapsTable(added.value.kind, caps.vcp - Codes(Parse(input).value.vcp)))
  {
    hide ParseSections, EditItems;
    var items := Parse(input).value.vcp;
    var added := EditItems(caps.vcp, Add, items);
    var left := EditItems(added, Remove, items);
    assert items[..|items|] == items;
    forall c: Code ensures (c in left <==> c in caps.vcp && c !in Codes(items))
        && (c in left ==> left[c] == caps.vcp[c]) {
      var j := LastAddWins(caps.vcp, items, c);
      RemovePrefix(added, items, |items|, c);
      if c in Codes(items) { RemovedStays(added, items, j, |items|, c); }
    }
    assert left == caps.vcp - Codes(items);
  }

  // ----- What removing leaves -----

  /** Some item for the code stands for all its values. */
  predicate RemovesAll(items: seq<Item>, c: Code) { exists x | x in items :: x.code == c && x.values.None? }

  /** Some item for the code names the value. */
  predicate Names(items: seq<Item>, c: Code, v: Word) {
    exists x | x in items :: x.code == c && x.values.Some? && v in x.values.value
  }

  predicate Mentions(items: seq<Item>, c: Code) { exists x | x in items :: x.code == c }

  /** The values that no item for the code names, in order. */
  function Unnamed(values: seq<Word>, items: seq<Item>, c: Code): seq<Word> {
    if values == [] then []
    else if Names(items, c, values[0]) then Unnamed(values[1..], items, c)
    else [values[0]] + Unnamed(values[1..], items, c)
  }

  /** The code survives: nothing mentions it; or it has a list, nothing takes it
      whole, and some value of the list is not named. */
  predicate Survives(start: Vcp, items: seq<Item>, c: Code) {
    c in start &&
    (!Mentions(items, c) ||
     (start[c].Some? && !RemovesAll(items, c) && exists v | v in start[c].value :: !Names(items, c, v)))
  }

  lemma {:induction false} WithoutUnnamed(values: seq<Word>, items: seq<Item>, item: Item, c: Code)
    requires item.code == c && item.values.Some?
    ensures Without(Unnamed(values, items, c), item.values.value) == Unnamed(values, items + [item], c)
  {
    hide Names;
    if values != [] {
      NamesMore(items, item, c, values[0]);
      WithoutUnnamed(values[1..], items, item, c);
      var rest := Unnamed(values[1..], items, c);
      assert ([values[0]] + rest)[1..] == rest;
    }
  }

  lemma NamesMore(items: seq<Item>, item: Item, c: Code, v: Word)
    ensures Names(items + [item], c, v) <==>
            Names(items, c, v) || (item.code == c && item.values.Some? && v in item.values.value)
    ensures Mentions(items + [item], c) <==> Mentions(items, c) || item.code == c
    ensures RemovesAll(items + [item], c) <==> RemovesAll(items, c) || (item.code == c && item.values.None?)
  {
    assert forall x :: x in items + [item] <==> x in items || x == item;
  }

  lemma RemovesMentions(items: seq<Item>, c: Code)
    ensures RemovesAll(items, c) ==> Mentions(items, c)
    ensures forall v :: Names(items, c, v) ==> Mentions(items, c)
  {
  }

  lemma {:induction false} UnnamedSame(values: seq<Word>, items: seq<Item>, item: Item, c: Code)
    requires item.code != c || item.values.None?
    ensures Unnamed(values, items + [item], c) == Unnamed(values, items, c)
  {
    hide Names;
    if values != [] {
      NamesMore(items, item, c, values[0]);
      UnnamedSame(values[1..], items, item, c);
    }
  }

  lemma {:induction false} UnnamedMember(values: seq<Word>, items: seq<Item>, c: Code)
    ensures forall v :: v in Unnamed(values, items, c) <==> v in values && !Names(items, c, v)
  {
    hide Names;
    if values != [] {
      assert values == [values[0]] + values[1..];
      UnnamedMember(values[1..], items, c);
    }
  }

  lemma {:induction false} UnnamedWhole(values: seq<Word>, items: seq<Item>, c: Code)
    requires !Mentions(items, c)
    ensures Unnamed(values, items, c) == values
  {
    if values != [] { UnnamedWhole(values[1..], items, c); }
  }

  /** What is left of a code after removing a list of items: whether it survives, and
      with which values in which order. */
  lemma {:induction false} RemoveExact(start: Vcp, items: seq<Item>, c: Code)
    ensures c in EditItems(start, Remove, items) <==> Survives(start, items, c)
    ensures Survives(start, items, c) ==>
              EditItems(start, Remove, items)[c] ==
              if start[c].None? then None else Some(Unnamed(start[c].value, items, c))
    decreases |items|
  {
    if items == [] {
      if c in start && start[c].Some? { UnnamedWhole(start[c].value, items, c); }
    } else {
      var init, last := items[..|items| - 1], items[|items| - 1];
      assert items == init + [last];
      RemoveExact(start, init, c);
      RemoveStep(start, init, last, c);
    }
  }

  lemma RemoveStep(start: Vcp, init: seq<Item>, last: Item, c: Code)
    requires c in EditItems(start, Remove, init) <==> Survives(start, init, c)
    requires Survives(start, init, c) ==>
               EditItems(start, Remove, init)[c] ==
               if start[c].None? then None else Some(Unnamed(start[c].value, init, c))
    ensures var table := EditItem(EditItems(start, Remove, init), Remove, last);
            && (c in table <==> Survives(start, init + [last], c))
            && (Survives(start, init + [last], c) ==>
                  table[c] == if start[c].None? then None else Some(Unnamed(start[c].value, init + [last], c)))
  {
    hide Mentions, Names, RemovesAll, EditItems;
    NamesMore(init, last, c, 0);
    if c in start && start[c].Some? {
      var values := start[c].value;
      forall v: Word
        ensures Names(init + [last], c, v) <==>
                Names(init, c, v) || (last.code == c && last.values.Some? && v in last.values.value)
      { NamesMore(init, last, c, v); }
      UnnamedMember(values, init, c);
      if last.code == c && last.values.Some? {
        WithoutUnnamed(values, init, last, c);
        UnnamedMember(values, init + [last], c);
        var left := Unnamed(values, init + [last], c);
        assert left != [] ==> left[0] in left;
        RemovesMentions(init, c);
      } else {
        UnnamedSame(values, init, last, c);
      }
    }
  }

  /** Adding and removing a string: the type changes only by adding a string that
      names one; an added code has the list given last; a removed code keeps what was
      not named. */
  lemma ApplyExact(caps: CapsTable, edit: Edit, input: string, c: Code)
    requires Parse(input).Good?
    ensures var items := Parse(input).value.vcp;
            var r := Apply(caps, edit, input);
            && r.Some?
            && r.value.kind == (if edit.Add? && Parse(input).value.kind.Some? then Parse(input).value.kind.value
                                else caps.kind)
            && (edit.Add? ==> (c in r.value.vcp <==> c in caps.vcp || Mentions(items, c)))
            && (edit.Add? && !Mentions(items, c) && c in caps.vcp ==> r.value.vcp[c] == caps.vcp[c])
            && (edit.Add? ==> forall j | 0 <= j < |items| && items[j].code == c
                && (forall i | j < i < |items| :: items[i].code != c) ::
                  c in r.value.vcp && r.value.vcp[c] == items[j].values)
            && (edit.Remove? ==> (c in r.value.vcp <==> Survives(caps.vcp, items, c)))
            && (edit.Remove? && Survives(caps.vcp, items, c) ==>
                  r.value.vcp[c] == if caps.vcp[c].None? then None else Some(Unnamed(caps.vcp[c].value, items, c)))
  {
    hide ParseSections, EditItems, Survives, Mentions, Unnamed;
    var items := Parse(input).value.vcp;
    RemoveExact(caps.vcp, items, c);
    AddExact(caps.vcp, items, c);
  }

  lemma AddExact(start: Vcp, items: seq<Item>, c: Code)
    ensures var table := EditItems(start, Add, items);
            && (c in table <==> c in start || Mentions(items, c))
            && (!Mentions(items, c) && c in start ==> table[c] == start[c])
            && forall j | 0 <= j < |items| && items[j].code == c
                && (forall i | j < i < |items| :: items[i].code != c) ::
                 c in table && table[c] == items[j].values
  {
    hide EditItems, Mentions, Codes;
    CodesMention(items, c);
    var k := LastAddWins(start, items, c);
    forall j | 0 <= j < |items| && items[j].code == c && (forall i | j < i < |items| :: items[i].code != c)
      ensures j == k && c in Codes(items)
    { MentionedAt(items, c, j); }
  }

  lemma MentionedAt(items: seq<Item>, c: Code, j: nat)
    requires j < |items| && items[j].code == c
    ensures Mentions(items, c)
  {
    assert items[j] in items;
  }

  lemma {:induction false} CodesMention(items: seq<Item>, c: Code)
    ensures c in Codes(items) <==> Mentions(items, c)
    decreases |items|
  {
    if items != [] {
      var init, last := items[..|items| - 1], items[|items| - 1];
      assert items == init + [last];
      CodesMention(init, c);
      NamesMore(init, last, c, 0);
    }
  }
}
