/** When an expansion is refused, and what a load does in each mode. */
module LoadOutcome {
  import opened Base
  import opened Caps
  import opened Database
  import opened Loader
  import opened Inlining
  import opened IncludeCounts
  import Requirements
  import S = Session

  // ----- The children of a root -----

  /** Child i cannot be interpreted: it is required, or holds something required
      outside a controls element, or includes nothing, or is a second controls. */
  predicate Refuses(ns: seq<Node>, i: nat)
    requires i < |ns|
  {
    || ns[i].required || (ns[i].tag != "controls" && HasRequired(ns[i]))
    || (ns[i].tag == "include" && Attr(ns[i], "file").None?)
    || (ns[i].tag == "controls" && exists j | 0 <= j < i :: ns[j].tag == "controls")
  }

  predicate SomeContent(ns: seq<Node>) { exists n | n in ns :: n.tag == "controls" || n.tag == "include" }

  lemma NoRefusalConcat(es: seq<Event>, fs: seq<Event>)
    ensures NoRefusal(es + fs) <==> NoRefusal(es) && NoRefusal(fs)
  {
    assert forall e :: e in es + fs <==> e in es || e in fs;
  }

  lemma NoRefusalOne(e: Event)
    ensures NoRefusal([e]) <==> !e.Refused?
    ensures NoRefusal([])
  {
    assert e in [e];
  }

  /** A child refused, given whether a controls element came before. */
  predicate RefusesAfter(n: Node, seenControls: bool) {
    || n.required || (n.tag != "controls" && HasRequired(n))
    || (n.tag == "include" && Attr(n, "file").None?)
    || (n.tag == "controls" && seenControls)
  }

  lemma ChildOutcome(ctx: Context, n: Node, level: nat, seenControls: bool)
    requires level <= MAX_LEVEL
    ensures NoRefusal(FlattenOne(ctx, n, level, seenControls)) <==>
            && !RefusesAfter(n, seenControls)
            && (n.tag == "include" ==> NoRefusal(Flatten(ctx, Attr(n, "file").value, level + 1)))
  {
    hide Flatten, HasRequired;
    NoRefusalOne(Refused(Required));
    NoRefusalOne(Refused(Invalid));
    NoRefusalOne(CapsEdit(n));
    NoRefusalOne(ControlList(n));
    NoRefusalOne(Event.Unknown);
  }

  /** The includes among the children expand without a refusal. */
  ghost predicate IncludesExpand(ctx: Context, ns: seq<Node>, level: nat)
    requires level <= MAX_LEVEL
  {
    forall n | n in ns && n.tag == "include" && Attr(n, "file").Some? ::
      NoRefusal(Flatten(ctx, Attr(n, "file").value, level + 1))
  }

  /** A controls element among the first i children. */
  predicate Seen(ns: seq<Node>, i: nat) { exists j | 0 <= j < i && j < |ns| :: ns[j].tag == "controls" }

  predicate RefusesFrom(ns: seq<Node>, seenControls: bool) {
    exists i: nat | i < |ns| :: RefusesAfter(ns[i], seenControls || Seen(ns, i))
  }

  lemma SeenCons(ns: seq<Node>, i: nat)
    requires ns != [] && i > 0
    ensures Seen(ns, i) <==> ns[0].tag == "controls" || Seen(ns[1..], i - 1)
  {
    if j :| 0 <= j < i && j < |ns| && ns[j].tag == "controls" { if j > 0 { assert ns[1..][j - 1] == ns[j]; } }
    if j :| 0 <= j < i - 1 && j < |ns[1..]| && ns[1..][j].tag == "controls" { assert ns[j + 1].tag == "controls"; }
  }

  lemma RefusesFromCons(ns: seq<Node>, seenControls: bool)
    requires ns != []
    ensures RefusesFrom(ns, seenControls) <==>
            RefusesAfter(ns[0], seenControls) || RefusesFrom(ns[1..], seenControls || ns[0].tag == "controls")
  {
    hide RefusesAfter, Seen;
    var rest, seen := ns[1..], seenControls || ns[0].tag == "controls";
    NoneSeen(ns);
    if RefusesFrom(ns, seenControls) {
      var i: nat :| i < |ns| && RefusesAfter(ns[i], seenControls || Seen(ns, i));
      if i > 0 {
        SeenCons(ns, i);
        assert rest[i - 1] == ns[i] && RefusesAfter(rest[i - 1], seen || Seen(rest, i - 1));
      }
    }
    if RefusesAfter(ns[0], seenControls) { assert RefusesAfter(ns[0], seenControls || Seen(ns, 0)); }
    if RefusesFrom(rest, seen) {
      var i: nat :| i < |rest| && RefusesAfter(rest[i], seen || Seen(rest, i));
      SeenCons(ns, i + 1);
      assert ns[i + 1] == rest[i] && RefusesAfter(ns[i + 1], seenControls || Seen(ns, i + 1));
    }
  }

  lemma NoneSeen(ns: seq<Node>)
    ensures !Seen(ns, 0)
  {
  }

  lemma {:induction false} ChildrenOutcome(ctx: Context, ns: seq<Node>, level: nat, seenControls: bool, seenAny: bool)
    requires level <= MAX_LEVEL
    ensures NoRefusal(FlattenAll(ctx, ns, level, seenControls, seenAny)) <==>
            !RefusesFrom(ns, seenControls) && (seenAny || SomeContent(ns)) && IncludesExpand(ctx, ns, level)
    decreases |ns|
  {
    hide FlattenOne, Flatten, RefusesAfter, RefusesFrom, NoRefusal;
    if ns == [] {
      NoRefusalOne(Refused(Invalid));
      NothingRefuses(seenControls);
    } else {
      assert ns == [ns[0]] + ns[1..];
      var controls := seenControls || ns[0].tag == "controls";
      var any := seenAny || ns[0].tag == "controls" || ns[0].tag == "include";
      ChildOutcome(ctx, ns[0], level, seenControls);
      ChildrenOutcome(ctx, ns[1..], level, controls, any);
      NoRefusalConcat(FlattenOne(ctx, ns[0], level, seenControls), FlattenAll(ctx, ns[1..], level, controls, any));
      RefusesFromCons(ns, seenControls);
      NoFileRefuses(ns[0], seenControls);
    }
  }

  lemma NothingRefuses(seenControls: bool)
    ensures !RefusesFrom([], seenControls)
  {
  }

  lemma NoFileRefuses(n: Node, seenControls: bool)
    ensures n.tag == "include" && Attr(n, "file").None? ==> RefusesAfter(n, seenControls)
  {
  }

  // ----- An expansion -----

  predicate NameChar(c: char) { 'a' <= c <= 'z' || 'A' <= c <= 'Z' || '0' <= c <= '9' || c in "-_" }

  /** An expansion has no refusal exactly when the name is made of letters, digits,
      hyphens and underscores, at most fifteen includes lead to it, it stands for a
      root, no child of the root refuses, some child is a controls or an include, and
      every include expands without a refusal. */
  lemma ExpansionOutcome(ctx: Context, name: string, level: nat)
    ensures NoRefusal(Flatten(ctx, name, level)) <==>
            && name != "" && (forall c | c in name :: NameChar(c)) && level <= 15
            && FindRoot(ctx, name, level == 0).Found?
            && var children := FindRoot(ctx, name, level == 0).root.children;
               && (forall i: nat | i < |children| :: !Refuses(children, i)) && SomeContent(children)
               && IncludesExpand(ctx, children, level)
  {
    hide FlattenAll, FindRoot, IncludesExpand, Refuses;
    NameMeans(name);
    NoRefusalOne(Refused(InvalidName));
    NoRefusalOne(Visited);
    NoRefusalOne(Refused(TooDeep));
    var found := FindRoot(ctx, name, level == 0);
    if ValidName(name) && level <= MAX_LEVEL {
      if found.Found? {
        var children := found.root.children;
        ChildrenOutcome(ctx, children, level, false, false);
        RefusesMeans(children);
        NoRefusalOne(Opened(found.root));
        NoRefusalConcat([Opened(found.root)], FlattenAll(ctx, children, level, false, false));
        NoRefusalConcat([Visited], [Opened(found.root)] + FlattenAll(ctx, children, level, false, false));
      } else {
        NoRefusalOne(Refused(found.why));
        NoRefusalConcat([Visited], [Refused(found.why)]);
      }
    } else {
      NoRefusalConcat([Visited], [Refused(TooDeep)]);
    }
  }

  lemma NameMeans(name: string)
    ensures ValidName(name) <==> name != "" && forall c | c in name :: NameChar(c)
  {
    if ValidName(name) {
      forall c | c in name ensures NameChar(c) { var i :| 0 <= i < |name| && name[i] == c; }
    }
    if name != "" && forall c | c in name :: NameChar(c) {
      forall i | 0 <= i < |name| ensures IsNameChar(name[i]) { assert name[i] in name; }
    }
  }

  lemma RefusesMeans(ns: seq<Node>)
    ensures RefusesFrom(ns, false) <==> exists i: nat | i < |ns| :: Refuses(ns, i)
  {
    hide HasRequired;
    if i: nat :| i < |ns| && Refuses(ns, i) {
      if j :| 0 <= j < i && ns[j].tag == "controls" { assert Seen(ns, i); }
      assert RefusesAfter(ns[i], false || Seen(ns, i));
    }
    if i: nat :| i < |ns| && RefusesAfter(ns[i], false || Seen(ns, i)) { assert Refuses(ns, i); }
  }

  // ----- Modes -----

  /** A selected definition is loaded strictly whatever was asked; any other profile as
      asked. A strict load also needs an init mode; a failed one leaves everything as
      it was. Nothing is ever loaded in the validating mode. */
  lemma ModesMean(ctx: Context, name: string, caps: CapsTable, tolerant: bool)
    ensures var selected := ctx.monitorFile.Some? && ctx.monitorFile.value.pnpid == name;
            var asked := tolerant && !selected;
            var attempt := CreateDb(ctx, Start(ctx.options, caps), name, 0, Mode(asked, false));
            var r := S.Load(ctx, name, caps, tolerant);
            && (r.monitor.Some? <==> attempt.Done? && (asked || attempt.build.init != InitUnknown))
            && (r.monitor.Some? ==> r.caps == attempt.build.caps && !r.requirements)
            && (r.monitor.None? ==> r.caps == caps)
  {
    hide CreateDb, Requirements.Demanding, Arrange;
  }

  /** The start of a load: nothing visited, named, placed or taken. */
  lemma StartMeans(options: Options, caps: CapsTable)
    ensures var b := Start(options, caps);
            && b.visits == 0 && b.name == None && b.init == InitUnknown && b.defined == {} && b.caps == caps
            && |b.slots| == |Subgroups(options)| && forall k | 0 <= k < |b.slots| :: b.slots[k] == []
  {
  }
}
