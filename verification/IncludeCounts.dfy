/** Static and dynamic include counts agree: what the sweep computes about the
    include graph is what a load then does. */
module IncludeCounts {
  import opened Base
  import opened Database
  import opened Loader
  import opened Inlining
  import G = IncludeGraph
  import LoaderLaws

  function IncludesOf(ns: seq<Node>): seq<Option<string>> {
    if ns == [] then []
    else
      var rest := IncludesOf(ns[1..]);
      if ns[0].tag == "include" then [Attr(ns[0], "file")] + rest else rest
  }

  /** The graph the sweep works on. */
  function GraphOf(ctx: Context): G.Graph {
    map id | id in ctx.profiles && ctx.profiles[id].Some? :: IncludesOf(ctx.profiles[id].value.children)
  }

  /** A name that stands for the installed profile. */
  predicate Installed(ctx: Context, name: string, level: nat) { level > 0 || !Overrides(ctx, name) }

  lemma {:induction false} ExpansionCons(g: G.Graph, t: Option<string>, ts: seq<Option<string>>, h: nat)
    ensures G.ExpansionAll(g, [t] + ts, h) == G.ExpansionAll(g, ts, h) + if t.Some? then G.Expansion(g, t.value, h)
            else 0
    decreases |ts|
  {
    hide G.Expansion;
    var all := [t] + ts;
    if ts == [] {
      assert G.Init(all) == [];
    } else {
      ExpansionCons(g, t, G.Init(ts), h);
      assert G.Init(all) == [t] + G.Init(ts);
    }
  }

  lemma {:induction false} VisitsConcat(es: seq<Event>, fs: seq<Event>)
    ensures LoaderLaws.Visits(es + fs) == LoaderLaws.Visits(es) + LoaderLaws.Visits(fs)
  {
    if es == [] {
      assert es + fs == fs;
    } else {
      assert (es + fs)[1..] == es[1..] + fs;
      VisitsConcat(es[1..], fs);
    }
  }

  lemma VisitsOne(e: Event)
    ensures LoaderLaws.Visits([e]) == if e.Visited? then 1 else 0
  {
    assert [e][1..] == [];
  }

  // ----- Bounds -----

  /** What holds of an expansion below a resolved profile. */
  ghost predicate Within(g: G.Graph, es: seq<Event>, visits: nat, shallow: bool) {
    LoaderLaws.Visits(es) <= visits && (shallow ==> Refused(TooDeep) !in es) && Refused(VisitLimit) !in es
  }

  lemma {:induction false} FlattenWithin(ctx: Context, bounded: bool, name: string, level: nat, h: nat)
    requires Installed(ctx, name, level) && G.Resolves(GraphOf(ctx), bounded, name, h)
    ensures Within(GraphOf(ctx), Flatten(ctx, name, level), G.Expansion(GraphOf(ctx), name, h),
                   level + h <= MAX_LEVEL + 1)
    decreases Rank(level), 1, 0
  {
    hide FlattenAll, G.ExpansionAll, LoaderLaws.Visits;
    VisitsOne(Visited);
    if !ValidName(name) {
      VisitsOne(Refused(InvalidName));
    } else if level <= MAX_LEVEL {
      var lookup := FindRoot(ctx, name, level == 0);
      if lookup.Found? {
        var ns := lookup.root.children;
        VisitsOne(Opened(lookup.root));
        FlattenAllWithin(ctx, bounded, ns, level, h, false, false);
        var rest := FlattenAll(ctx, ns, level, false, false);
        VisitsConcat([Opened(lookup.root)], rest);
        VisitsConcat([Visited], [Opened(lookup.root)] + rest);
      } else {
        VisitsOne(Refused(lookup.why));
        VisitsConcat([Visited], [Refused(lookup.why)]);
      }
    } else {
      VisitsOne(Refused(TooDeep));
      VisitsConcat([Visited], [Refused(TooDeep)]);
    }
  }

  lemma {:induction false} FlattenAllWithin(ctx: Context, bounded: bool, ns: seq<Node>, level: nat, h: nat,
                                            seenControls: bool, seenAny: bool)
    requires level <= MAX_LEVEL && h > 0
    requires forall t | t in IncludesOf(ns) :: t.Some? && G.Resolves(GraphOf(ctx), bounded, t.value, h - 1)
    ensures Within(GraphOf(ctx), FlattenAll(ctx, ns, level, seenControls, seenAny),
                   G.ExpansionAll(GraphOf(ctx), IncludesOf(ns), h - 1), level + h <= MAX_LEVEL + 1)
    decreases Rank(level), 0, |ns|
  {
    hide G.Resolves, G.Expansion, G.ExpansionAll, FlattenOne, LoaderLaws.Visits, GraphOf;
    var g := GraphOf(ctx);
    if ns == [] {
      VisitsOne(Refused(Invalid));
      VisitsNone();
    } else {
      var controls := seenControls || ns[0].tag == "controls";
      var any := seenAny || ns[0].tag == "controls" || ns[0].tag == "include";
      var one, rest := FlattenOne(ctx, ns[0], level, seenControls), FlattenAll(ctx, ns[1..], level, controls, any);
      FlattenAllWithin(ctx, bounded, ns[1..], level, h, controls, any);
      VisitsConcat(one, rest);
      if ns[0].tag == "include" { ExpansionCons(g, Attr(ns[0], "file"), IncludesOf(ns[1..]), h - 1); }
      FlattenOneWithin(ctx, bounded, ns[0], level, h, seenControls);
    }
  }

  lemma VisitsNone()
    ensures LoaderLaws.Visits([]) == 0
  {
  }

  lemma {:induction false} FlattenOneWithin(ctx: Context, bounded: bool, n: Node, level: nat, h: nat,
                                            seenControls: bool)
    requires level <= MAX_LEVEL && h > 0
    requires n.tag == "include" ==>
             Attr(n, "file").Some? && G.Resolves(GraphOf(ctx), bounded, Attr(n, "file").value, h - 1)
    ensures Within(GraphOf(ctx), FlattenOne(ctx, n, level, seenControls),
                   if n.tag == "include" then G.Expansion(GraphOf(ctx), Attr(n, "file").value, h - 1) else 0,
                   level + h <= MAX_LEVEL + 1)
    decreases Rank(level), 0, 0
  {
    hide G.Resolves, G.Expansion, Flatten, HasRequired, LoaderLaws.Visits, GraphOf;
    forall e { VisitsOne(e); }
    if n.tag == "include" { FlattenWithin(ctx, bounded, Attr(n, "file").value, level + 1, h - 1); }
  }

  // ----- Exact counts -----

  ghost predicate NoRefusal(es: seq<Event>) { forall e | e in es :: !e.Refused? }

  lemma {:induction false} FlattenExact(ctx: Context, name: string, level: nat)
    requires Installed(ctx, name, level) && NoRefusal(Flatten(ctx, name, level))
    ensures level <= MAX_LEVEL && G.Resolves(GraphOf(ctx), false, name, MAX_LEVEL + 1 - level)
    ensures LoaderLaws.Visits(Flatten(ctx, name, level)) == G.Expansion(GraphOf(ctx), name, MAX_LEVEL + 1 - level)
    decreases Rank(level), 1, 0
  {
    hide FlattenAll, G.ExpansionAll, NoRefusal, LoaderLaws.Visits;
    var es := Flatten(ctx, name, level);
    if !ValidName(name) {
      Refusal(es, 0);
    } else if level > MAX_LEVEL {
      Refusal(es, 1);
    } else {
      var lookup := FindRoot(ctx, name, level == 0);
      if lookup.NoRoot? {
        Refusal(es, 1);
      } else {
        var ns := lookup.root.children;
        var rest := FlattenAll(ctx, ns, level, false, false);
        NoRefusalWithin(es, rest);
        FlattenAllExact(ctx, ns, level, false, false);
        VisitsOne(Opened(lookup.root));
        VisitsOne(Visited);
        VisitsConcat([Opened(lookup.root)], rest);
        VisitsConcat([Visited], [Opened(lookup.root)] + rest);
      }
    }
  }

  lemma Refusal(es: seq<Event>, i: nat)
    requires i < |es| && es[i].Refused?
    ensures !NoRefusal(es)
  {
    assert es[i] in es;
  }

  lemma NoRefusalWithin(es: seq<Event>, part: seq<Event>)
    requires NoRefusal(es) && forall e | e in part :: e in es
    ensures NoRefusal(part)
  {
  }

  lemma {:induction false} FlattenAllExact(ctx: Context, ns: seq<Node>, level: nat, seenControls: bool, seenAny: bool)
    requires level <= MAX_LEVEL && NoRefusal(FlattenAll(ctx, ns, level, seenControls, seenAny))
    ensures forall t | t in IncludesOf(ns) :: t.Some? && G.Resolves(GraphOf(ctx), false, t.value, MAX_LEVEL - level)
    ensures LoaderLaws.Visits(FlattenAll(ctx, ns, level, seenControls, seenAny))
         == G.ExpansionAll(GraphOf(ctx), IncludesOf(ns), MAX_LEVEL - level)
    decreases Rank(level), 0, |ns|
  {
    hide G.Resolves, G.Expansion, G.ExpansionAll, FlattenOne, NoRefusal, LoaderLaws.Visits, GraphOf;
    var g := GraphOf(ctx);
    var es := FlattenAll(ctx, ns, level, seenControls, seenAny);
    if ns == [] {
      if !seenAny { Refusal(es, 0); }
      else { VisitsNone(); ExpansionNone(g, MAX_LEVEL - level); }
    } else {
      var controls := seenControls || ns[0].tag == "controls";
      var any := seenAny || ns[0].tag == "controls" || ns[0].tag == "include";
      var one, rest := FlattenOne(ctx, ns[0], level, seenControls), FlattenAll(ctx, ns[1..], level, controls, any);
      NoRefusalWithin(es, one);
      NoRefusalWithin(es, rest);
      FlattenAllExact(ctx, ns[1..], level, controls, any);
      VisitsConcat(one, rest);
      FlattenOneExact(ctx, ns[0], level, seenControls);
      if ns[0].tag == "include" { ExpansionCons(g, Attr(ns[0], "file"), IncludesOf(ns[1..]), MAX_LEVEL - level); }
    }
  }

  lemma ExpansionNone(g: G.Graph, h: nat)
    ensures G.ExpansionAll(g, [], h) == 0
  {
  }

  lemma {:induction false} FlattenOneExact(ctx: Context, n: Node, level: nat, seenControls: bool)
    requires level <= MAX_LEVEL && NoRefusal(FlattenOne(ctx, n, level, seenControls))
    ensures n.tag == "include" ==>
            Attr(n, "file").Some? && G.Resolves(GraphOf(ctx), false, Attr(n, "file").value, MAX_LEVEL - level)
    ensures LoaderLaws.Visits(FlattenOne(ctx, n, level, seenControls))
         == if n.tag == "include" then G.Expansion(GraphOf(ctx), Attr(n, "file").value, MAX_LEVEL - level) else 0
    decreases Rank(level), 0, 0
  {
    hide G.Resolves, G.Expansion, Flatten, HasRequired, NoRefusal, LoaderLaws.Visits, GraphOf;
    var es := FlattenOne(ctx, n, level, seenControls);
    forall e { VisitsOne(e); }
    if n.tag == "include" && Attr(n, "file").Some? && !n.required && !HasRequired(n) {
      FlattenExact(ctx, Attr(n, "file").value, level + 1);
    } else if |es| == 1 && es[0].Refused? {
      Refusal(es, 0);
    }
  }

  // ----- Runs -----

  lemma {:induction false} ReserveFails(b: Build, ns: seq<Node>)
    ensures var o := Reserve(b, ns); o.Failed? ==> o.why == Required
    decreases |ns|
  {
    hide Suppress, ParseAddress, HasRequired;
    if ns != [] {
      ReserveFails(b, ns[1..]);
      var address := ParseAddress(Attr(ns[0], "address"));
      if address.Some? { ReserveFails(Suppress(b, address.value), ns[1..]); }
    }
  }

  lemma {:induction false} BlockFails(b: Build, options: Options, controls: seq<MonitorControl>)
    ensures var o := Block(b, options, controls); o.Failed? ==> o.why == Required
    decreases |controls|
  {
    hide Suppress, ParseAddress, Blocked;
    if controls != [] {
      BlockFails(b, options, controls[1..]);
      var address := ParseAddress(controls[0].rawAddress);
      if address.Some? { BlockFails(Suppress(b, address.value), options, controls[1..]); }
    }
  }

  lemma ControlsFails(b: Build, options: Options, n: Node, mode: Mode)
    ensures var o := ControlsElement(b, options, n, mode); o.Failed? ==> o.why == Required || o.why == Invalid
  {
    hide Reserve, Block, PlaceAll, AllMatched, RequiredBeside;
    ReserveFails(b, n.children);
    var o := Reserve(b, n.children);
    if o.Done? {
      var controls := MonitorControls(n.children);
      BlockFails(o.build, options, controls);
      var p := Block(o.build, options, controls);
      if p.Done? { LoaderLaws.PlaceAllFails(p.build, 0, Subgroups(options), controls, mode); }
    }
  }

  /** Where the limit errors can come from. */
  lemma {:induction false} RunLimits(options: Options, mode: Mode, b: Build, es: seq<Event>)
    ensures var o := Run(options, mode, b, es);
            && (o.Done? ==> NoRefusal(es))
            && (o == Failed(TooDeep) ==> Refused(TooDeep) in es)
            && (o == Failed(VisitLimit) ==> Refused(VisitLimit) in es || b.visits + LoaderLaws.Visits(es) > MAX_VISITS)
    decreases |es|
  {
    hide ControlsElement, EditCaps, NoRefusal;
    if es != [] {
      var o := Step(options, mode, b, es[0]);
      if es[0].ControlList? { ControlsFails(b, options, es[0].n, mode); }
      if o.Done? {
        if es[0].ControlList? { LoaderLaws.ControlsFrame(b, options, es[0].n, mode); }
        RunLimits(options, mode, o.build, es[1..]);
        if NoRefusal(es[1..]) { NoRefusalCons(es); }
      }
    } else {
      NoRefusalCons(es);
    }
  }

  lemma NoRefusalCons(es: seq<Event>)
    requires es == [] || (NoRefusal(es[1..]) && !es[0].Refused?)
    ensures NoRefusal(es)
  {
  }

  lemma {:induction false} RunVisits(options: Options, mode: Mode, b: Build, es: seq<Event>)
    requires Run(options, mode, b, es).Done? && b.visits <= MAX_VISITS
    ensures Run(options, mode, b, es).build.visits <= MAX_VISITS
    decreases |es|
  {
    hide ControlsElement, EditCaps;
    if es != [] {
      if es[0].ControlList? { LoaderLaws.ControlsFrame(b, options, es[0].n, mode); }
      RunVisits(options, mode, Step(options, mode, b, es[0]).build, es[1..]);
    }
  }

  /** A successful load of an installed profile makes exactly the visits the sweep
      counts for it, and its includes nest at most sixteen deep. */
  lemma SuccessfulVisits(ctx: Context, b: Build, name: string, mode: Mode)
    requires !Overrides(ctx, name) && CreateDb(ctx, b, name, 0, mode).Done?
    ensures G.Resolves(GraphOf(ctx), false, name, MAX_LEVEL + 1) && G.Kept(GraphOf(ctx), false, name)
    ensures CreateDb(ctx, b, name, 0, mode).build.visits ==
            b.visits + G.Saturate(G.Expansion(GraphOf(ctx), name, G.MAX_INCLUDE_DEPTH))
  {
    hide CreateDb, Flatten, Run, G.Resolves, G.Expansion, NoRefusal;
    var es := Flatten(ctx, name, 0);
    BuildIsFold(ctx, b, name, 0, mode);
    RunLimits(ctx.options, mode, b, es);
    LoaderLaws.RunSummary(ctx.options, mode, b, es);
    FlattenExact(ctx, name, 0);
    G.ResolvesMonotone(GraphOf(ctx), false, name, MAX_LEVEL + 1, G.MAX_INCLUDE_DEPTH);
    VisitsAtStart(ctx, b, name, mode);
    RunVisits(ctx.options, mode, b, es);
  }

  lemma VisitsAtStart(ctx: Context, b: Build, name: string, mode: Mode)
    requires CreateDb(ctx, b, name, 0, mode).Done?
    ensures b.visits < MAX_VISITS
  {
    hide FindRoot, OpenRoot, Elements;
  }

  /** The counters of one sweep over the profiles predict every successful load. */
  method PredictVisits(ctx: Context, ids: seq<string>) returns (visits: seq<nat>)
    requires G.Lists(ids, GraphOf(ctx))
    ensures |visits| == |ids|
    ensures forall i: nat, b: Build, mode: Mode | i < |ids| && !Overrides(ctx, ids[i])
            && CreateDb(ctx, b, ids[i], 0, mode).Done? ::
              CreateDb(ctx, b, ids[i], 0, mode).build.visits == b.visits + visits[i]
  {
    hide CreateDb, G.Kept, G.Expansion, G.Unkept, G.Resolves, GraphOf;
    var _, _, counted := G.InvalidProfiles(ids, GraphOf(ctx), false);
    visits := counted;
    forall i: nat, b: Build, mode: Mode | i < |ids| && !Overrides(ctx, ids[i])
        && CreateDb(ctx, b, ids[i], 0, mode).Done?
      ensures CreateDb(ctx, b, ids[i], 0, mode).build.visits == b.visits + visits[i]
    { SuccessfulVisits(ctx, b, ids[i], mode); }
  }

  /** A profile of height at most sixteen never meets the recursion-level error. */
  lemma NeverTooDeep(ctx: Context, b: Build, name: string, mode: Mode)
    requires !Overrides(ctx, name) && G.Resolves(GraphOf(ctx), false, name, MAX_LEVEL + 1)
    ensures CreateDb(ctx, b, name, 0, mode) != Failed(TooDeep)
  {
    hide CreateDb, Flatten, Run, G.Resolves, G.Expansion;
    BuildIsFold(ctx, b, name, 0, mode);
    RunLimits(ctx.options, mode, b, Flatten(ctx, name, 0));
    FlattenWithin(ctx, false, name, 0, MAX_LEVEL + 1);
  }

  /** No profile that the bounded sweep keeps ever meets the visit limit. */
  lemma NeverVisitLimit(ctx: Context, b: Build, name: string, mode: Mode)
    requires !Overrides(ctx, name) && b.visits == 0 && G.Kept(GraphOf(ctx), true, name)
    ensures CreateDb(ctx, b, name, 0, mode) != Failed(VisitLimit)
  {
    hide CreateDb, Flatten, Run, G.Expansion;
    BuildIsFold(ctx, b, name, 0, mode);
    RunLimits(ctx.options, mode, b, Flatten(ctx, name, 0));
    FlattenWithin(ctx, true, name, 0, G.MAX_INCLUDE_DEPTH);
  }
}
