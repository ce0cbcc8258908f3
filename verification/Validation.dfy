/** A validation run stands for every later run: if validating succeeds, so does
    loading with any capabilities. */
module Validation {
  import opened Caps
  import opened Database
  import opened Loader
  import opened Inlining
  import opened LoaderLaws

  const VALIDATE := Mode(false, true)
  const STRICT := Mode(false, false)

  lemma {:induction false} ReserveAlike(b: Build, c: Build, ns: seq<Node>)
    requires Reserve(b, ns).Done?
    ensures Reserve(c, ns).Done?
    decreases |ns|
  {
    hide HasRequired, ParseAddress, Suppress;
    if ns != [] {
      if HasRequired(ns[0]) {
        var address := ParseAddress(Attr(ns[0], "address")).value;
        ReserveAlike(Suppress(b, address), Suppress(c, address), ns[1..]);
      } else {
        ReserveAlike(b, c, ns[1..]);
      }
    }
  }

  lemma {:induction false} BlockAlike(b: Build, c: Build, options: Options, controls: seq<MonitorControl>)
    requires Block(b, options, controls).Done?
    ensures Block(c, options, controls).Done?
    decreases |controls|
  {
    hide Blocked, ParseAddress, Suppress;
    if controls != [] {
      if Blocked(options, controls[0].id) {
        var address := ParseAddress(controls[0].rawAddress).value;
        BlockAlike(Suppress(b, address), Suppress(c, address), options, controls[1..]);
      } else {
        BlockAlike(b, c, options, controls[1..]);
      }
    }
  }

  /** Validation skips no control, so it meets every error a real run can meet. */
  lemma {:induction false} PlaceSlotSimulated(b: Build, c: Build, slot: nat, ocs: seq<OptionControl>,
                                              controls: seq<MonitorControl>)
    requires PlaceSlot(b, slot, ocs, controls, VALIDATE).Done?
    ensures PlaceSlot(c, slot, ocs, controls, STRICT).Done?
    decreases |ocs|
  {
    hide ControlValues, ParseAddress, ParseDelay, Find;
    if ocs != [] {
      PlaceSlotSimulated(PlaceOne(b, slot, ocs[0], controls, VALIDATE).build,
                         PlaceOne(c, slot, ocs[0], controls, STRICT).build, slot, ocs[1..], controls);
    }
  }

  lemma {:induction false} PlaceAllSimulated(b: Build, c: Build, slot: nat, subgroups: seq<OptionSubgroup>,
                                             controls: seq<MonitorControl>)
    requires PlaceAll(b, slot, subgroups, controls, VALIDATE).Done?
    ensures PlaceAll(c, slot, subgroups, controls, STRICT).Done?
    decreases |subgroups|
  {
    hide PlaceSlot;
    if subgroups != [] {
      var ocs := subgroups[0].controls;
      PlaceSlotSimulated(b, c, slot, ocs, controls);
      PlaceAllSimulated(PlaceSlot(b, slot, ocs, controls, VALIDATE).build,
                        PlaceSlot(c, slot, ocs, controls, STRICT).build, slot + 1, subgroups[1..], controls);
    }
  }

  lemma ControlsSimulated(b: Build, c: Build, options: Options, n: Node)
    requires ControlsElement(b, options, n, VALIDATE).Done?
    ensures ControlsElement(c, options, n, STRICT).Done?
  {
    hide Reserve, Block, PlaceAll, AllMatched, RequiredBeside;
    var ns, controls := n.children, MonitorControls(n.children);
    ReserveAlike(b, c, ns);
    BlockAlike(Reserve(b, ns).build, Reserve(c, ns).build, options, controls);
    PlaceAllSimulated(Block(Reserve(b, ns).build, options, controls).build,
                      Block(Reserve(c, ns).build, options, controls).build, 0, Subgroups(options), controls);
  }

  /** The two runs agree on what does not depend on the capabilities. */
  ghost predicate Alike(b: Build, c: Build) { b.visits == c.visits && b.name == c.name && b.init == c.init }

  lemma StepSimulated(options: Options, b: Build, c: Build, e: Event)
    requires Alike(b, c) && Step(options, VALIDATE, b, e).Done?
    ensures Step(options, STRICT, c, e).Done?
            && Alike(Step(options, VALIDATE, b, e).build, Step(options, STRICT, c, e).build)
  {
    hide ControlsElement, Parse, EditItems;
    if e.ControlList? {
      ControlsSimulated(b, c, options, e.n);
      ControlsFrame(b, options, e.n, VALIDATE);
      ControlsFrame(c, options, e.n, STRICT);
    }
  }

  lemma {:induction false} RunSimulated(options: Options, b: Build, c: Build, es: seq<Event>)
    requires Alike(b, c) && Run(options, VALIDATE, b, es).Done?
    ensures Run(options, STRICT, c, es).Done?
            && Alike(Run(options, VALIDATE, b, es).build, Run(options, STRICT, c, es).build)
    decreases |es|
  {
    hide Step;
    if es != [] {
      StepSimulated(options, b, c, es[0]);
      RunSimulated(options, Step(options, VALIDATE, b, es[0]).build, Step(options, STRICT, c, es[0]).build, es[1..]);
    }
  }

  /** If validating a profile from any capabilities succeeds, a strict load from any
      other capabilities succeeds, with the same name, init mode and visit count. */
  lemma ValidationSimulates(ctx: Context, b: Build, c: Build, name: string, level: nat)
    requires Alike(b, c) && CreateDb(ctx, b, name, level, VALIDATE).Done?
    ensures CreateDb(ctx, c, name, level, STRICT).Done?
    ensures Alike(CreateDb(ctx, b, name, level, VALIDATE).build, CreateDb(ctx, c, name, level, STRICT).build)
  {
    hide CreateDb, Run, Flatten;
    BuildIsFold(ctx, b, name, level, VALIDATE);
    BuildIsFold(ctx, c, name, level, STRICT);
    RunSimulated(ctx.options, b, c, Flatten(ctx, name, level));
  }
}
