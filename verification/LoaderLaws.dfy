/** What every run of the loader keeps. Each law is an induction over the flattened
    events, so it holds of the recursive build. */
module LoaderLaws {
  import opened Base
  import opened Caps
  import opened Database
  import opened Loader
  import opened Inlining

  // ----- Counting controls by address -----

  function CountIn(controls: seq<Control>, a: Code): nat {
    if controls == [] then 0 else (if controls[0].address == a then 1 else 0) + CountIn(controls[1..], a)
  }

  /** How many controls of the tree sit at an address. */
  function Count(slots: seq<seq<Control>>, a: Code): nat {
    if slots == [] then 0 else CountIn(slots[0], a) + Count(slots[1..], a)
  }

  lemma {:induction false} CountInAppend(controls: seq<Control>, c: Control, a: Code)
    ensures CountIn(controls + [c], a) == CountIn(controls, a) + if c.address == a then 1 else 0
  {
    if controls != [] {
      assert (controls + [c])[1..] == controls[1..] + [c];
      CountInAppend(controls[1..], c, a);
    } else {
      assert ([] + [c])[1..] == [];
    }
  }

  lemma {:induction false} CountInDrop(controls: seq<Control>, address: Code, a: Code)
    ensures CountIn(DropAddress(controls, address), a) == if a == address then 0 else CountIn(controls, a)
  {
    if controls != [] {
      CountInDrop(controls[1..], address, a);
      var rest := DropAddress(controls[1..], address);
      assert ([controls[0]] + rest)[1..] == rest;
    }
  }

  lemma {:induction false} CountPush(slots: seq<seq<Control>>, k: nat, c: Control, a: Code)
    requires k < |slots|
    ensures Count(slots[k := slots[k] + [c]], a) == Count(slots, a) + if c.address == a then 1 else 0
  {
    hide CountIn;
    CountInAppend(slots[k], c, a);
    var updated := slots[k := slots[k] + [c]];
    if k > 0 {
      CountPush(slots[1..], k - 1, c, a);
      assert updated[1..] == slots[1..][k - 1 := slots[k] + [c]];
    } else {
      assert updated[1..] == slots[1..];
    }
  }

  lemma {:induction false} CountDrop(slots: seq<seq<Control>>, dropped: seq<seq<Control>>, address: Code, a: Code)
    requires |dropped| == |slots| && forall k | 0 <= k < |slots| :: dropped[k] == DropAddress(slots[k], address)
    ensures Count(dropped, a) == if a == address then 0 else Count(slots, a)
  {
    hide CountIn, DropAddress;
    if slots != [] {
      CountInDrop(slots[0], address, a);
      CountDrop(slots[1..], dropped[1..], address, a);
    }
  }

  lemma CountSuppress(b: Build, address: Code, a: Code)
    ensures Count(Suppress(b, address).slots, a) == if a == address then 0 else Count(b.slots, a)
  {
    hide Count, DropAddress;
    CountDrop(b.slots, Suppress(b, address).slots, address, a);
  }

  ghost predicate InTree(slots: seq<seq<Control>>, x: Control) { exists k | 0 <= k < |slots| :: x in slots[k] }

  lemma {:induction false} DropMember(controls: seq<Control>, address: Code, x: Control)
    ensures x in DropAddress(controls, address) <==> x in controls && x.address != address
  {
    if controls != [] { DropMember(controls[1..], address, x); }
  }

  lemma {:induction false} CountZero(slots: seq<seq<Control>>, a: Code, x: Control)
    requires Count(slots, a) == 0 && InTree(slots, x)
    ensures x.address != a
  {
    var k :| 0 <= k < |slots| && x in slots[k];
    if k == 0 {
      CountInZero(slots[0], a, x);
    } else {
      assert x in slots[1..][k - 1];
      CountZero(slots[1..], a, x);
    }
  }

  lemma {:induction false} CountInZero(controls: seq<Control>, a: Code, x: Control)
    requires CountIn(controls, a) == 0 && x in controls
    ensures x.address != a
  {
    if x != controls[0] { CountInZero(controls[1..], a, x); }
  }

  // ----- What one step may do -----

  /** At most one control per address, and only at defined addresses. */
  ghost predicate Sound(b: Build) {
    forall a: Code :: Count(b.slots, a) <= if a in b.defined then 1 else 0
  }

  /** Suppressed for good: defined, with no control. */
  ghost predicate Gone(b: Build, a: Code) { a in b.defined && Count(b.slots, a) == 0 }

  /** Changes of the tree and the defined addresses only; addresses once defined
      stay so, and gain no control. */
  ghost predicate Later(b: Build, c: Build) {
    && Frame(b, c) && Sound(c) && b.defined <= c.defined
    && (forall x :: InTree(c.slots, x) && x.address in b.defined ==> InTree(b.slots, x))
    && forall x :: InTree(b.slots, x) ==> InTree(c.slots, x) || Gone(c, x.address)
  }

  ghost predicate Frame(b: Build, c: Build) {
    c.visits == b.visits && c.name == b.name && c.init == b.init && c.caps == b.caps && |c.slots| == |b.slots|
  }

  lemma LaterTransitive(b: Build, c: Build, d: Build)
    requires Later(b, c) && Later(c, d)
    ensures Later(b, d)
  {
    hide InTree, Sound, Gone;
    forall x | InTree(b.slots, x) ensures InTree(d.slots, x) || Gone(d, x.address) {
      if !InTree(c.slots, x) { GoneStays(c, d, x.address); }
    }
  }

  /** A suppressed address stays suppressed. */
  lemma GoneStays(b: Build, c: Build, a: Code)
    requires Gone(b, a) && b.defined <= c.defined
    requires forall x :: InTree(c.slots, x) && x.address in b.defined ==> InTree(b.slots, x)
    ensures Gone(c, a)
  {
    if Count(c.slots, a) > 0 {
      var x := Witness(c.slots, a);
      CountZero(b.slots, a, x);
      assert false;
    }
  }

  lemma {:induction false} Witness(slots: seq<seq<Control>>, a: Code) returns (x: Control)
    requires Count(slots, a) > 0
    ensures InTree(slots, x) && x.address == a
  {
    if CountIn(slots[0], a) > 0 {
      x := WitnessIn(slots[0], a);
      assert x in slots[0];
    } else {
      x := Witness(slots[1..], a);
      var k :| 0 <= k < |slots[1..]| && x in slots[1..][k];
      assert x in slots[k + 1];
    }
  }

  lemma {:induction false} WitnessIn(controls: seq<Control>, a: Code) returns (x: Control)
    requires CountIn(controls, a) > 0
    ensures x in controls && x.address == a
  {
    if controls[0].address == a { x := controls[0]; } else { x := WitnessIn(controls[1..], a); }
  }

  lemma SuppressLater(b: Build, address: Code)
    requires Sound(b)
    ensures Later(b, Suppress(b, address)) && Gone(Suppress(b, address), address)
  {
    hide Count, DropAddress;
    var c := Suppress(b, address);
    forall a: Code { CountSuppress(b, address, a); }
    forall x | InTree(c.slots, x) ensures InTree(b.slots, x) {
      var k :| 0 <= k < |c.slots| && x in c.slots[k];
      DropMember(b.slots[k], address, x);
      assert x in b.slots[k];
    }
    forall x | InTree(b.slots, x) && x.address != address ensures InTree(c.slots, x) {
      var k :| 0 <= k < |b.slots| && x in b.slots[k];
      DropMember(b.slots[k], address, x);
      assert x in c.slots[k];
    }
  }

  ghost function Reserved(ns: seq<Node>): set<Code> {
    if ns == [] then {}
    else
      var rest := Reserved(ns[1..]);
      var address := ParseAddress(Attr(ns[0], "address"));
      if HasRequired(ns[0]) && address.Some? then rest + {address.value} else rest
  }

  lemma {:induction false} ReserveLater(b: Build, ns: seq<Node>)
    requires Sound(b) && Reserve(b, ns).Done?
    ensures Later(b, Reserve(b, ns).build) && forall a | a in Reserved(ns) :: Gone(Reserve(b, ns).build, a)
    decreases |ns|
  {
    hide Count, Suppress, Gone, InTree, Sound, ParseAddress;
    if ns == [] {
      LaterReflexive(b);
    } else if !HasRequired(ns[0]) {
      ReserveLater(b, ns[1..]);
    } else {
      var address := ParseAddress(Attr(ns[0], "address")).value;
      SuppressLater(b, address);
      var c := Suppress(b, address);
      ReserveLater(c, ns[1..]);
      LaterTransitive(b, c, Reserve(c, ns[1..]).build);
      GoneStays(c, Reserve(c, ns[1..]).build, address);
    }
  }

  lemma LaterReflexive(b: Build)
    requires Sound(b)
    ensures Later(b, b)
  {
  }

  ghost function BlockedAddresses(options: Options, controls: seq<MonitorControl>): set<Code> {
    if controls == [] then {}
    else
      var rest := BlockedAddresses(options, controls[1..]);
      var address := ParseAddress(controls[0].rawAddress);
      if Blocked(options, controls[0].id) && address.Some? then rest + {address.value} else rest
  }

  lemma {:induction false} BlockLater(b: Build, options: Options, controls: seq<MonitorControl>)
    requires Sound(b) && Block(b, options, controls).Done?
    ensures Later(b, Block(b, options, controls).build)
    ensures forall a | a in BlockedAddresses(options, controls) :: Gone(Block(b, options, controls).build, a)
    decreases |controls|
  {
    hide Count, Suppress, Gone, InTree, Sound, ParseAddress, Blocked;
    if controls == [] {
      LaterReflexive(b);
    } else if !Blocked(options, controls[0].id) {
      BlockLater(b, options, controls[1..]);
    } else {
      var address := ParseAddress(controls[0].rawAddress).value;
      SuppressLater(b, address);
      var c := Suppress(b, address);
      BlockLater(c, options, controls[1..]);
      LaterTransitive(b, c, Block(c, options, controls[1..]).build);
      GoneStays(c, Block(c, options, controls[1..]).build, address);
    }
  }

  lemma PushLater(b: Build, slot: nat, control: Control)
    requires Sound(b) && slot < |b.slots| && control.address !in b.defined
    ensures Later(b, b.(slots := b.slots[slot := b.slots[slot] + [control]], defined := b.defined + {control.address}))
  {
    hide Count;
    var c := b.(slots := b.slots[slot := b.slots[slot] + [control]], defined := b.defined + {control.address});
    forall a: Code { CountPush(b.slots, slot, control, a); }
    forall x | InTree(c.slots, x) && x.address in b.defined ensures InTree(b.slots, x) {
      var k :| 0 <= k < |c.slots| && x in c.slots[k];
      assert x in b.slots[k];
    }
    forall x | InTree(b.slots, x) ensures InTree(c.slots, x) {
      var k :| 0 <= k < |b.slots| && x in b.slots[k];
      assert x in c.slots[k];
    }
  }

  lemma PlaceOneLater(b: Build, slot: nat, oc: OptionControl, controls: seq<MonitorControl>, mode: Mode)
    requires Sound(b) && !mode.validateAll && slot < |b.slots| && PlaceOne(b, slot, oc, controls, mode).Done?
    ensures Later(b, PlaceOne(b, slot, oc, controls, mode).build)
  {
    hide Count, InTree, Sound, ParseAddress, ControlValues, ParseDelay, Find;
    var o := PlaceOne(b, slot, oc, controls, mode);
    if o == Done(b) {
      LaterReflexive(b);
    } else {
      var mc := Find(controls, oc.id).value;
      var values, delay := ControlValues(oc, mc.values, mode.tolerant).value, ParseDelay(mc.rawDelay).value;
      var address := ParseAddress(mc.rawAddress).value;
      PushLater(b, slot, Control(oc.id, oc.name, address, delay, oc.controlType, oc.refresh, values));
    }
  }

  lemma {:induction false} PlaceSlotLater(b: Build, slot: nat, ocs: seq<OptionControl>, controls: seq<MonitorControl>,
                                          mode: Mode)
    requires Sound(b) && !mode.validateAll && slot < |b.slots| && PlaceSlot(b, slot, ocs, controls, mode).Done?
    ensures Later(b, PlaceSlot(b, slot, ocs, controls, mode).build)
    decreases |ocs|
  {
    hide InTree, Sound, PlaceOne;
    if ocs == [] {
      LaterReflexive(b);
    } else {
      PlaceOneLater(b, slot, ocs[0], controls, mode);
      var c := PlaceOne(b, slot, ocs[0], controls, mode).build;
      PlaceSlotLater(c, slot, ocs[1..], controls, mode);
      LaterTransitive(b, c, PlaceSlot(c, slot, ocs[1..], controls, mode).build);
    }
  }

  lemma {:induction false} PlaceAllLater(b: Build, slot: nat, subgroups: seq<OptionSubgroup>,
                                         controls: seq<MonitorControl>, mode: Mode)
    requires Sound(b) && !mode.validateAll && slot + |subgroups| <= |b.slots|
             && PlaceAll(b, slot, subgroups, controls, mode).Done?
    ensures Later(b, PlaceAll(b, slot, subgroups, controls, mode).build)
    decreases |subgroups|
  {
    hide InTree, Sound, PlaceSlot;
    if subgroups == [] {
      LaterReflexive(b);
    } else {
      PlaceSlotLater(b, slot, subgroups[0].controls, controls, mode);
      var c := PlaceSlot(b, slot, subgroups[0].controls, controls, mode).build;
      PlaceAllLater(c, slot + 1, subgroups[1..], controls, mode);
      LaterTransitive(b, c, PlaceAll(c, slot + 1, subgroups[1..], controls, mode).build);
    }
  }

  /** The addresses a controls element takes out of use. */
  ghost function SuppressedBy(options: Options, n: Node): set<Code> {
    Reserved(n.children) + BlockedAddresses(options, MonitorControls(n.children))
  }

  lemma ControlsLater(b: Build, options: Options, n: Node, mode: Mode)
    requires Sound(b) && !mode.validateAll && |b.slots| == |Subgroups(options)|
             && ControlsElement(b, options, n, mode).Done?
    ensures Later(b, ControlsElement(b, options, n, mode).build)
    ensures forall a | a in SuppressedBy(options, n) :: Gone(ControlsElement(b, options, n, mode).build, a)
  {
    hide Gone, InTree, Sound, Reserve, Block, PlaceAll, AllMatched, RequiredBeside, Reserved, BlockedAddresses;
    var b1 := Reserve(b, n.children).build;
    ReserveLater(b, n.children);
    var controls := MonitorControls(n.children);
    var b2 := Block(b1, options, controls).build;
    BlockLater(b1, options, controls);
    var b3 := PlaceAll(b2, 0, Subgroups(options), controls, mode).build;
    PlaceAllLater(b2, 0, Subgroups(options), controls, mode);
    LaterTransitive(b1, b2, b3);
    LaterTransitive(b, b1, b3);
    forall a | a in SuppressedBy(options, n) ensures Gone(b3, a) {
      if a in Reserved(n.children) { GoneStays(b1, b3, a); } else { GoneStays(b2, b3, a); }
    }
  }

  // ----- Whole runs -----

  /** What a run keeps of the tree, whatever else it changes. */
  ghost predicate Onward(b: Build, c: Build) {
    && Sound(c) && |c.slots| == |b.slots| && b.defined <= c.defined
    && (forall x :: InTree(c.slots, x) && x.address in b.defined ==> InTree(b.slots, x))
    && forall x :: InTree(b.slots, x) ==> InTree(c.slots, x) || Gone(c, x.address)
  }

  ghost function Suppressed(options: Options, es: seq<Event>): set<Code> {
    if es == [] then {}
    else (if es[0].ControlList? then SuppressedBy(options, es[0].n) else {}) + Suppressed(options, es[1..])
  }

  lemma StepOnward(options: Options, mode: Mode, b: Build, e: Event)
    requires Sound(b) && !mode.validateAll && |b.slots| == |Subgroups(options)| && Step(options, mode, b, e).Done?
    ensures Onward(b, Step(options, mode, b, e).build)
    ensures e.ControlList? ==> forall a | a in SuppressedBy(options, e.n) :: Gone(Step(options, mode, b, e).build, a)
  {
    hide InTree, Gone, ControlsElement, SuppressedBy, EditCaps, Count;
    if e.ControlList? { ControlsLater(b, options, e.n, mode); }
  }

  /** Over every successful normal run: at most one control per address; defined
      addresses only grow; a control at an address already defined was there before
      (the earliest eligible definition wins) and is removed only with its whole
      address; and every address of a required or
      shared-unavailable control met anywhere in the run ends without a control,
      whether it was met before or after a conflicting definition. */
  lemma {:induction false} RunOnward(options: Options, mode: Mode, b: Build, es: seq<Event>)
    requires Sound(b) && !mode.validateAll && |b.slots| == |Subgroups(options)| && Run(options, mode, b, es).Done?
    ensures Onward(b, Run(options, mode, b, es).build)
    ensures forall a | a in Suppressed(options, es) :: Gone(Run(options, mode, b, es).build, a)
    decreases |es|
  {
    hide InTree, Gone, Sound, Step, SuppressedBy;
    if es != [] {
      StepOnward(options, mode, b, es[0]);
      var c := Step(options, mode, b, es[0]).build;
      RunOnward(options, mode, c, es[1..]);
      var d := Run(options, mode, c, es[1..]).build;
      forall x | InTree(b.slots, x) ensures InTree(d.slots, x) || Gone(d, x.address) {
        if !InTree(c.slots, x) { GoneStays(c, d, x.address); }
      }
      forall a | a in Suppressed(options, es) ensures Gone(d, a) {
        if a !in Suppressed(options, es[1..]) { GoneStays(c, d, a); }
      }
    }
  }

  // ----- Why placing fails -----

  lemma {:induction false} PlaceSlotFails(b: Build, slot: nat, ocs: seq<OptionControl>, controls: seq<MonitorControl>,
                                          mode: Mode)
    ensures var o := PlaceSlot(b, slot, ocs, controls, mode); o.Failed? ==> o.why == Invalid
    decreases |ocs|
  {
    hide ControlValues, ParseAddress, ParseDelay;
    if ocs != [] {
      var o := PlaceOne(b, slot, ocs[0], controls, mode);
      if o.Done? { PlaceSlotFails(o.build, slot, ocs[1..], controls, mode); }
    }
  }

  lemma {:induction false} PlaceAllFails(b: Build, slot: nat, subgroups: seq<OptionSubgroup>,
                                         controls: seq<MonitorControl>, mode: Mode)
    ensures var o := PlaceAll(b, slot, subgroups, controls, mode); o.Failed? ==> o.why == Invalid
    decreases |subgroups|
  {
    hide PlaceSlot;
    if subgroups != [] {
      PlaceSlotFails(b, slot, subgroups[0].controls, controls, mode);
      var o := PlaceSlot(b, slot, subgroups[0].controls, controls, mode);
      if o.Done? { PlaceAllFails(o.build, slot + 1, subgroups[1..], controls, mode); }
    }
  }

  // ----- What a run leaves in the other fields -----

  function FirstName(name: Option<string>, es: seq<Event>): Option<string>
    decreases |es|
  {
    if es == [] then name
    else FirstName(if name.None? && es[0].Opened? then Attr(es[0].root, "name") else name, es[1..])
  }

  /** The init mode of the first profile, in visit order, that sets one. */
  function FirstInit(init: Init, es: seq<Event>): Init
    decreases |es|
  {
    if es == [] then init
    else
      var own := if es[0].Opened? && InitOf(es[0].root).Some? then InitOf(es[0].root).value else InitUnknown;
      FirstInit(if init.InitUnknown? then own else init, es[1..])
  }

  /** All capability edits, in visit order. */
  function Edits(caps: CapsTable, es: seq<Event>): Option<CapsTable>
    decreases |es|
  {
    if es == [] then Some(caps)
    else if !es[0].CapsEdit? then Edits(caps, es[1..])
    else
      match EditCaps(caps, Remove, Attr(es[0].n, "remove"))
      case None => None
      case Some(caps1) =>
        match EditCaps(caps1, Add, Attr(es[0].n, "add"))
        case None => None
        case Some(caps2) => Edits(caps2, es[1..])
  }

  function Visits(es: seq<Event>): nat { if es == [] then 0 else (if es[0].Visited? then 1 else 0) + Visits(es[1..]) }

  lemma {:induction false} SuppressFrame(b: Build, ns: seq<Node>)
    requires Reserve(b, ns).Done?
    ensures Frame(b, Reserve(b, ns).build)
    decreases |ns|
  {
    hide HasRequired, ParseAddress;
    if ns != [] {
      if HasRequired(ns[0]) { SuppressFrame(Suppress(b, ParseAddress(Attr(ns[0], "address")).value), ns[1..]); }
      else { SuppressFrame(b, ns[1..]); }
    }
  }

  lemma {:induction false} BlockFrame(b: Build, options: Options, controls: seq<MonitorControl>)
    requires Block(b, options, controls).Done?
    ensures Frame(b, Block(b, options, controls).build)
    decreases |controls|
  {
    hide Blocked, ParseAddress;
    if controls != [] {
      if Blocked(options, controls[0].id) { BlockFrame(Suppress(b, ParseAddress(controls[0].rawAddress).value),
                                                       options, controls[1..]); }
      else { BlockFrame(b, options, controls[1..]); }
    }
  }

  lemma {:induction false} PlaceSlotFrame(b: Build, slot: nat, ocs: seq<OptionControl>, controls: seq<MonitorControl>,
                                          mode: Mode)
    requires PlaceSlot(b, slot, ocs, controls, mode).Done?
    ensures Frame(b, PlaceSlot(b, slot, ocs, controls, mode).build)
    decreases |ocs|
  {
    hide ControlValues, ParseAddress, ParseDelay;
    if ocs != [] { PlaceSlotFrame(PlaceOne(b, slot, ocs[0], controls, mode).build, slot, ocs[1..], controls, mode); }
  }

  lemma {:induction false} PlaceAllFrame(b: Build, slot: nat, subgroups: seq<OptionSubgroup>,
                                         controls: seq<MonitorControl>, mode: Mode)
    requires PlaceAll(b, slot, subgroups, controls, mode).Done?
    ensures Frame(b, PlaceAll(b, slot, subgroups, controls, mode).build)
    decreases |subgroups|
  {
    hide PlaceSlot;
    if subgroups != [] {
      PlaceSlotFrame(b, slot, subgroups[0].controls, controls, mode);
      PlaceAllFrame(PlaceSlot(b, slot, subgroups[0].controls, controls, mode).build, slot + 1, subgroups[1..],
                    controls, mode);
    }
  }

  lemma ControlsFrame(b: Build, options: Options, n: Node, mode: Mode)
    requires ControlsElement(b, options, n, mode).Done?
    ensures Frame(b, ControlsElement(b, options, n, mode).build)
  {
    hide Reserve, Block, PlaceAll, AllMatched, RequiredBeside;
    SuppressFrame(b, n.children);
    var b1 := Reserve(b, n.children).build;
    var controls := MonitorControls(n.children);
    BlockFrame(b1, options, controls);
    PlaceAllFrame(Block(b1, options, controls).build, 0, Subgroups(options), controls, mode);
  }

  /** After any successful run, in every mode: the visits counted, the first name
      and the first init found, and all capability edits applied in visit order. */
  lemma {:induction false} RunSummary(options: Options, mode: Mode, b: Build, es: seq<Event>)
    requires Run(options, mode, b, es).Done?
    ensures var c := Run(options, mode, b, es).build;
            && c.visits == b.visits + Visits(es) && c.name == FirstName(b.name, es) && c.init == FirstInit(b.init, es)
            && Edits(b.caps, es) == Some(c.caps) && |c.slots| == |b.slots|
    decreases |es|
  {
    hide ControlsElement, EditCaps;
    if es != [] {
      if es[0].ControlList? { ControlsFrame(b, options, es[0].n, mode); }
      RunSummary(options, mode, Step(options, mode, b, es[0]).build, es[1..]);
    }
  }
}
