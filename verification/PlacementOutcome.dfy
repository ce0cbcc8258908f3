/** When a `controls` element is accepted, and why it is refused otherwise. */
module PlacementOutcome {
  import opened Base
  import opened Caps
  import opened Database
  import opened Loader
  import opened Placement
  import ElementMeaning
  import LoaderLaws
  import TreeExact

  // ----- Placing -----

  /** A shared control that the element has, both available. */
  predicate Meets(controls: seq<MonitorControl>, oc: OptionControl) {
    Find(controls, oc.id).Some? && !Find(controls, oc.id).value.unavailable && !oc.unavailable
  }

  /** Its values and its delay can be read. */
  predicate Usable(controls: seq<MonitorControl>, oc: OptionControl, tolerant: bool)
    requires Find(controls, oc.id).Some?
  {
    var mc := Find(controls, oc.id).value;
    ControlValues(oc, mc.values, tolerant).Some? && ParseDelay(mc.rawDelay).Some?
  }

  /** Place k causes no error: if the element has its control, the address is a byte,
      and if it wins its address, or everything is validated, the rest is usable. */
  predicate Fine(b: Build, controls: seq<MonitorControl>, ps: seq<Place>, k: nat, mode: Mode)
    requires k < |ps|
  {
    var oc := ps[k].oc;
    Meets(controls, oc) ==>
      && ParseAddress(Find(controls, oc.id).value.rawAddress).Some?
      && (mode.validateAll || Wins(b, controls, ps, k) ==> Usable(controls, oc, mode.tolerant))
  }

  lemma OneOutcome(b: Build, r: Build, controls: seq<MonitorControl>, ps: seq<Place>, k: nat, mode: Mode)
    requires k < |ps| && (mode.validateAll || Placed(b, controls, ps, k, mode, r))
    ensures PlaceOne(r, ps[k].slot, ps[k].oc, controls, mode).Done? <==> Fine(b, controls, ps, k, mode)
  {
    hide Find, ParseAddress, ParseDelay, ControlValues, Made, Winners, Claims;
    var claim := Claim(b.caps, controls, ps[k].oc);
    if !mode.validateAll && claim.Some? { ClaimedEarlier(b.caps, controls, ps, k, claim.value); }
  }

  lemma {:induction false} EachOutcome(b: Build, controls: seq<MonitorControl>, ps: seq<Place>, n: nat, mode: Mode)
    requires n <= |ps| && forall i | 0 <= i < |ps| :: ps[i].slot < |b.slots|
    ensures PlaceEach(b, ps[..n], controls, mode).Done? <==> forall k: nat | k < n :: Fine(b, controls, ps, k, mode)
  {
    hide PlaceOne, Fine, Placed;
    if n > 0 {
      EachOutcome(b, controls, ps, n - 1, mode);
      assert ps[..n][..n - 1] == ps[..n - 1];
      if PlaceEach(b, ps[..n - 1], controls, mode).Done? {
        if !mode.validateAll { PlacedEach(b, controls, ps, n - 1, mode); }
        OneOutcome(b, PlaceEach(b, ps[..n - 1], controls, mode).build, controls, ps, n - 1, mode);
      }
    }
  }

  /** Placing succeeds exactly when no place causes an error. */
  lemma PlacingOutcome(b: Build, subgroups: seq<OptionSubgroup>, controls: seq<MonitorControl>, mode: Mode)
    requires |b.slots| == |subgroups|
    ensures var ps := Places(0, subgroups);
            PlaceAll(b, 0, subgroups, controls, mode).Done? <==> forall k: nat | k < |ps| ::
                Fine(b, controls, ps, k, mode)
  {
    hide PlaceAll, PlaceEach, Fine;
    var ps := Places(0, subgroups);
    assert ps[..|ps|] == ps;
    AllIsPlaces(b, 0, subgroups, controls, mode);
    EachOutcome(b, controls, ps, |ps|, mode);
  }

  // ----- Reserving and blocking -----

  lemma {:induction false} ReserveOutcome(b: Build, ns: seq<Node>)
    ensures Reserve(b, ns).Done? <==> forall n | n in ns && HasRequired(n) :: ParseAddress(Attr(n, "address")).Some?
    ensures Reserve(b, ns).Failed? ==> Reserve(b, ns).why == Required
    decreases |ns|
  {
    hide HasRequired, ParseAddress, Suppress;
    if ns != [] {
      assert ns == [ns[0]] + ns[1..];
      var a := ParseAddress(Attr(ns[0], "address"));
      ReserveOutcome(b, ns[1..]);
      if a.Some? { ReserveOutcome(Suppress(b, a.value), ns[1..]); }
    }
  }

  lemma {:induction false} BlockOutcome(b: Build, options: Options, controls: seq<MonitorControl>)
    ensures Block(b, options, controls).Done? <==>
            forall mc | mc in controls && Blocked(options, mc.id) :: ParseAddress(mc.rawAddress).Some?
    ensures Block(b, options, controls).Failed? ==> Block(b, options, controls).why == Required
    decreases |controls|
  {
    hide Blocked, ParseAddress, Suppress;
    if controls != [] {
      assert controls == [controls[0]] + controls[1..];
      var a := ParseAddress(controls[0].rawAddress);
      BlockOutcome(b, options, controls[1..]);
      if a.Some? { BlockOutcome(Suppress(b, a.value), options, controls[1..]); }
    }
  }

  lemma {:induction false} ControlMember(ns: seq<Node>, mc: MonitorControl)
    ensures mc in MonitorControls(ns) <==> exists n | n in ns :: MonitorControlOf(n) == Some(mc)
  {
    hide MonitorControlOf;
    if ns != [] {
      assert ns == [ns[0]] + ns[1..];
      ControlMember(ns[1..], mc);
    }
  }

  /** A control child whose ID is unavailable in the options has no byte address. */
  predicate Unsafe(options: Options, n: Node) {
    && n.tag == "control" && Attr(n, "id").Some? && Blocked(options, Attr(n, "id").value)
    && ParseAddress(Attr(n, "address")).None?
  }

  lemma BlockingMeans(options: Options, ns: seq<Node>)
    ensures (forall mc | mc in MonitorControls(ns) && Blocked(options, mc.id) :: ParseAddress(mc.rawAddress).Some?) <==>
            forall n | n in ns :: !Unsafe(options, n)
  {
    hide Blocked, ParseAddress, MonitorValues, HasRequired, MonitorControls;
    forall mc { ControlMember(ns, mc); }
    if n :| n in ns && Unsafe(options, n) {
      var mc := MonitorControlOf(n).value;
      assert mc in MonitorControls(ns);
    }
    if mc :| mc in MonitorControls(ns) && Blocked(options, mc.id) && ParseAddress(mc.rawAddress).None? {
      var n :| n in ns && MonitorControlOf(n) == Some(mc);
      assert Unsafe(options, n);
    }
  }

  // ----- The element -----

  /** Something required that cannot be isolated by its address. */
  predicate Unisolated(options: Options, ns: seq<Node>) {
    exists n | n in ns ::
      || (HasRequired(n) && (n.tag != "control" || ParseAddress(Attr(n, "address")).None?))
      || Unsafe(options, n)
  }

  /** The addresses out of use: those of required children and of controls whose ID is
      unavailable in the options. */
  ghost predicate TakesOut(options: Options, ns: seq<Node>, a: Code) {
    exists n | n in ns ::
      && ParseAddress(Attr(n, "address")) == Some(a)
      && (HasRequired(n) || (n.tag == "control" && Attr(n, "id").Some? && Blocked(options, Attr(n, "id").value)))
  }

  lemma {:induction false} ReservedMeans(ns: seq<Node>, a: Code)
    ensures a in LoaderLaws.Reserved(ns) <==> exists n | n in ns ::
            HasRequired(n) && ParseAddress(Attr(n, "address")) == Some(a)
  {
    hide HasRequired, ParseAddress, Attr;
    if ns != [] {
      assert ns == [ns[0]] + ns[1..];
      ReservedMeans(ns[1..], a);
    }
  }

  lemma {:induction false} BlockedAddressesMean(options: Options, controls: seq<MonitorControl>, a: Code)
    ensures a in LoaderLaws.BlockedAddresses(options, controls) <==>
            exists mc | mc in controls :: Blocked(options, mc.id) && ParseAddress(mc.rawAddress) == Some(a)
  {
    hide Blocked, ParseAddress;
    if controls != [] {
      assert controls == [controls[0]] + controls[1..];
      BlockedAddressesMean(options, controls[1..], a);
    }
  }

  lemma SuppressedMeans(options: Options, n: Node, a: Code)
    ensures a in LoaderLaws.SuppressedBy(options, n) <==> TakesOut(options, n.children, a)
  {
    hide HasRequired, ParseAddress, Blocked, MonitorValues, MonitorControls, LoaderLaws.Reserved,
      LoaderLaws.BlockedAddresses;
    var ns := n.children;
    ReservedMeans(ns, a);
    BlockedAddressesMean(options, MonitorControls(ns), a);
    forall mc { ControlMember(ns, mc); }
    if mc :| mc in MonitorControls(ns) && Blocked(options, mc.id) && ParseAddress(mc.rawAddress) == Some(a) {
      var m :| m in ns && MonitorControlOf(m) == Some(mc);
    }
    if m :| m in ns && ParseAddress(Attr(m, "address")) == Some(a) && m.tag == "control" && Attr(m, "id").Some?
            && Blocked(options, Attr(m, "id").value) {
      var mc := MonitorControlOf(m).value;
      assert mc in MonitorControls(ns);
    }
  }

  /** With the addresses out of use taken (b1), no place causes an error and, in strict
      mode, every child is accounted for. */
  predicate Acceptable(b1: Build, options: Options, n: Node, mode: Mode) {
    && (forall k: nat | k < |Places(0, Subgroups(options))| ::
          Fine(b1, MonitorControls(n.children), Places(0, Subgroups(options)), k, mode))
    && (mode.tolerant || forall i: nat | i < |n.children| :: ElementMeaning.Accounted(options, n.children, i))
  }

  /** A `controls` element is refused for required semantics exactly when something
      required cannot be isolated; otherwise it is accepted exactly when it is
      acceptable with the addresses out of use taken. */
  lemma ControlsOutcome(b: Build, options: Options, n: Node, mode: Mode) returns (b1: Build)
    requires |b.slots| == |Subgroups(options)|
    ensures ControlsElement(b, options, n, mode) == Failed(Required) <==> Unisolated(options, n.children)
    ensures !Unisolated(options, n.children) ==>
              && TreeExact.Without(b, LoaderLaws.SuppressedBy(options, n), b1)
              && (ControlsElement(b, options, n, mode).Done? <==> Acceptable(b1, options, n, mode))
  {
    hide Reserve, Block, PlaceAll, AllMatched, Blocked, HasRequired, ParseAddress, MonitorControls, Unsafe,
      Acceptable, LoaderLaws.SuppressedBy, TreeExact.Without;
    b1 := b;
    var ns, controls := n.children, MonitorControls(n.children);
    BesideMeans(ns);
    ReserveOutcome(b, ns);
    BlockingMeans(options, ns);
    if Reserve(b, ns).Done? && !RequiredBeside(ns, "control") {
      var b0 := Reserve(b, ns).build;
      BlockOutcome(b0, options, controls);
      if Block(b0, options, controls).Done? {
        b1 := Block(b0, options, controls).build;
        TakenOut(b, b0, b1, options, n);
        AcceptableMeans(b1, options, n, mode);
        LoaderLaws.PlaceAllFails(b1, 0, Subgroups(options), controls, mode);
      }
    }
  }

  lemma TakenOut(b: Build, b0: Build, b1: Build, options: Options, n: Node)
    requires Reserve(b, n.children) == Done(b0) && Block(b0, options, MonitorControls(n.children)) == Done(b1)
    ensures TreeExact.Without(b, LoaderLaws.SuppressedBy(options, n), b1) && |b1.slots| == |b.slots|
  {
    hide Reserve, Block, MonitorControls, LoaderLaws.Reserved, LoaderLaws.BlockedAddresses, TreeExact.Without;
    var ns, controls := n.children, MonitorControls(n.children);
    TreeExact.ReserveExact(b, ns);
    TreeExact.BlockExact(b0, options, controls);
    TreeExact.WithoutBoth(b, LoaderLaws.Reserved(ns), b0, LoaderLaws.BlockedAddresses(options, controls), b1);
    var gone := LoaderLaws.BlockedAddresses(options, controls) + LoaderLaws.Reserved(ns);
    assert gone == LoaderLaws.SuppressedBy(options, n);
    SameSlots(b, gone, b1);
  }

  lemma AcceptableMeans(b1: Build, options: Options, n: Node, mode: Mode)
    requires |b1.slots| == |Subgroups(options)|
    ensures Acceptable(b1, options, n, mode) <==>
            && PlaceAll(b1, 0, Subgroups(options), MonitorControls(n.children), mode).Done?
            && (mode.tolerant || AllMatched(options, n.children))
  {
    hide PlaceAll, AllMatched, Fine, Places, MonitorControls, ElementMeaning.Accounted;
    var ps, controls := Places(0, Subgroups(options)), MonitorControls(n.children);
    ElementMeaning.AccountedMeans(options, n.children);
    PlacingOutcome(b1, Subgroups(options), controls, mode);
    if PlaceAll(b1, 0, Subgroups(options), controls, mode).Done? {
      assert forall k: nat | k < |ps| :: Fine(b1, controls, ps, k, mode);
    }
  }

  lemma SameSlots(b: Build, gone: set<Code>, r: Build)
    requires TreeExact.Without(b, gone, r)
    ensures |r.slots| == |b.slots|
  {
  }

  lemma BesideMeans(ns: seq<Node>)
    ensures RequiredBeside(ns, "control") <==> exists n | n in ns :: HasRequired(n) && n.tag != "control"
  {
    hide HasRequired;
    if n :| n in ns && HasRequired(n) && n.tag != "control" { var i :| 0 <= i < |ns| && ns[i] == n; }
    if i :| 0 <= i < |ns| && ns[i].tag != "control" && HasRequired(ns[i]) { assert ns[i] in ns; }
  }
}
