/** The whole tree a load builds, described without its state: every control is the
    first claim on its address in visit order, and every such claim is there unless
    its address is suppressed somewhere in the expansion. */
module TreeExact {
  import opened Base
  import opened Caps
  import opened Database
  import opened Loader
  import opened Inlining
  import opened LoaderLaws
  import opened Placement

  // ----- Description -----

  /** The capabilities when event j is met: all edits before it. */
  function CapsAt(caps: CapsTable, es: seq<Event>, j: nat): CapsTable
    requires j <= |es|
  { if Edits(caps, es[..j]).Some? then Edits(caps, es[..j]).value else caps }

  function AllPlaces(options: Options): seq<Place> { Places(0, Subgroups(options)) }

  /** Place k claims an address in event j. */
  predicate ClaimsAt(options: Options, caps: CapsTable, es: seq<Event>, j: nat, k: nat, a: Code) {
    && j < |es| && es[j].ControlList? && k < |AllPlaces(options)|
    && Claim(CapsAt(caps, es, j), MonitorControls(es[j].n.children), AllPlaces(options)[k].oc) == Some(a)
  }

  /** Some place claims it in an event before n. */
  ghost predicate ClaimedBefore(options: Options, caps: CapsTable, es: seq<Event>, n: nat, a: Code) {
    exists j: nat, k: nat :: j < n && ClaimsAt(options, caps, es, j, k, a)
  }

  /** No earlier event claims the address, and no earlier place of this event. */
  ghost predicate FirstClaim(options: Options, caps: CapsTable, es: seq<Event>, j: nat, k: nat, a: Code) {
    && ClaimsAt(options, caps, es, j, k, a) && !ClaimedBefore(options, caps, es, j, a)
    && forall i: nat | i < k :: !ClaimsAt(options, caps, es, j, i, a)
  }

  /** The control that place k makes in event j, in its subgroup. */
  ghost predicate Makes(options: Options, es: seq<Event>, j: nat, k: nat, tolerant: bool, slot: nat, c: Control) {
    && j < |es| && es[j].ControlList? && k < |AllPlaces(options)| && AllPlaces(options)[k].slot == slot
    && Becomes(MonitorControls(es[j].n.children), AllPlaces(options)[k].oc, tolerant, c)
  }

  /** Among the first n events, the control made by the first claim on its address. */
  ghost predicate Elected(options: Options, caps: CapsTable, es: seq<Event>, n: nat, tolerant: bool, slot: nat,
                          c: Control) {
    exists j: nat, k: nat ::
      j < n && FirstClaim(options, caps, es, j, k, c.address) && Makes(options, es, j, k, tolerant, slot, c)
  }

  /** The controls and the taken addresses after the first n events. */
  ghost predicate TreeIs(options: Options, caps: CapsTable, es: seq<Event>, n: nat, tolerant: bool, b: Build)
    requires n <= |es|
  {
    && |b.slots| == |Subgroups(options)|
    && (forall slot: nat, c: Control | slot < |b.slots| ::
          c in b.slots[slot] <==>
              c.address !in Suppressed(options, es[..n]) && Elected(options, caps, es, n, tolerant, slot, c))
    && forall a: Code :: a in b.defined <==> a in Suppressed(options, es[..n]) || ClaimedBefore(options, caps, es, n, a)
  }

  // ----- Suppression, exactly -----

  /** r is b with these addresses taken and without their controls. */
  ghost predicate Without(b: Build, gone: set<Code>, r: Build) {
    && Frame(b, r) && r.defined == b.defined + gone
    && forall slot: nat, c: Control | slot < |b.slots| :: c in r.slots[slot] <==>
        c in b.slots[slot] && c.address !in gone
  }

  lemma WithoutMember(b: Build, gone: set<Code>, r: Build, slot: nat, c: Control)
    requires Without(b, gone, r) && slot < |b.slots|
    ensures |r.slots| == |b.slots| && (c in r.slots[slot] <==> c in b.slots[slot] && c.address !in gone)
  {
  }

  lemma WithoutIntro(b: Build, gone: set<Code>, r: Build)
    requires Frame(b, r) && r.defined == b.defined + gone
    requires forall slot: nat, c: Control | slot < |b.slots| ::
               c in r.slots[slot] <==> c in b.slots[slot] && c.address !in gone
    ensures Without(b, gone, r)
  {
  }

  lemma SuppressMember(b: Build, a: Code, slot: nat, c: Control)
    requires slot < |b.slots|
    ensures Frame(b, Suppress(b, a)) && (c in Suppress(b, a).slots[slot] <==> c in b.slots[slot] && c.address != a)
  {
    hide DropAddress;
    DropMember(b.slots[slot], a, c);
  }

  lemma SuppressTakes(b: Build, a: Code)
    ensures Frame(b, Suppress(b, a)) && Suppress(b, a).defined == b.defined + {a}
  {
  }

  lemma WithoutOne(b: Build, a: Code)
    ensures Without(b, {a}, Suppress(b, a))
  {
    hide Suppress;
    var r, gone := Suppress(b, a), {a};
    SuppressTakes(b, a);
    forall slot: nat, c: Control | slot < |b.slots|
      ensures c in r.slots[slot] <==> c in b.slots[slot] && c.address !in gone
    { SuppressMember(b, a, slot, c); }
    WithoutIntro(b, gone, r);
  }

  lemma WithoutNone(b: Build)
    ensures Without(b, {}, b)
  {
  }

  lemma WithoutBoth(b: Build, x: set<Code>, c: Build, y: set<Code>, d: Build)
    requires Without(b, x, c) && Without(c, y, d)
    ensures Without(b, y + x, d)
  {
    var gone := y + x;
    assert Frame(b, d) && d.defined == b.defined + gone;
    forall slot: nat, e: Control | slot < |b.slots|
      ensures e in d.slots[slot] <==> e in b.slots[slot] && e.address !in gone
    {
      WithoutMember(b, x, c, slot, e);
      WithoutMember(c, y, d, slot, e);
    }
    assert Without(b, gone, d);
  }

  lemma {:induction false} ReserveExact(b: Build, ns: seq<Node>)
    requires Reserve(b, ns).Done?
    ensures Without(b, Reserved(ns), Reserve(b, ns).build)
    decreases |ns|
  {
    hide Without, Suppress, HasRequired, ParseAddress;
    if ns == [] {
      WithoutNone(b);
    } else if HasRequired(ns[0]) {
      var a := ParseAddress(Attr(ns[0], "address")).value;
      WithoutOne(b, a);
      ReserveExact(Suppress(b, a), ns[1..]);
      WithoutBoth(b, {a}, Suppress(b, a), Reserved(ns[1..]), Reserve(b, ns).build);
    } else {
      ReserveExact(b, ns[1..]);
    }
  }

  lemma {:induction false} BlockExact(b: Build, options: Options, controls: seq<MonitorControl>)
    requires Block(b, options, controls).Done?
    ensures Without(b, BlockedAddresses(options, controls), Block(b, options, controls).build)
    decreases |controls|
  {
    hide Without, Suppress, Blocked, ParseAddress;
    if controls == [] {
      WithoutNone(b);
    } else if Blocked(options, controls[0].id) {
      var a := ParseAddress(controls[0].rawAddress).value;
      WithoutOne(b, a);
      BlockExact(Suppress(b, a), options, controls[1..]);
      WithoutBoth(b, {a}, Suppress(b, a), BlockedAddresses(options, controls[1..]), Block(b, options, controls).build);
    } else {
      BlockExact(b, options, controls[1..]);
    }
  }

  // ----- Placement, by membership -----

  /** Place k wins its address from state b and becomes c. */
  ghost predicate WinsAs(b: Build, controls: seq<MonitorControl>, ps: seq<Place>, k: nat, tolerant: bool, slot: nat,
                         c: Control) {
    k < |ps| && ps[k].slot == slot && Wins(b, controls, ps, k) && Becomes(controls, ps[k].oc, tolerant, c)
  }

  lemma {:induction false} WinnersMember(b: Build, controls: seq<MonitorControl>, ps: seq<Place>, n: nat, slot: nat,
                                         oc: OptionControl)
    requires n <= |ps|
    ensures oc in Winners(b, controls, ps, n, slot) <==>
            exists k: nat | k < n :: ps[k].slot == slot && Wins(b, controls, ps, k) && ps[k].oc == oc
  {
    hide Wins;
    if n > 0 { WinnersMember(b, controls, ps, n - 1, slot, oc); }
  }

  lemma BecomesOne(controls: seq<MonitorControl>, oc: OptionControl, tolerant: bool, c: Control, d: Control)
    requires Becomes(controls, oc, tolerant, c) && Becomes(controls, oc, tolerant, d)
    ensures c == d
  {
  }

  lemma MadeMember(controls: seq<MonitorControl>, ocs: seq<OptionControl>, tolerant: bool, added: seq<Control>,
                   c: Control)
    requires Made(controls, ocs, tolerant, added)
    ensures c in added <==> exists oc | oc in ocs :: Becomes(controls, oc, tolerant, c)
  {
    hide Becomes;
    if c in added {
      var i :| 0 <= i < |added| && added[i] == c;
      assert ocs[i] in ocs && Becomes(controls, ocs[i], tolerant, c);
    }
    forall oc | oc in ocs && Becomes(controls, oc, tolerant, c)
      ensures c in added
    {
      var i :| 0 <= i < |ocs| && ocs[i] == oc;
      BecomesOne(controls, oc, tolerant, c, added[i]);
    }
  }

  lemma PlacedMember(b: Build, controls: seq<MonitorControl>, ps: seq<Place>, mode: Mode, r: Build, slot: nat,
                     c: Control)
    requires Placed(b, controls, ps, |ps|, mode, r) && slot < |b.slots|
    ensures c in r.slots[slot] <==>
            c in b.slots[slot] || exists k: nat :: WinsAs(b, controls, ps, k, mode.tolerant, slot, c)
  {
    hide Becomes, Wins, Winners, Made, Claims;
    var ocs, added := Winners(b, controls, ps, |ps|, slot), r.slots[slot][|b.slots[slot]|..];
    assert r.slots[slot] == b.slots[slot] + added;
    MadeMember(controls, ocs, mode.tolerant, added, c);
    forall oc: OptionControl { WinnersMember(b, controls, ps, |ps|, slot, oc); }
    if c in added {
      var oc :| oc in ocs && Becomes(controls, oc, mode.tolerant, c);
      var k: nat :| k < |ps| && ps[k].slot == slot && Wins(b, controls, ps, k) && ps[k].oc == oc;
      assert WinsAs(b, controls, ps, k, mode.tolerant, slot, c);
    }
    forall k: nat | WinsAs(b, controls, ps, k, mode.tolerant, slot, c)
      ensures c in added
    { assert ps[k].oc in ocs; }
  }

  // ----- One more event -----

  lemma {:induction false} SuppressedAppend(options: Options, es: seq<Event>, e: Event)
    ensures Suppressed(options, es + [e]) ==
            Suppressed(options, es) + if e.ControlList? then SuppressedBy(options, e.n) else {}
  {
    hide SuppressedBy;
    if es == [] {
      assert es + [e] == [e] && [e][1..] == [];
    } else {
      assert (es + [e])[1..] == es[1..] + [e];
      SuppressedAppend(options, es[1..], e);
    }
  }

  lemma ClaimedNext(options: Options, caps: CapsTable, es: seq<Event>, n: nat, a: Code)
    ensures ClaimedBefore(options, caps, es, n + 1, a) <==>
            ClaimedBefore(options, caps, es, n, a) || exists k: nat :: ClaimsAt(options, caps, es, n, k, a)
  {
    hide ClaimsAt;
  }

  lemma ElectedNext(options: Options, caps: CapsTable, es: seq<Event>, n: nat, tolerant: bool, slot: nat, c: Control)
    ensures Elected(options, caps, es, n + 1, tolerant, slot, c) <==>
            || Elected(options, caps, es, n, tolerant, slot, c)
            || exists k: nat :: FirstClaim(options, caps, es, n, k, c.address)
                && Makes(options, es, n, k, tolerant, slot, c)
  {
    hide FirstClaim, Makes;
  }

  /** An event without controls changes neither the tree nor the description. */
  lemma OtherEvent(options: Options, caps: CapsTable, es: seq<Event>, n: nat, tolerant: bool, b: Build, r: Build)
    requires n < |es| && !es[n].ControlList? && TreeIs(options, caps, es, n, tolerant, b)
    requires r.slots == b.slots && r.defined == b.defined
    ensures TreeIs(options, caps, es, n + 1, tolerant, r)
  {
    hide Elected, ClaimedBefore, Suppressed;
    assert es[..n + 1] == es[..n] + [es[n]];
    SuppressedAppend(options, es[..n], es[n]);
    forall a: Code
      ensures ClaimedBefore(options, caps, es, n + 1, a) <==> ClaimedBefore(options, caps, es, n, a)
    { ClaimedNext(options, caps, es, n, a); }
    forall slot: nat, c: Control | slot < |b.slots|
      ensures Elected(options, caps, es, n + 1, tolerant, slot, c) <==> Elected(options, caps, es, n, tolerant, slot, c)
    { ElectedNext(options, caps, es, n, tolerant, slot, c); }
  }

  /** In a control event the winners are the first claims on unsuppressed addresses. */
  lemma WinsIsFirst(options: Options, caps: CapsTable, es: seq<Event>, n: nat, tolerant: bool, b: Build, k: nat,
                    slot: nat, c: Control)
    requires n < |es| && es[n].ControlList? && b.caps == CapsAt(caps, es, n)
    requires forall a: Code ::
               a in b.defined <==> a in Suppressed(options, es[..n + 1]) || ClaimedBefore(options, caps, es, n, a)
    ensures WinsAs(b, MonitorControls(es[n].n.children), AllPlaces(options), k, tolerant, slot, c) <==>
            && c.address !in Suppressed(options, es[..n + 1])
            && FirstClaim(options, caps, es, n, k, c.address) && Makes(options, es, n, k, tolerant, slot, c)
  {
    hide Suppressed, ClaimedBefore, CapsAt, Places, Find, ParseAddress, ParseDelay, ControlValues;
    var controls, ps := MonitorControls(es[n].n.children), AllPlaces(options);
    if k < |ps| && Becomes(controls, ps[k].oc, tolerant, c) {
      var claim := Claim(b.caps, controls, ps[k].oc);
      assert claim.Some? ==> claim.value == c.address;
      assert forall i: nat | i < k :: ClaimsAt(options, caps, es, n, i, c.address) <==>
                                      Claim(b.caps, controls, ps[i].oc) == Some(c.address);
    }
  }

  lemma ControlEvent(options: Options, mode: Mode, caps: CapsTable, es: seq<Event>, n: nat, b: Build)
    requires n < |es| && es[n].ControlList? && !mode.validateAll
    requires TreeIs(options, caps, es, n, mode.tolerant, b) && b.caps == CapsAt(caps, es, n)
    requires ControlsElement(b, options, es[n].n, mode).Done?
    ensures TreeIs(options, caps, es, n + 1, mode.tolerant, ControlsElement(b, options, es[n].n, mode).build)
  {
    hide TreeIs, Without, Placed, Reserve, Block, PlaceAll, Reserved, BlockedAddresses, RequiredBeside, AllMatched,
      CapsAt, Places;
    var children := es[n].n.children;
    var controls, ps := MonitorControls(children), AllPlaces(options);
    var b1 := Reserve(b, children).build;
    ReserveExact(b, children);
    var b2 := Block(b1, options, controls).build;
    BlockExact(b1, options, controls);
    WithoutBoth(b, Reserved(children), b1, BlockedAddresses(options, controls), b2);
    var gone := SuppressedBy(options, es[n].n);
    assert BlockedAddresses(options, controls) + Reserved(children) == gone;
    SlotsKept(options, caps, es, n, mode.tolerant, b, gone, b2);
    PlacementExact(b2, Subgroups(options), controls, mode);
    PlacedEvent(options, mode, caps, es, n, b, b2, PlaceAll(b2, 0, Subgroups(options), controls, mode).build);
  }

  lemma SlotsKept(options: Options, caps: CapsTable, es: seq<Event>, n: nat, tolerant: bool, b: Build, gone: set<Code>,
                  r: Build)
    requires n <= |es| && TreeIs(options, caps, es, n, tolerant, b) && Without(b, gone, r)
    ensures |b.slots| == |r.slots| == |Subgroups(options)| && r.caps == b.caps
  {
  }

  /** From a state with the suppressed controls gone, placing gives the description. */
  lemma PlacedEvent(options: Options, mode: Mode, caps: CapsTable, es: seq<Event>, n: nat, b: Build, b2: Build,
                    r: Build)
    requires n < |es| && es[n].ControlList? && TreeIs(options, caps, es, n, mode.tolerant, b)
    requires Without(b, SuppressedBy(options, es[n].n), b2) && b2.caps == CapsAt(caps, es, n)
    requires Placed(b2, MonitorControls(es[n].n.children), AllPlaces(options), |AllPlaces(options)|, mode, r)
    ensures TreeIs(options, caps, es, n + 1, mode.tolerant, r)
  {
    hide Elected, ClaimedBefore, Suppressed, SuppressedBy, WinsAs, FirstClaim, Makes, CapsAt, Places, Claims, Winners,
      Made;
    var controls, ps := MonitorControls(es[n].n.children), AllPlaces(options);
    assert es[..n + 1] == es[..n] + [es[n]];
    SuppressedAppend(options, es[..n], es[n]);
    forall a: Code
      ensures a in r.defined <==> a in Suppressed(options, es[..n + 1]) || ClaimedBefore(options, caps, es, n + 1, a)
    {
      ClaimedNext(options, caps, es, n, a);
      ClaimsEvent(options, caps, es, n, a);
    }
    forall slot: nat, c: Control | slot < |r.slots|
      ensures c in r.slots[slot] <==>
              c.address !in Suppressed(options, es[..n + 1])
                  && Elected(options, caps, es, n + 1, mode.tolerant, slot, c)
    {
      PlacedMember(b2, controls, ps, mode, r, slot, c);
      ElectedNext(options, caps, es, n, mode.tolerant, slot, c);
      forall k: nat
        ensures WinsAs(b2, controls, ps, k, mode.tolerant, slot, c) <==>
                && c.address !in Suppressed(options, es[..n + 1])
                && FirstClaim(options, caps, es, n, k, c.address) && Makes(options, es, n, k, mode.tolerant, slot, c)
      { WinsIsFirst(options, caps, es, n, mode.tolerant, b2, k, slot, c); }
    }
  }

  lemma ClaimsEvent(options: Options, caps: CapsTable, es: seq<Event>, n: nat, a: Code)
    requires n < |es| && es[n].ControlList?
    ensures var ps := AllPlaces(options);
            a in Claims(CapsAt(caps, es, n), MonitorControls(es[n].n.children), ps, |ps|) <==>
            exists k: nat :: ClaimsAt(options, caps, es, n, k, a)
  {
    hide Claim, CapsAt, Places, Claims;
    var ps := AllPlaces(options);
    ClaimedEarlier(CapsAt(caps, es, n), MonitorControls(es[n].n.children), ps, |ps|, a);
    if k: nat :| k < |ps| && Claim(CapsAt(caps, es, n), MonitorControls(es[n].n.children), ps[k].oc) == Some(a) {
      assert ClaimsAt(options, caps, es, n, k, a);
    }
  }

  // ----- Whole runs -----

  lemma TreeAtStart(options: Options, caps: CapsTable, es: seq<Event>, tolerant: bool)
    ensures TreeIs(options, caps, es, 0, tolerant, Start(options, caps))
  {
    assert es[..0] == [];
  }

  /** After any number of events of a successful normal run from the start. */
  lemma {:induction false} TreeAfter(options: Options, mode: Mode, caps: CapsTable, es: seq<Event>, n: nat)
    requires n <= |es| && !mode.validateAll && Run(options, mode, Start(options, caps), es[..n]).Done?
    ensures TreeIs(options, caps, es, n, mode.tolerant, Run(options, mode, Start(options, caps), es[..n]).build)
  {
    hide TreeIs, Step, Run, Edits;
    var start := Start(options, caps);
    if n == 0 {
      TreeAtStart(options, caps, es, mode.tolerant);
      assert es[..0] == [];
      RunNone(options, mode, start);
    } else {
      assert es[..n] == es[..n - 1] + [es[n - 1]];
      RunConcat(options, mode, start, es[..n - 1], [es[n - 1]]);
      TreeAfter(options, mode, caps, es, n - 1);
      var b := Run(options, mode, start, es[..n - 1]).build;
      RunOne(options, mode, b, es[n - 1]);
      RunSummary(options, mode, start, es[..n - 1]);
      TreeStep(options, mode, caps, es, n - 1, b);
    }
  }

  lemma TreeStep(options: Options, mode: Mode, caps: CapsTable, es: seq<Event>, n: nat, b: Build)
    requires n < |es| && !mode.validateAll && TreeIs(options, caps, es, n, mode.tolerant, b)
    requires b.caps == CapsAt(caps, es, n) && Step(options, mode, b, es[n]).Done?
    ensures TreeIs(options, caps, es, n + 1, mode.tolerant, Step(options, mode, b, es[n]).build)
  {
    hide TreeIs, ControlsElement, EditCaps, CapsAt;
    if es[n].ControlList? {
      ControlEvent(options, mode, caps, es, n, b);
    } else {
      OtherEvent(options, caps, es, n, mode.tolerant, b, Step(options, mode, b, es[n]).build);
    }
  }

  /** The tree of a successful normal run: exactly the first claims on unsuppressed
      addresses, each under its subgroup. */
  lemma RunTreeExact(options: Options, mode: Mode, caps: CapsTable, es: seq<Event>)
    requires !mode.validateAll && Run(options, mode, Start(options, caps), es).Done?
    ensures TreeIs(options, caps, es, |es|, mode.tolerant, Run(options, mode, Start(options, caps), es).build)
  {
    hide TreeIs, Run;
    assert es[..|es|] == es;
    TreeAfter(options, mode, caps, es, |es|);
  }
}
