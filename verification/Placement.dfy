/** Which controls a `controls` element places: the earliest claim on an address
    wins, in the order of the shared options. */
module Placement {
  import opened Base
  import opened Caps
  import opened Database
  import opened Loader

  /** A shared control with the slot of its subgroup. */
  datatype Place = Place(slot: nat, oc: OptionControl)

  function PlacesIn(slot: nat, ocs: seq<OptionControl>): (r: seq<Place>)
    ensures |r| == |ocs| && forall i | 0 <= i < |r| :: r[i].slot == slot
  { if ocs == [] then [] else [Place(slot, ocs[0])] + PlacesIn(slot, ocs[1..]) }

  /** All places, subgroup after subgroup. */
  function Places(slot: nat, subgroups: seq<OptionSubgroup>): (r: seq<Place>)
    ensures forall i | 0 <= i < |r| :: slot <= r[i].slot < slot + |subgroups|
    decreases |subgroups|
  { if subgroups == [] then [] else PlacesIn(slot, subgroups[0].controls) + Places(slot + 1, subgroups[1..]) }

  // ----- Independent description -----

  /** The address a shared control claims: that of the first monitor control with
      its ID, when both are available and the monitor has the control. */
  function Claim(caps: CapsTable, controls: seq<MonitorControl>, oc: OptionControl): Option<Code> {
    var mc := Find(controls, oc.id);
    if mc.None? || mc.value.unavailable || oc.unavailable || ParseAddress(mc.value.rawAddress).None? then None
    else if ParseAddress(mc.value.rawAddress).value in caps.vcp then ParseAddress(mc.value.rawAddress)
    else None
  }

  /** Place j wins its address: not taken before, and no earlier place claims it. */
  predicate Wins(b: Build, controls: seq<MonitorControl>, ps: seq<Place>, j: nat)
    requires j < |ps|
  {
    var claim := Claim(b.caps, controls, ps[j].oc);
    && claim.Some? && claim.value !in b.defined
    && forall i | 0 <= i < j :: Claim(b.caps, controls, ps[i].oc) != claim
  }

  /** The control a winner becomes. */
  predicate Becomes(controls: seq<MonitorControl>, oc: OptionControl, tolerant: bool, c: Control) {
    var mc := Find(controls, oc.id);
    && mc.Some? && ParseAddress(mc.value.rawAddress) == Some(c.address)
        && ParseDelay(mc.value.rawDelay) == Some(c.delay)
    && ControlValues(oc, mc.value.values, tolerant) == Some(c.values)
    && c.id == oc.id && c.name == oc.name && c.controlType == oc.controlType && c.refresh == oc.refresh
  }

  /** The winners of one slot among the first n places, in order. */
  function Winners(b: Build, controls: seq<MonitorControl>, ps: seq<Place>, n: nat, slot: nat): seq<OptionControl>
    requires n <= |ps|
  {
    if n == 0 then []
    else
      var before := Winners(b, controls, ps, n - 1, slot);
      if ps[n - 1].slot == slot && Wins(b, controls, ps, n - 1) then before + [ps[n - 1].oc] else before
  }

  /** Every address claimed by the first n places. */
  ghost function Claims(caps: CapsTable, controls: seq<MonitorControl>, ps: seq<Place>, n: nat): set<Code>
    requires n <= |ps|
  {
    if n == 0 then {}
    else
      var claim := Claim(caps, controls, ps[n - 1].oc);
      Claims(caps, controls, ps, n - 1) + if claim.Some? then {claim.value} else {}
  }

  /** The added controls are the winners, in order. */
  predicate Made(controls: seq<MonitorControl>, ocs: seq<OptionControl>, tolerant: bool, added: seq<Control>) {
    |added| == |ocs| && forall i | 0 <= i < |ocs| :: Becomes(controls, ocs[i], tolerant, added[i])
  }

  ghost predicate Placed(b: Build, controls: seq<MonitorControl>, ps: seq<Place>, n: nat, mode: Mode, r: Build)
    requires n <= |ps|
  {
    && |r.slots| == |b.slots|
    && (forall k | 0 <= k < |b.slots| ::
          |b.slots[k]| <= |r.slots[k]| && r.slots[k][..|b.slots[k]|] == b.slots[k]
          && Made(controls, Winners(b, controls, ps, n, k), mode.tolerant, r.slots[k][|b.slots[k]|..]))
    && r.defined == b.defined + Claims(b.caps, controls, ps, n)
    && r.visits == b.visits && r.name == b.name && r.init == b.init && r.caps == b.caps
  }

  // ----- One place after another -----

  function PlaceEach(b: Build, ps: seq<Place>, controls: seq<MonitorControl>, mode: Mode): Outcome
    decreases |ps|
  {
    if ps == [] then Done(b)
    else
      match PlaceEach(b, ps[..|ps| - 1], controls, mode)
      case Failed(why) => Failed(why)
      case Done(b1) => PlaceOne(b1, ps[|ps| - 1].slot, ps[|ps| - 1].oc, controls, mode)
  }

  lemma {:induction false} PlaceEachAppend(b: Build, ps: seq<Place>, qs: seq<Place>, controls: seq<MonitorControl>,
                                           mode: Mode)
    ensures PlaceEach(b, ps + qs, controls, mode) ==
            var first := PlaceEach(b, ps, controls, mode);
            if first.Failed? then first else PlaceEach(first.build, qs, controls, mode)
    decreases |qs|
  {
    hide PlaceOne;
    if qs == [] {
      assert ps + qs == ps;
    } else {
      var init := qs[..|qs| - 1];
      assert (ps + qs)[..|ps + qs| - 1] == ps + init;
      PlaceEachAppend(b, ps, init, controls, mode);
    }
  }

  lemma {:induction false} SlotIsPlaces(b: Build, slot: nat, ocs: seq<OptionControl>, controls: seq<MonitorControl>,
                                        mode: Mode)
    ensures PlaceSlot(b, slot, ocs, controls, mode) == PlaceEach(b, PlacesIn(slot, ocs), controls, mode)
    decreases |ocs|
  {
    hide PlaceOne;
    if ocs != [] {
      var first := [Place(slot, ocs[0])];
      PlaceEachAppend(b, first, PlacesIn(slot, ocs[1..]), controls, mode);
      assert first[..0] == [];
      var r := PlaceOne(b, slot, ocs[0], controls, mode);
      if r.Done? { SlotIsPlaces(r.build, slot, ocs[1..], controls, mode); }
    }
  }

  lemma {:induction false} AllIsPlaces(b: Build, slot: nat, subgroups: seq<OptionSubgroup>,
                                       controls: seq<MonitorControl>, mode: Mode)
    ensures PlaceAll(b, slot, subgroups, controls, mode) == PlaceEach(b, Places(slot, subgroups), controls, mode)
    decreases |subgroups|
  {
    hide PlaceSlot;
    if subgroups != [] {
      SlotIsPlaces(b, slot, subgroups[0].controls, controls, mode);
      PlaceEachAppend(b, PlacesIn(slot, subgroups[0].controls), Places(slot + 1, subgroups[1..]), controls, mode);
      var r := PlaceSlot(b, slot, subgroups[0].controls, controls, mode);
      if r.Done? { AllIsPlaces(r.build, slot + 1, subgroups[1..], controls, mode); }
    }
  }

  lemma {:induction false} ClaimedEarlier(caps: CapsTable, controls: seq<MonitorControl>, ps: seq<Place>, n: nat,
                                          a: Code)
    requires n <= |ps|
    ensures a in Claims(caps, controls, ps, n) <==> exists i | 0 <= i < n :: Claim(caps, controls, ps[i].oc) == Some(a)
  {
    hide Claim;
    if n > 0 { ClaimedEarlier(caps, controls, ps, n - 1, a); }
  }

  /** One more place: it is placed exactly when it wins. */
  lemma PlacedStep(b: Build, controls: seq<MonitorControl>, ps: seq<Place>, n: nat, mode: Mode, r: Build)
    requires n < |ps| && !mode.validateAll && ps[n].slot < |b.slots| && Placed(b, controls, ps, n, mode, r)
    requires PlaceOne(r, ps[n].slot, ps[n].oc, controls, mode).Done?
    ensures Placed(b, controls, ps, n + 1, mode, PlaceOne(r, ps[n].slot, ps[n].oc, controls, mode).build)
  {
    hide Find, ParseAddress, ParseDelay, ControlValues, Made;
    var oc, slot := ps[n].oc, ps[n].slot;
    var claim := Claim(b.caps, controls, oc);
    var r' := PlaceOne(r, slot, oc, controls, mode).build;
    if claim.Some? { ClaimedEarlier(b.caps, controls, ps, n, claim.value); }
    if Wins(b, controls, ps, n) {
      var c := r'.slots[slot][|r.slots[slot]|];
      assert Becomes(controls, oc, mode.tolerant, c);
      assert r'.slots[slot] == r.slots[slot] + [c];
      MadeMore(controls, Winners(b, controls, ps, n, slot), mode.tolerant, r.slots[slot][|b.slots[slot]|..], oc, c);
      assert r'.slots[slot][|b.slots[slot]|..] == r.slots[slot][|b.slots[slot]|..] + [c];
      assert r'.slots[slot][..|b.slots[slot]|] == b.slots[slot];
    } else {
      assert r'.slots == r.slots && r'.defined == r.defined;
    }
  }

  lemma MadeMore(controls: seq<MonitorControl>, ocs: seq<OptionControl>, tolerant: bool, added: seq<Control>,
                 oc: OptionControl, c: Control)
    requires Made(controls, ocs, tolerant, added) && Becomes(controls, oc, tolerant, c)
    ensures Made(controls, ocs + [oc], tolerant, added + [c])
  {
  }

  lemma {:induction false} PlacedEach(b: Build, controls: seq<MonitorControl>, ps: seq<Place>, n: nat, mode: Mode)
    requires n <= |ps| && !mode.validateAll && forall i | 0 <= i < |ps| :: ps[i].slot < |b.slots|
    requires PlaceEach(b, ps[..n], controls, mode).Done?
    ensures Placed(b, controls, ps, n, mode, PlaceEach(b, ps[..n], controls, mode).build)
  {
    hide PlaceOne, Wins;
    if n > 0 {
      assert ps[..n][..n - 1] == ps[..n - 1];
      PlacedEach(b, controls, ps, n - 1, mode);
      PlacedStep(b, controls, ps, n - 1, mode, PlaceEach(b, ps[..n - 1], controls, mode).build);
    }
  }

  /** What a `controls` element places in a normal load: in every subgroup exactly
      the winners, in the order of the options, after what was there; every address
      claimed is taken; and nothing else changes. */
  lemma PlacementExact(b: Build, subgroups: seq<OptionSubgroup>, controls: seq<MonitorControl>, mode: Mode)
    requires !mode.validateAll && |b.slots| == |subgroups| && PlaceAll(b, 0, subgroups, controls, mode).Done?
    ensures var ps := Places(0, subgroups);
            Placed(b, controls, ps, |ps|, mode, PlaceAll(b, 0, subgroups, controls, mode).build)
  {
    hide PlaceOne, Wins, Claim, PlaceAll, Placed;
    var ps := Places(0, subgroups);
    assert ps[..|ps|] == ps;
    AllIsPlaces(b, 0, subgroups, controls, mode);
    PlacedEach(b, controls, ps, |ps|, mode);
  }
}
