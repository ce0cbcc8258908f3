/** The loader as it runs: one object whose tree, defined addresses and staged
    capabilities every include changes in place. */
module LoadRun {
  import opened Base
  import opened Caps
  import opened Database
  import L = Loader

  // ----- Values of one control -----

  /** The first monitor value with an ID, by position. */
  method ValueIndex(values: seq<L.MonitorValue>, id: string) returns (k: nat)
    ensures k <= |values|
    ensures k < |values| ==>
            L.FindValue(values, id) == Some(values[k]) && values[k].tag == "value" && values[k].id == Some(id)
    ensures k == |values| ==> L.FindValue(values, id) == None
    ensures forall j | 0 <= j < k :: !(values[j].tag == "value" && values[j].id == Some(id))
  {
    k := 0;
    while k < |values|
      invariant k <= |values| && L.FindValue(values[k..], id) == L.FindValue(values, id)
      invariant forall j | 0 <= j < k :: !(values[j].tag == "value" && values[j].id == Some(id))
    {
      assert values[k..][1..] == values[k + 1..];
      if values[k].tag == "value" && values[k].id == Some(id) { return; }
      k := k + 1;
    }
  }

  /** What marks a value as used, given the option IDs met so far. */
  ghost predicate Used(options: seq<OptionValue>, values: seq<L.MonitorValue>, i: nat)
    requires i < |values|
  { L.ValueMatched(options, values, i) }

  /** `get_value_list`, with the default value of a bare command. */
  method ValueList(control: OptionControl, values: seq<L.MonitorValue>, tolerant: bool)
      returns (r: Option<seq<L.Value>>)
    ensures r == L.ControlValues(control, values, tolerant)
  {
    hide L.CollectValues, L.ValueMatched;
    var found, matched := CollectValues(control, values);
    if found.None? { return None; }
    if !tolerant {
      for n := 0 to |values|
        invariant forall i: nat | i < n :: matched[i]
      {
        assert matched[n] <==> Used(control.values, values, n);
        if !matched[n] { return None; }
      }
      forall i | 0 <= i < |values| ensures L.ValueMatched(control.values, values, i) {
        assert matched[i] <==> Used(control.values, values, i);
      }
    }
    r := found;
    if control.controlType.CommandControl? && found.value == [] {
      r := Some([L.Value("default", control.name, 1)]);
    }
  }

  method CollectValues(control: OptionControl, values: seq<L.MonitorValue>)
      returns (r: Option<seq<L.Value>>, matched: seq<bool>)
    ensures r == L.CollectValues(control, control.values, values)
    ensures r.Some? ==> |matched| == |values| && forall i: nat | i < |values| :: matched[i] <==>
            Used(control.values, values, i)
  {
    hide L.ParseWord, L.FindValue, L.ValueName, Used;
    var list: seq<L.Value> := [];
    matched := seq(|values|, _ => false);
    var options := control.values;
    assert options[0..] == options && options[..0] == [];
    assert forall all: seq<L.Value> :: [] + all == all;
    NoneUsed(values);
    for n := 0 to |options|
      invariant |matched| == |values|
      invariant Prefixed(list, L.CollectValues(control, options[n..], values),
                         L.CollectValues(control, options, values))
      invariant forall i: nat | i < |values| :: matched[i] <==> Used(options[..n], values, i)
    {
      var option := options[n];
      assert options[n..][1..] == options[n + 1..];
      var k := ValueIndex(values, option.id);
      UsedStep(options, values, n, k);
      ghost var before := matched;
      if k < |values| {
        matched := matched[k := true];
        var word := L.ParseWord(values[k].rawValue);
        var name := L.ValueName(control, option);
        if word.None? || name.None? { return None, matched; }
        ghost var rest := L.CollectValues(control, options[n + 1..], values);
        var value := L.Value(option.id, name.value, word.value);
        if rest.Some? { assert list + ([value] + rest.value) == (list + [value]) + rest.value; }
        list := list + [value];
      }
      forall i: nat | i < |values| ensures matched[i] <==> Used(options[..n + 1], values, i) {
        assert before[i] <==> Used(options[..n], values, i);
      }
    }
    assert options[..|options|] == options && options[|options|..] == [];
    assert list + [] == list;
    r := Some(list);
  }

  lemma NoneUsed(values: seq<L.MonitorValue>)
    ensures forall i: nat | i < |values| :: !Used([], values, i)
  {
  }

  ghost predicate Prefixed(list: seq<L.Value>, rest: Option<seq<L.Value>>, all: Option<seq<L.Value>>) {
    if rest.None? then all.None? else all == Some(list + rest.value)
  }

  lemma UsedStep(options: seq<OptionValue>, values: seq<L.MonitorValue>, n: nat, k: nat)
    requires n < |options| && k <= |values|
    requires k < |values| ==> values[k].tag == "value" && values[k].id == Some(options[n].id)
    requires forall j | 0 <= j < k :: !(values[j].tag == "value" && values[j].id == Some(options[n].id))
    ensures forall i: nat | i < |values| :: Used(options[..n + 1], values, i) <==>
            Used(options[..n], values, i) || i == k
  {
    assert options[..n + 1] == options[..n] + [options[n]];
    forall i: nat | i < |values| ensures Used(options[..n + 1], values, i) <==>
        Used(options[..n], values, i) || i == k {
      if values[i].id.Some? { KnownStep(options, n, values[i].id.value); }
    }
  }

  lemma KnownStep(options: seq<OptionValue>, n: nat, id: string)
    requires n < |options|
    ensures L.KnownValue(options[..n + 1], id) <==> L.KnownValue(options[..n], id) || options[n].id == id
  {
    assert options[..n + 1] == options[..n] + [options[n]];
    if L.KnownValue(options[..n], id) {
      var i :| 0 <= i < n && options[..n][i].id == id;
      assert options[..n + 1][i].id == id;
    }
    if options[n].id == id { assert options[..n + 1][n].id == id; }
    if L.KnownValue(options[..n + 1], id) && options[n].id != id {
      var i :| 0 <= i < n + 1 && options[..n + 1][i].id == id;
      assert options[..n][i].id == id;
    }
  }

  // ----- Controls of one element -----

  /** `parse_monitor_controls`: the controls, and the child each came from. */
  method MonitorControls(ns: seq<Node>) returns (controls: seq<L.MonitorControl>, origin: seq<nat>)
    ensures controls == L.MonitorControls(ns) && |origin| == |controls|
    ensures Origins(ns, controls, origin)
    ensures forall i: nat | i < |ns| && L.MonitorControlOf(ns[i]).Some? :: i in origin
  {
    hide L.MonitorControlOf, Origins;
    controls, origin := [], [];
    assert ns[0..] == ns;
    NoOrigins(ns);
    for n := 0 to |ns|
      invariant L.MonitorControls(ns) == controls + L.MonitorControls(ns[n..])
      invariant |origin| == |controls| && Origins(ns, controls, origin)
      invariant forall k: nat | k < |origin| :: origin[k] < n
      invariant forall i: nat | i < n && L.MonitorControlOf(ns[i]).Some? :: i in origin
    {
      assert ns[n..][1..] == ns[n + 1..];
      var control := L.MonitorControlOf(ns[n]);
      if control.Some? {
        OriginsAppend(ns, controls, origin, n);
        controls, origin := controls + [control.value], origin + [n];
      }
    }
  }

  /** Controls are listed in the order of their elements. */
  ghost predicate Origins(ns: seq<Node>, controls: seq<L.MonitorControl>, origin: seq<nat>) {
    && |origin| == |controls|
    && (forall k: nat | k < |origin| :: origin[k] < |ns| && L.MonitorControlOf(ns[origin[k]]) == Some(controls[k]))
    && forall k: nat, l: nat | k < l < |origin| :: origin[k] < origin[l]
  }

  lemma NoOrigins(ns: seq<Node>)
    ensures Origins(ns, [], [])
  {
  }

  lemma OriginsAppend(ns: seq<Node>, controls: seq<L.MonitorControl>, origin: seq<nat>, n: nat)
    requires Origins(ns, controls, origin) && n < |ns| && L.MonitorControlOf(ns[n]).Some?
    requires forall k: nat | k < |origin| :: origin[k] < n
    ensures Origins(ns, controls + [L.MonitorControlOf(ns[n]).value], origin + [n])
  {
    hide L.MonitorControlOf;
  }

  method ControlIndex(controls: seq<L.MonitorControl>, id: string) returns (k: nat)
    ensures k <= |controls| && (forall j: nat | j < k :: controls[j].id != id)
    ensures L.Find(controls, id) == if k < |controls| then Some(controls[k]) else None
    ensures k < |controls| ==> controls[k].id == id
  {
    k := 0;
    while k < |controls|
      invariant k <= |controls| && L.Find(controls[k..], id) == L.Find(controls, id)
      invariant forall j: nat | j < k :: controls[j].id != id
    {
      assert controls[k..][1..] == controls[k + 1..];
      if controls[k].id == id { return; }
      k := k + 1;
    }
  }

  /** What marks a child as accounted for, given the option IDs placed so far. */
  ghost predicate Seen(options: Options, ns: seq<Node>, blocked: nat, placed: set<string>, i: nat)
    requires i < |ns|
  {
    HasRequired(ns[i]) ||
    var mc := L.MonitorControlOf(ns[i]);
    mc.Some? && ((i < blocked && L.Blocked(options, mc.value.id)) || (mc.value.id in placed && First(ns, i)))
  }

  /** No earlier child is a control with the same ID. */
  ghost predicate First(ns: seq<Node>, i: nat)
    requires i < |ns| && L.MonitorControlOf(ns[i]).Some?
  {
    forall j | 0 <= j < i ::
        L.MonitorControlOf(ns[j]).None? || L.MonitorControlOf(ns[j]).value.id != L.MonitorControlOf(ns[i]).value.id
  }

  lemma FirstOrigin(ns: seq<Node>, controls: seq<L.MonitorControl>, origin: seq<nat>, k: nat, i: nat)
    requires Origins(ns, controls, origin) && k < |controls| && i < |ns|
    requires forall i: nat | i < |ns| && L.MonitorControlOf(ns[i]).Some? :: i in origin
    requires forall j: nat | j < k :: controls[j].id != controls[k].id
    ensures i == origin[k] <==>
            L.MonitorControlOf(ns[i]).Some? && L.MonitorControlOf(ns[i]).value.id == controls[k].id && First(ns, i)
  {
    hide L.MonitorControlOf;
    forall j: nat | j < |ns| && L.MonitorControlOf(ns[j]).Some? && L.MonitorControlOf(ns[j]).value.id == controls[k].id
      ensures j >= origin[k]
    {
      assert j in origin;
      var l: nat :| l < |origin| && origin[l] == j;
      assert controls[l].id == controls[k].id;
    }
  }

  lemma BlockedStep(options: Options, ns: seq<Node>, controls: seq<L.MonitorControl>, origin: seq<nat>, k: nat, i: nat)
    requires Origins(ns, controls, origin) && k < |controls| && i < |ns|
    requires forall i: nat | i < |ns| && L.MonitorControlOf(ns[i]).Some? :: i in origin
    ensures Seen(options, ns, After(ns, origin, k + 1), {}, i) <==>
            Seen(options, ns, After(ns, origin, k), {}, i) || (i == origin[k] && L.Blocked(options, controls[k].id))
  {
    hide L.MonitorControlOf, L.Blocked, HasRequired;
    if L.MonitorControlOf(ns[i]).Some? {
      assert i in origin;
      var l: nat :| l < |origin| && origin[l] == i;
      assert l < k ==> origin[l] < origin[k];
      assert l > k ==> origin[k] < origin[l];
      if k + 1 < |origin| && l > k { assert origin[k + 1] <= origin[l]; }
    }
  }

  /** Where the k-th control starts; the end of the list when there is none. */
  ghost function After(ns: seq<Node>, origin: seq<nat>, k: nat): nat { if k < |origin| then origin[k] else |ns| }

  class MonitorBuild {
    var visits: nat
    var name: Option<string>
    var init: L.Init
    var slots: seq<seq<L.Control>>
    var defined: set<Code>
    var caps: CapsTable

    constructor (options: Options, caps: CapsTable)
      ensures State() == L.Start(options, caps)
    {
      visits, name, init := 0, None, L.InitUnknown;
      slots, defined := seq(|Subgroups(options)|, _ => []), {};
      this.caps := caps;
    }

    ghost function State(): L.Build
      reads this
    { L.Build(visits, name, init, slots, defined, caps) }

    /** An operation ended as the specification says. A failed load is discarded,
        so nothing is said of the state it leaves. */
    ghost predicate Became(error: Option<L.Failure>, o: L.Outcome)
      reads this
    { if o.Done? then error == None && State() == o.build else error == Some(o.why) }

    static method Retain(controls: seq<L.Control>, address: Code) returns (kept: seq<L.Control>)
      ensures kept == L.DropAddress(controls, address)
    {
      kept := [];
      for k := 0 to |controls|
        invariant L.DropAddress(controls, address) == kept + L.DropAddress(controls[k..], address)
      {
        assert controls[k..][1..] == controls[k + 1..];
        if controls[k].address != address { kept := kept + [controls[k]]; }
      }
    }

    method Suppress(address: Code)
      modifies this`slots, this`defined
      ensures State() == L.Suppress(old(State()), address)
    {
      hide L.DropAddress;
      defined := defined + {address};
      var k := 0;
      while k < |slots|
        invariant k <= |slots| == |old(slots)| && defined == old(defined) + {address}
        invariant forall j | 0 <= j < k :: slots[j] == L.DropAddress(old(slots)[j], address)
        invariant forall j | k <= j < |slots| :: slots[j] == old(slots)[j]
      {
        var kept := Retain(slots[k], address);
        slots := slots[k := kept];
        k := k + 1;
      }
      assert slots == L.Suppress(old(State()), address).slots;
    }

    method Reserve(ns: seq<Node>) returns (error: Option<L.Failure>)
      modifies this`slots, this`defined
      ensures Became(error, L.Reserve(old(State()), ns))
    {
      hide L.Suppress, L.ParseAddress, HasRequired;
      for k := 0 to |ns|
        invariant L.Reserve(State(), ns[k..]) == L.Reserve(old(State()), ns)
      {
        assert ns[k..][1..] == ns[k + 1..];
        if HasRequired(ns[k]) {
          var address := L.ParseAddress(Attr(ns[k], "address"));
          if address.None? { return Some(L.Required); }
          Suppress(address.value);
        }
      }
      error := None;
    }

    method Block(options: Options, ns: seq<Node>, controls: seq<L.MonitorControl>, origin: seq<nat>)
      returns (error: Option<L.Failure>, matched: seq<bool>)
      requires controls == L.MonitorControls(ns) && Origins(ns, controls, origin)
      requires forall i: nat | i < |ns| && L.MonitorControlOf(ns[i]).Some? :: i in origin
      modifies this`slots, this`defined
      ensures Became(error, L.Block(old(State()), options, controls))
      ensures error.None? ==> |matched| == |ns| && forall i: nat | i < |ns| :: matched[i] <==>
              Seen(options, ns, |ns|, {}, i)
    {
      hide L.Suppress, L.ParseAddress, L.Blocked, Seen, HasRequired, L.MonitorControlOf;
      matched := seq(|ns|, i requires 0 <= i < |ns| => HasRequired(ns[i]));
      SeenAtStart(options, ns, origin);
      assert controls[0..] == controls;
      for k := 0 to |controls|
        invariant L.Block(State(), options, controls[k..]) == L.Block(old(State()), options, controls)
        invariant |matched| == |ns| && forall i: nat | i < |ns| :: matched[i] <==>
                  Seen(options, ns, After(ns, origin, k), {}, i)
      {
        assert controls[k..][1..] == controls[k + 1..];
        ghost var before := matched;
        if L.Blocked(options, controls[k].id) {
          var address := L.ParseAddress(controls[k].rawAddress);
          if address.None? { return Some(L.Required), matched; }
          Suppress(address.value);
          matched := matched[origin[k] := true];
        }
        forall i: nat | i < |ns| ensures matched[i] <==> Seen(options, ns, After(ns, origin, k + 1), {}, i) {
          BlockedStep(options, ns, controls, origin, k, i);
          assert before[i] <==> Seen(options, ns, After(ns, origin, k), {}, i);
        }
      }
      error := None;
    }

    /** One option control: matched first, then placed, skipped or refused. */
    method PlaceOne(slot: nat, oc: OptionControl, controls: seq<L.MonitorControl>, k: nat, mode: L.Mode)
      returns (error: Option<L.Failure>)
      requires k < |controls| && L.Find(controls, oc.id) == Some(controls[k])
      modifies this`slots, this`defined
      ensures Became(error, L.PlaceOne(old(State()), slot, oc, controls, mode))
    {
      hide L.ParseAddress, L.ControlValues, L.ParseDelay, L.Find;
      var mc := controls[k];
      if mc.unavailable || oc.unavailable { return None; }
      var address := L.ParseAddress(mc.rawAddress);
      if address.None? { return Some(L.Invalid); }
      if !mode.validateAll {
        if address.value !in caps.vcp { return None; }
        if address.value in defined { return None; }
      }
      var values := ValueList(oc, mc.values, mode.tolerant);
      if values.None? { return Some(L.Invalid); }
      var delay := L.ParseDelay(mc.rawDelay);
      if delay.None? { return Some(L.Invalid); }
      var control := L.Control(oc.id, oc.name, address.value, delay.value, oc.controlType, oc.refresh, values.value);
      if slot < |slots| { slots := slots[slot := slots[slot] + [control]]; }
      defined := defined + {address.value};
      error := None;
    }

    method PlaceSlot(slot: nat, ocs: seq<OptionControl>, options: Options, ns: seq<Node>,
                     controls: seq<L.MonitorControl>, origin: seq<nat>,
                     mode: L.Mode, matched0: seq<bool>, ghost placed: set<string>)
      returns (error: Option<L.Failure>, matched: seq<bool>)
      requires controls == L.MonitorControls(ns) && Origins(ns, controls, origin) && |matched0| == |ns|
      requires forall i: nat | i < |ns| && L.MonitorControlOf(ns[i]).Some? :: i in origin
      requires forall i: nat | i < |ns| :: matched0[i] <==> Seen(options, ns, |ns|, placed, i)
      modifies this`slots, this`defined
      ensures Became(error, L.PlaceSlot(old(State()), slot, ocs, controls, mode))
      ensures error.None? ==> |matched| == |ns| && forall i: nat | i < |ns| :: matched[i] <==>
              Seen(options, ns, |ns|, placed + Ids(ocs), i)
    {
      hide L.PlaceOne, L.Find, Seen, L.MonitorControlOf, Origins;
      matched := matched0;
      assert ocs[0..] == ocs && ocs[..0] == [];
      assert placed + Ids([]) == placed;
      for n := 0 to |ocs|
        invariant L.PlaceSlot(State(), slot, ocs[n..], controls, mode) ==
                  L.PlaceSlot(old(State()), slot, ocs, controls, mode)
        invariant |matched| == |ns| && forall i: nat | i < |ns| :: matched[i] <==>
                  Seen(options, ns, |ns|, placed + Ids(ocs[..n]), i)
      {
        assert ocs[n..][1..] == ocs[n + 1..] && ocs[..n + 1] == ocs[..n] + [ocs[n]];
        ghost var before := matched;
        var k := ControlIndex(controls, ocs[n].id);
        if k < |controls| {
          OriginInRange(ns, controls, origin, k);
          matched := matched[origin[k] := true];
          error := PlaceOne(slot, ocs[n], controls, k, mode);
          if error.Some? { return; }
        } else {
          NotFound(State(), slot, ocs[n], controls, mode);
        }
        forall i: nat | i < |ns| ensures matched[i] <==> Seen(options, ns, |ns|, placed + Ids(ocs[..n + 1]), i) {
          IdsAppend(ocs[..n], ocs[n]);
          PlacedStep(options, ns, controls, origin, placed + Ids(ocs[..n]), ocs[n].id, k, i);
          assert placed + Ids(ocs[..n + 1]) == placed + Ids(ocs[..n]) + {ocs[n].id};
          assert before[i] <==> Seen(options, ns, |ns|, placed + Ids(ocs[..n]), i);
        }
      }
      assert ocs[..|ocs|] == ocs;
      error := None;
    }

    /** `add_controls_from_options`. */
    method AddControls(options: Options, ns: seq<Node>, mode: L.Mode) returns (error: Option<L.Failure>)
      modifies this`slots, this`defined
      ensures Became(error, L.AddControls(old(State()), options, ns, mode))
    {
      hide L.Block, L.PlaceAll, L.PlaceSlot, L.Matched, Seen, Origins, L.MonitorControls, L.MonitorControlOf;
      var controls, origin := MonitorControls(ns);
      var matched;
      error, matched := Block(options, ns, controls, origin);
      if error.Some? { return; }
      ghost var start := State();
      var subgroups := Subgroups(options);
      assert subgroups[0..] == subgroups && subgroups[..0] == [] && Ids(Controls([])) == {};
      for n := 0 to |subgroups|
        invariant L.PlaceAll(State(), n, subgroups[n..], controls, mode) ==
                  L.PlaceAll(start, 0, subgroups, controls, mode)
        invariant |matched| == |ns| && forall i: nat | i < |ns| :: matched[i] <==>
                  Seen(options, ns, |ns|, Ids(Controls(subgroups[..n])), i)
      {
        PlaceAllStep(State(), n, subgroups[n..], controls, mode);
        assert subgroups[n..][1..] == subgroups[n + 1..] && subgroups[..n + 1] == subgroups[..n] + [subgroups[n]];
        ControlsAppend(subgroups[..n], subgroups[n]);
        error, matched := PlaceSlot(n, subgroups[n].controls, options, ns, controls, origin, mode, matched,
                                    Ids(Controls(subgroups[..n])));
        if error.Some? { return; }
      }
      PlaceAllStep(State(), |subgroups|, [], controls, mode);
      assert subgroups[..|subgroups|] == subgroups && subgroups[|subgroups|..] == [];
      forall i: nat | i < |ns| ensures matched[i] <==> L.Matched(options, ns, i) {
        SeenIsMatched(options, ns, i);
      }
      if !mode.tolerant {
        for n := 0 to |ns|
          invariant forall i: nat | i < n :: matched[i]
        {
          if !matched[n] {
            assert !L.Matched(options, ns, n);
            return Some(L.Invalid);
          }
        }
      }
      error := None;
    }

    /** A `controls` element: required controls first reserve their addresses. */
    method ControlsElement(options: Options, n: Node, mode: L.Mode) returns (error: Option<L.Failure>)
      modifies this`slots, this`defined
      ensures Became(error, L.ControlsElement(old(State()), options, n, mode))
    {
      hide L.Reserve, L.AddControls, HasRequired;
      for k := 0 to |n.children|
        invariant forall i | 0 <= i < k :: !(n.children[i].tag != "control" && HasRequired(n.children[i]))
      {
        if n.children[k].tag != "control" && HasRequired(n.children[k]) { return Some(L.Required); }
      }
      error := Reserve(n.children);
      if error.Some? { return; }
      error := AddControls(options, n.children, mode);
    }

    method CapsElement(n: Node) returns (error: Option<L.Failure>)
      modifies this`caps
      ensures Became(error, L.CapsElement(old(State()), n))
    {
      hide L.EditCaps;
      var remove, add := Attr(n, "remove"), Attr(n, "add");
      if remove.None? && add.None? { return Some(L.Invalid); }
      var removed := L.EditCaps(caps, Remove, remove);
      if removed.None? { return Some(L.Invalid); }
      caps := removed.value;
      var added := L.EditCaps(caps, Add, add);
      if added.None? { return Some(L.Invalid); }
      caps := added.value;
      error := None;
    }

    method OpenRoot(root: Node, mode: L.Mode) returns (error: Option<L.Failure>)
      modifies this`name, this`init
      ensures Became(error, L.OpenRoot(old(State()), root, mode))
    {
      if name.None? {
        name := Attr(root, "name");
        if name.None? { return Some(L.Invalid); }
      }
      if init.InitUnknown? || mode.validateAll {
        var own := L.InitOf(root);
        if own.None? { return Some(L.Invalid); }
        if init.InitUnknown? { init := own.value; }
      }
      if !mode.tolerant && (Attr(root, "caps").Some? || Attr(root, "include").Some?) { return Some(L.Invalid); }
      error := None;
    }

    /** `create_db_protected`: the recursion over includes, sharing this object. */
    method CreateDb(ctx: Context, pnpname: string, level: nat, mode: L.Mode) returns (error: Option<L.Failure>)
      modifies this
      ensures Became(error, L.CreateDb(ctx, old(State()), pnpname, level, mode))
      decreases L.Rank(level), 1, 0
    {
      hide L.OpenRoot, L.Elements, L.FindRoot;
      if !ValidName(pnpname) { return Some(L.InvalidName); }
      visits := visits + 1;
      if visits > L.MAX_VISITS { return Some(L.VisitLimit); }
      if level > L.MAX_LEVEL { return Some(L.TooDeep); }
      var found := L.FindRoot(ctx, pnpname, level == 0);
      if found.NoRoot? { return Some(found.why); }
      error := OpenRoot(found.root, mode);
      if error.Some? { return; }
      error := Elements(ctx, found.root.children, level, mode);
    }

    method Elements(ctx: Context, ns: seq<Node>, level: nat, mode: L.Mode) returns (error: Option<L.Failure>)
      requires level <= L.MAX_LEVEL
      modifies this
      ensures Became(error, L.Elements(ctx, old(State()), ns, level, mode, false, false))
      decreases L.Rank(level), 0, 1
    {
      hide L.Element;
      var seenControls, seenAny := false, false;
      assert ns[0..] == ns;
      for k := 0 to |ns|
        invariant L.Elements(ctx, State(), ns[k..], level, mode, seenControls, seenAny)
               == L.Elements(ctx, old(State()), ns, level, mode, false, false)
      {
        assert ns[k..][1..] == ns[k + 1..];
        error := Element(ctx, ns[k], level, mode, seenControls);
        if error.Some? { return; }
        if ns[k].tag == "controls" { seenControls, seenAny := true, true; }
        if ns[k].tag == "include" { seenAny := true; }
      }
      if !seenAny { return Some(L.Invalid); }
      error := None;
    }

    method Element(ctx: Context, n: Node, level: nat, mode: L.Mode, seenControls: bool)
        returns (error: Option<L.Failure>)
      requires level <= L.MAX_LEVEL
      modifies this
      ensures Became(error, L.Element(ctx, old(State()), n, level, mode, seenControls))
      decreases L.Rank(level), 0, 0
    {
      hide L.CreateDb, L.CapsElement, L.ControlsElement, HasRequired;
      if n.required || (n.tag != "controls" && HasRequired(n)) { return Some(L.Required); }
      if n.tag == "caps" {
        error := CapsElement(n);
      } else if n.tag == "include" {
        var file := Attr(n, "file");
        if file.None? { return Some(L.Invalid); }
        error := CreateDb(ctx, file.value, level + 1, mode);
      } else if n.tag == "controls" {
        if seenControls { return Some(L.Invalid); }
        error := ControlsElement(ctx.options, n, mode);
      } else if mode.validateAll {
        return Some(L.Invalid);
      } else {
        return None;
      }
    }
  }

  lemma PlaceAllStep(b: L.Build, slot: nat, subgroups: seq<OptionSubgroup>, controls: seq<L.MonitorControl>,
                     mode: L.Mode)
    ensures subgroups == [] ==> L.PlaceAll(b, slot, subgroups, controls, mode) == L.Done(b)
    ensures subgroups != [] ==>
      var o := L.PlaceSlot(b, slot, subgroups[0].controls, controls, mode);
      L.PlaceAll(b, slot, subgroups, controls, mode) ==
        if o.Failed? then o else L.PlaceAll(o.build, slot + 1, subgroups[1..], controls, mode)
  {
  }

  lemma {:induction false} ControlsAppend(subgroups: seq<OptionSubgroup>, subgroup: OptionSubgroup)
    ensures Ids(Controls(subgroups + [subgroup])) == Ids(Controls(subgroups)) + Ids(subgroup.controls)
  {
    hide Ids;
    if subgroups == [] {
      assert ([] + [subgroup])[1..] == [];
      assert Controls([] + [subgroup]) == subgroup.controls;
      IdsConcat([], subgroup.controls);
      assert [] + subgroup.controls == subgroup.controls;
    } else {
      assert (subgroups + [subgroup])[1..] == subgroups[1..] + [subgroup];
      ControlsAppend(subgroups[1..], subgroup);
      IdsConcat(subgroups[0].controls, Controls(subgroups[1..] + [subgroup]));
      IdsConcat(subgroups[0].controls, Controls(subgroups[1..]));
    }
  }

  lemma {:induction false} IdsConcat(a: seq<OptionControl>, b: seq<OptionControl>)
    ensures Ids(a + b) == Ids(a) + Ids(b)
  {
    if a == [] {
      assert a + b == b;
    } else {
      assert (a + b)[1..] == a[1..] + b;
      IdsConcat(a[1..], b);
    }
  }

  lemma {:induction false} IdsMember(ocs: seq<OptionControl>, id: string)
    ensures id in Ids(ocs) <==> exists i | 0 <= i < |ocs| :: ocs[i].id == id
  {
    if ocs != [] {
      IdsMember(ocs[1..], id);
      if id in Ids(ocs[1..]) {
        var i :| 0 <= i < |ocs[1..]| && ocs[1..][i].id == id;
        assert ocs[i + 1].id == id;
      }
      if i :| 0 <= i < |ocs| && ocs[i].id == id {
        if i > 0 { assert ocs[1..][i - 1].id == id; }
      }
    }
  }

  lemma SeenIsMatched(options: Options, ns: seq<Node>, i: nat)
    requires i < |ns|
    ensures Seen(options, ns, |ns|, Ids(Controls(Subgroups(options))), i) <==> L.Matched(options, ns, i)
  {
    hide L.MonitorControlOf, L.Blocked, HasRequired, Ids;
    var mc := L.MonitorControlOf(ns[i]);
    if mc.Some? { IdsMember(Controls(Subgroups(options)), mc.value.id); }
  }

  ghost function Ids(ocs: seq<OptionControl>): set<string> { if ocs == [] then {} else {ocs[0].id} + Ids(ocs[1..]) }

  lemma {:induction false} IdsAppend(ocs: seq<OptionControl>, oc: OptionControl)
    ensures Ids(ocs + [oc]) == Ids(ocs) + {oc.id}
  {
    if ocs != [] {
      assert (ocs + [oc])[1..] == ocs[1..] + [oc];
      IdsAppend(ocs[1..], oc);
    } else {
      assert ([] + [oc])[1..] == [];
    }
  }

  lemma OriginInRange(ns: seq<Node>, controls: seq<L.MonitorControl>, origin: seq<nat>, k: nat)
    requires Origins(ns, controls, origin) && k < |controls|
    ensures k < |origin| && origin[k] < |ns|
  {
  }

  lemma NotFound(b: L.Build, slot: nat, oc: OptionControl, controls: seq<L.MonitorControl>, mode: L.Mode)
    requires L.Find(controls, oc.id) == None
    ensures L.PlaceOne(b, slot, oc, controls, mode) == L.Done(b)
  {
  }

  lemma SeenAtStart(options: Options, ns: seq<Node>, origin: seq<nat>)
    requires forall i: nat | i < |ns| && L.MonitorControlOf(ns[i]).Some? :: i in origin
    requires forall k: nat, l: nat | k < l < |origin| :: origin[k] < origin[l]
    ensures forall i: nat | i < |ns| :: Seen(options, ns, After(ns, origin, 0), {}, i) <==> HasRequired(ns[i])
  {
    hide L.MonitorControlOf, HasRequired;
    forall i: nat | i < |ns| && L.MonitorControlOf(ns[i]).Some? ensures i >= After(ns, origin, 0) {
      assert i in origin;
      var l: nat :| l < |origin| && origin[l] == i;
    }
  }

  lemma PlacedStep(options: Options, ns: seq<Node>, controls: seq<L.MonitorControl>, origin: seq<nat>,
                   placed: set<string>, id: string, k: nat, i: nat)
    requires controls == L.MonitorControls(ns) && Origins(ns, controls, origin) && i < |ns| && k <= |controls|
    requires forall i: nat | i < |ns| && L.MonitorControlOf(ns[i]).Some? :: i in origin
    requires (forall j: nat | j < k :: controls[j].id != id) && (k < |controls| ==> controls[k].id == id)
    ensures Seen(options, ns, |ns|, placed + {id}, i) <==>
            Seen(options, ns, |ns|, placed, i) || (k < |controls| && i == origin[k])
  {
    hide L.MonitorControlOf, L.Blocked, HasRequired;
    if k < |controls| {
      FirstOrigin(ns, controls, origin, k, i);
    } else if L.MonitorControlOf(ns[i]).Some? {
      assert i in origin;
      var l: nat :| l < |origin| && origin[l] == i;
      assert controls[l].id != id;
    }
  }
}
