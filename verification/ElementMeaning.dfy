/** The elements of a profile, said of their attributes and children: which controls
    and values count, what they become, and when an element is refused. */
module ElementMeaning {
  import opened Base
  import opened Numbers
  import opened Caps
  import opened Database
  import opened Loader
  import IntegerNotation

  // ----- Numbers -----

  /** A 64-bit number in the C-style notation. */
  ghost predicate Spelled(raw: Option<string>, n: int) {
    raw.Some? &&
    exists p :: IntegerNotation.Spells(p) && IntegerNotation.Text(p) == raw.value && IntegerNotation.Number(p) == n
  }

  /** Addresses are bytes, values 16-bit words; both in C-style notation. */
  lemma AddressMeans(raw: Option<string>, n: int)
    ensures (0 <= n <= 255 && Spelled(raw, n)) <==> (ParseAddress(raw).Some? && ParseAddress(raw).value == n)
    ensures (0 <= n <= 65535 && Spelled(raw, n)) <==> (ParseWord(raw).Some? && ParseWord(raw).value == n)
  {
    hide ParseInteger, IntegerNotation.Spells, IntegerNotation.Text, IntegerNotation.Number;
    if raw.Some? { IntegerNotation.IntegerMeans(raw.value, n); }
  }

  /** A delay is decimal with a sign, in 32 bits; without one it is -1. */
  lemma DelayMeans(space: string, sign: string, digits: string)
    requires Space(space) && (sign == "" || sign == "+" || sign == "-")
    requires digits != "" && AllDigits(digits, 10)
    ensures var n := if sign == "-" then 0 - ValueOf(digits, 10) else ValueOf(digits, 10);
            ParseDelay(Some(space + sign + digits)) == if -2147483648 <= n <= 2147483647 then Some(n) else None
    ensures ParseDelay(None) == Some(-1)
  {
    hide ValueOf, AllDigits, ParseDecimal;
    IntegerNotation.DecimalMeans(space, sign, digits);
  }

  // ----- The first element with an ID -----

  /** Child i is the first with the tag and the ID. */
  predicate FirstWith(ns: seq<Node>, tag: string, id: string, i: nat) {
    && i < |ns| && ns[i].tag == tag && Attr(ns[i], "id") == Some(id)
    && forall j | 0 <= j < i :: !(ns[j].tag == tag && Attr(ns[j], "id") == Some(id))
  }

  predicate Has(ns: seq<Node>, tag: string, id: string) {
    exists n | n in ns :: n.tag == tag && Attr(n, "id") == Some(id)
  }

  lemma {:induction false} FindMeans(ns: seq<Node>, id: string)
    ensures Find(MonitorControls(ns), id).Some? <==> Has(ns, "control", id)
    ensures forall i: nat | FirstWith(ns, "control", id, i) ::
              Find(MonitorControls(ns), id) ==
              Some(MonitorControl(id, Attr(ns[i], "address"), Attr(ns[i], "delay"), MonitorValues(ns[i].children),
                                  HasRequired(ns[i])))
  {
    hide MonitorValues, HasRequired, Attr;
    if ns != [] {
      assert ns == [ns[0]] + ns[1..];
      FindMeans(ns[1..], id);
      FindStep(ns, id);
      forall i: nat | FirstWith(ns, "control", id, i)
        ensures Find(MonitorControls(ns), id) ==
                Some(MonitorControl(id, Attr(ns[i], "address"), Attr(ns[i], "delay"), MonitorValues(ns[i].children),
                                    HasRequired(ns[i])))
      {
        if i > 0 {
          assert forall j | 0 <= j < i - 1 :: ns[1..][j] == ns[j + 1];
          assert FirstWith(ns[1..], "control", id, i - 1);
        }
      }
    }
  }

  lemma FindStep(ns: seq<Node>, id: string)
    requires ns != []
    ensures Find(MonitorControls(ns), id) ==
            if ns[0].tag == "control" && Attr(ns[0], "id") == Some(id)
            then Some(MonitorControl(id, Attr(ns[0], "address"), Attr(ns[0], "delay"), MonitorValues(ns[0].children),
                                     HasRequired(ns[0])))
            else Find(MonitorControls(ns[1..]), id)
  {
    hide MonitorValues, HasRequired;
  }

  lemma {:induction false} FindValueMeans(ns: seq<Node>, id: string)
    ensures FindValue(MonitorValues(ns), id).Some? <==> Has(ns, "value", id)
    ensures forall i: nat | FirstWith(ns, "value", id, i) ::
              FindValue(MonitorValues(ns), id) == Some(MonitorValue("value", Some(id), Attr(ns[i], "value")))
  {
    hide Attr;
    if ns != [] {
      assert ns == [ns[0]] + ns[1..];
      FindValueMeans(ns[1..], id);
      assert MonitorValues(ns)[1..] == MonitorValues(ns[1..]);
      forall i: nat | FirstWith(ns, "value", id, i)
        ensures FindValue(MonitorValues(ns), id) == Some(MonitorValue("value", Some(id), Attr(ns[i], "value")))
      {
        if i > 0 {
          assert forall j | 0 <= j < i - 1 :: ns[1..][j] == ns[j + 1];
          assert FirstWith(ns[1..], "value", id, i - 1);
        }
      }
    }
  }

  lemma {:induction false} HasFirst(ns: seq<Node>, tag: string, id: string) returns (i: nat)
    requires Has(ns, tag, id)
    ensures FirstWith(ns, tag, id, i)
  {
    i := 0;
    if !(ns[0].tag == tag && Attr(ns[0], "id") == Some(id)) {
      assert ns == [ns[0]] + ns[1..];
      i := HasFirst(ns[1..], tag, id);
      i := i + 1;
    }
  }

  // ----- Values of a control -----

  /** A shared value that the profile's control has: its first `value` child with the
      ID has a 16-bit number, and it has a name, or the control is a command. */
  predicate Becomes(oc: OptionControl, v: OptionValue, ns: seq<Node>, made: Value) {
    && made.id == v.id
    && (v.name == Some(made.name) || (v.name == None && oc.controlType == CommandControl && made.name == oc.name))
    && exists i | 0 <= i < |ns| ::
        FirstWith(ns, "value", v.id, i) && ParseWord(Attr(ns[i], "value")) == Some(made.value)
  }

  /** The shared values the profile has, in their own order. */
  function Present(options: seq<OptionValue>, ns: seq<Node>): seq<OptionValue> {
    if options == [] then []
    else if Has(ns, "value", options[0].id) then [options[0]] + Present(options[1..], ns)
    else Present(options[1..], ns)
  }

  lemma CollectStep(oc: OptionControl, v: OptionValue, rest: seq<OptionValue>, ns: seq<Node>)
    ensures var all := CollectValues(oc, [v] + rest, MonitorValues(ns));
            var later := CollectValues(oc, rest, MonitorValues(ns));
            if !Has(ns, "value", v.id) then all == later
            else if later.Some? && exists made :: Becomes(oc, v, ns, made)
            then exists made :: Becomes(oc, v, ns, made) && all == Some([made] + later.value)
            else all == None
  {
    hide ParseWord, FindValue;
    assert ([v] + rest)[1..] == rest;
    FindValueMeans(ns, v.id);
    if Has(ns, "value", v.id) {
      var i := HasFirst(ns, "value", v.id);
      var word, name := ParseWord(Attr(ns[i], "value")), ValueName(oc, v);
      if word.Some? && name.Some? {
        assert Becomes(oc, v, ns, Value(v.id, name.value, word.value));
      }
      forall made | Becomes(oc, v, ns, made)
        ensures word == Some(made.value) && name == Some(made.name)
      {
        var j :| 0 <= j < |ns| && FirstWith(ns, "value", v.id, j)
            && ParseWord(Attr(ns[j], "value")) == Some(made.value);
        OneFirst(ns, "value", v.id, i, j);
      }
    }
  }

  lemma OneFirst(ns: seq<Node>, tag: string, id: string, i: nat, j: nat)
    requires FirstWith(ns, tag, id, i) && FirstWith(ns, tag, id, j)
    ensures i == j
  {
  }

  ghost predicate Makeable(oc: OptionControl, v: OptionValue, ns: seq<Node>) { exists made :: Becomes(oc, v, ns, made) }

  /** r holds what each of these shared values becomes, unless one becomes nothing. */
  ghost predicate Collected(oc: OptionControl, present: seq<OptionValue>, ns: seq<Node>, r: Option<seq<Value>>) {
    && (r.Some? <==> forall v | v in present :: Makeable(oc, v, ns))
    && (r.Some? ==> |r.value| == |present| && forall i | 0 <= i < |present| :: Becomes(oc, present[i], ns, r.value[i]))
  }

  lemma CollectedNone(oc: OptionControl, v: OptionValue, later: seq<OptionValue>, ns: seq<Node>)
    requires !Makeable(oc, v, ns) || Collected(oc, later, ns, None)
    ensures Collected(oc, [v] + later, ns, None)
  {
    hide Becomes, Makeable;
    assert forall x :: x in [v] + later <==> x == v || x in later;
  }

  lemma CollectedOne(oc: OptionControl, v: OptionValue, later: seq<OptionValue>, ns: seq<Node>, made: Value,
                     rest: seq<Value>)
    requires Becomes(oc, v, ns, made) && Collected(oc, later, ns, Some(rest))
    ensures Collected(oc, [v] + later, ns, Some([made] + rest))
  {
    hide Becomes;
    assert Makeable(oc, v, ns);
    assert forall x :: x in [v] + later <==> x == v || x in later;
  }

  /** The values collected are those present, each made from its first element, and
      collecting fails exactly when one of them has no number or no name. */
  lemma {:induction false} CollectMeans(oc: OptionControl, options: seq<OptionValue>, ns: seq<Node>)
    ensures Collected(oc, Present(options, ns), ns, CollectValues(oc, options, MonitorValues(ns)))
    decreases |options|
  {
    hide Becomes, CollectValues, Has, MonitorValues, Collected;
    if options == [] {
      CollectNothing(oc, MonitorValues(ns));
      CollectedNothing(oc, ns);
    } else {
      var v, later := options[0], Present(options[1..], ns);
      assert options == [v] + options[1..];
      CollectMeans(oc, options[1..], ns);
      CollectStep(oc, v, options[1..], ns);
      if Has(ns, "value", v.id) {
        var rest := CollectValues(oc, options[1..], MonitorValues(ns));
        if rest.Some? && exists made :: Becomes(oc, v, ns, made) {
          var made :| Becomes(oc, v, ns, made) && CollectValues(oc, options, MonitorValues(ns)) ==
              Some([made] + rest.value);
          CollectedOne(oc, v, later, ns, made, rest.value);
        } else {
          CollectedNone(oc, v, later, ns);
        }
      }
    }
  }

  lemma CollectedNothing(oc: OptionControl, ns: seq<Node>)
    ensures Collected(oc, [], ns, Some([]))
  {
  }

  lemma CollectNothing(oc: OptionControl, values: seq<MonitorValue>)
    ensures CollectValues(oc, [], values) == Some([])
  {
  }

  lemma {:induction false} MonitorValueAt(ns: seq<Node>, i: nat)
    requires i < |ns|
    ensures |MonitorValues(ns)| == |ns|
    ensures MonitorValues(ns)[i] == MonitorValue(ns[i].tag, Attr(ns[i], "id"), Attr(ns[i], "value"))
  {
    hide Attr;
    if i > 0 {
      MonitorValueAt(ns[1..], i - 1);
    } else if |ns| > 1 {
      MonitorValueAt(ns[1..], 0);
    } else {
      assert ns[1..] == [];
    }
  }

  lemma KnownMeans(options: seq<OptionValue>, id: string)
    ensures KnownValue(options, id) <==> exists v | v in options :: v.id == id
  {
    if v :| v in options && v.id == id { var k :| 0 <= k < |options| && options[k] == v; }
    if k :| 0 <= k < |options| && options[k].id == id { assert options[k] in options; }
  }

  /** Child i is a value with an ID of the control that no earlier child has. */
  predicate KnownChild(options: seq<OptionValue>, ns: seq<Node>, i: nat)
    requires i < |ns|
  {
    && ns[i].tag == "value" && Attr(ns[i], "id").Some?
    && (exists v | v in options :: Attr(ns[i], "id") == Some(v.id))
    && forall j | 0 <= j < i :: !(ns[j].tag == "value" && Attr(ns[j], "id") == Attr(ns[i], "id"))
  }

  /** Every child is a value with an ID of the control, and no two have the same. */
  predicate OnlyKnownValues(options: seq<OptionValue>, ns: seq<Node>) {
    forall i: nat | i < |ns| :: KnownChild(options, ns, i)
  }

  lemma KnownChildMeans(options: seq<OptionValue>, ns: seq<Node>, i: nat)
    requires i < |ns| && |MonitorValues(ns)| == |ns|
    ensures ValueMatched(options, MonitorValues(ns), i) <==> KnownChild(options, ns, i)
  {
    hide Attr, MonitorValues, KnownValue;
    var vs := MonitorValues(ns);
    forall j: nat | j <= i
      ensures vs[j].tag == ns[j].tag && vs[j].id == Attr(ns[j], "id")
    { MonitorValueAt(ns, j); }
    if Attr(ns[i], "id").Some? { KnownMeans(options, Attr(ns[i], "id").value); }
  }

  lemma OnlyKnownMeans(options: seq<OptionValue>, ns: seq<Node>)
    ensures AllValuesMatched(options, MonitorValues(ns)) <==> OnlyKnownValues(options, ns)
  {
    hide Attr, MonitorValues, ValueMatched, KnownChild;
    assert |MonitorValues(ns)| == |ns| by { if ns != [] { MonitorValueAt(ns, 0); } else { NoValues(); } }
    forall i: nat | i < |ns| { KnownChildMeans(options, ns, i); }
  }

  lemma NoValues()
    ensures MonitorValues([]) == []
  {
  }

  /** `get_value_list`: the present values; refused for a bad one, and in strict mode
      for a child that is unknown, repeated or no value; a command without values has
      the value 1 under its own name. */
  lemma ValuesMean(oc: OptionControl, ns: seq<Node>, tolerant: bool)
    ensures var r, present := ControlValues(oc, MonitorValues(ns), tolerant), Present(oc.values, ns);
            && (r.Some? <==> (forall v | v in present :: Makeable(oc, v, ns))
                             && (tolerant || OnlyKnownValues(oc.values, ns)))
            && (r.Some? && present != [] ==>
                  |r.value| == |present| && forall i | 0 <= i < |present| :: Becomes(oc, present[i], ns, r.value[i]))
            && (r.Some? && present == [] ==>
                  r.value == if oc.controlType == CommandControl then [Value("default", oc.name, 1)] else [])
  {
    hide CollectValues, AllValuesMatched, MonitorValues, Becomes, OnlyKnownValues, Present;
    CollectMeans(oc, oc.values, ns);
    OnlyKnownMeans(oc.values, ns);
  }

  // ----- The children of a controls element -----

  /** In strict mode every child must be accounted for: it is required; or a control
      whose ID is unavailable; or the first control with an ID of the options. */
  predicate Accounted(options: Options, ns: seq<Node>, i: nat)
    requires i < |ns|
  {
    || HasRequired(ns[i])
    || (&& ns[i].tag == "control" && Attr(ns[i], "id").Some?
        && (|| Blocked(options, Attr(ns[i], "id").value)
            || (KnownControl(options, Attr(ns[i], "id").value)
                && FirstWith(ns, "control", Attr(ns[i], "id").value, i))))
  }

  lemma AccountedMeans(options: Options, ns: seq<Node>)
    ensures AllMatched(options, ns) <==> forall i: nat | i < |ns| :: Accounted(options, ns, i)
  {
    hide HasRequired, Blocked, KnownControl, MonitorValues;
    forall i: nat | i < |ns|
      ensures Matched(options, ns, i) <==> Accounted(options, ns, i)
    {
      if ns[i].tag == "control" && Attr(ns[i], "id").Some? {
        assert forall j | 0 <= j < i ::
            (MonitorControlOf(ns[j]).None? || MonitorControlOf(ns[j]).value.id != Attr(ns[i], "id").value) <==>
            !(ns[j].tag == "control" && Attr(ns[j], "id") == Attr(ns[i], "id"));
      }
    }
  }

  // ----- Capability edits and roots -----

  /** A string that may edit: it parses, mentions a code and holds no NUL. */
  predicate Edits(text: string) { '\0' !in text && Parse(text).Good? && |Parse(text).value.vcp| > 0 }

  /** A `caps` element: one of the two attributes at least, each a string that may
      edit; the removal first, then the addition. */
  lemma CapsMeans(b: Build, n: Node)
    ensures var remove, add := Attr(n, "remove"), Attr(n, "add");
            var r := CapsElement(b, n);
            && (r.Done? <==>
                  && (remove.Some? || add.Some?)
                  && (remove.Some? ==> Edits(remove.value)) && (add.Some? ==> Edits(add.value)))
            && (r.Failed? ==> r.why == Invalid)
            && (r.Done? ==>
                  var caps1 := if remove.Some? then Apply(b.caps, Remove, remove.value).value else b.caps;
                  var caps2 := if add.Some? then Apply(caps1, Add, add.value).value else caps1;
                  r.build == b.(caps := caps2))
  {
    hide Parse, ApplyParsed;
  }

  /** A `monitor` root: the first name and the first init mode stay; a wrong init mode
      is refused where it would count, and while validating; strict loads refuse the
      deprecated attributes. */
  lemma RootMeans(b: Build, root: Node, mode: Mode)
    ensures var init := Attr(root, "init");
            var r := OpenRoot(b, root, mode);
            var known := init == None || init == Some("standard") || init == Some("samsung");
            && (r.Done? <==>
                  && (b.name.Some? || Attr(root, "name").Some?)
                  && (known || (b.init != InitUnknown && !mode.validateAll))
                  && (mode.tolerant || (Attr(root, "caps") == None && Attr(root, "include") == None)))
            && (r.Failed? ==> r.why == Invalid)
            && (r.Done? ==>
                  r.build == b.(name := if b.name.Some? then b.name else Attr(root, "name"),
                                init := if b.init != InitUnknown then b.init
                                        else if init == Some("standard") then InitStandard
                                        else if init == Some("samsung") then InitSamsung else InitUnknown))
  {
  }

  /** Which root a name stands for: the selected definition at the top only, else the
      installed profile; it must be a `monitor` without required semantics of its own. */
  lemma RootOfName(ctx: Context, name: string, level: nat)
    ensures var r := FindRoot(ctx, name, level == 0);
            var selected := level == 0 && ctx.monitorFile.Some? && ctx.monitorFile.value.pnpid == name;
            if selected then
              r == if ctx.monitorFile.value.root.required then NoRoot(Required)
                   else if ctx.monitorFile.value.root.tag != "monitor" then NoRoot(Invalid)
                   else Found(ctx.monitorFile.value.root)
            else if name !in ctx.profiles then r == NoRoot(Missing)
            else if ctx.profiles[name].None? then r == NoRoot(Invalid)
            else r == if ctx.profiles[name].value.required then NoRoot(Required)
                      else if ctx.profiles[name].value.tag != "monitor" then NoRoot(Invalid)
                      else Found(ctx.profiles[name].value)
  {
  }
}
