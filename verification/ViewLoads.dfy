/** The loader depends on nothing but the executable view of its nodes. */
module ViewLoads {
  import opened Base
  import opened Numbers
  import opened Database
  import opened Loader
  import opened Schema
  import opened Compiler
  import opened Requirements
  import DecodeOrder

  // ----- Numbers -----

  /** Rewriting an accepted number in decimal changes no reading of it. */
  lemma NormalTextReads(name: string, raw: string, id: nat)
    requires AttributeId(name) == Some(id)
    ensures id != 7 ==> ParseInteger(NormalText(name, raw)) == ParseInteger(raw)
    ensures id == 7 ==> ParseDecimal(NormalText(name, raw)) == ParseDecimal(raw)
    ensures !IsNumeric(id) ==> NormalText(name, raw) == raw
  {
    hide ToDecimal, ValueOf, InRange, AllDigits, SkipSpaces, InBounds, IndexOf;
    SkipTwice(raw);
    var n := SourceInteger(raw, id);
    if n.Some? { DecimalReadsBack(n.value); }
  }

  // ----- Attributes of a view -----

  lemma KnownIds()
    ensures AttributeId("name") == Some(0) && AttributeId("id") == Some(1) && AttributeId("type") == Some(2)
            && AttributeId("refresh") == Some(3)
    ensures AttributeId("pattern") == Some(4) && AttributeId("init") == Some(5) && AttributeId("address") == Some(6)
    ensures AttributeId("delay") == Some(7) && AttributeId("value") == Some(8) && AttributeId("file") == Some(9)
            && AttributeId("add") == Some(10)
    ensures AttributeId("remove") == Some(11) && AttributeId("dbversion") == Some(12) && AttributeId("date") == Some(13)
    ensures AttributeId("caps") == Some(14) && AttributeId("include") == Some(15)
  {
    hide AttributeId;
    LowIds();
    HighIds();
  }

  lemma LowIds()
    ensures AttributeId("name") == Some(0) && AttributeId("id") == Some(1) && AttributeId("type") == Some(2)
            && AttributeId("refresh") == Some(3)
    ensures AttributeId("pattern") == Some(4) && AttributeId("init") == Some(5) && AttributeId("address") == Some(6)
    ensures AttributeId("delay") == Some(7)
  {
    hide AttributeId;
    forall i | 0 <= i < 8
      ensures AttributeId(ATTRIBUTES[i]) == Some(i)
    { DecodeOrder.AttributesDistinct(i); }
  }

  lemma HighIds()
    ensures AttributeId("value") == Some(8) && AttributeId("file") == Some(9) && AttributeId("add") == Some(10)
    ensures AttributeId("remove") == Some(11) && AttributeId("dbversion") == Some(12) && AttributeId("date") == Some(13)
    ensures AttributeId("caps") == Some(14) && AttributeId("include") == Some(15)
  {
    hide AttributeId;
    forall i | 8 <= i < 16
      ensures AttributeId(ATTRIBUTES[i]) == Some(i)
    { DecodeOrder.AttributesDistinct(i); }
  }

  lemma ViewAttr(n: Node, parent: string, inOptions: bool, name: string, id: nat)
    requires AttributeId(name) == Some(id) && id in ExecutableAttributes(n.tag, parent, inOptions)
    ensures Attr(View(n, parent, inOptions, true), name) ==
            if Attr(n, name).None? then None else Some(NormalText(name, Attr(n, name).value))
  {
    hide AttributeId, NormalText, ViewAll, ExecutableAttributes;
  }

  /** A textual attribute is the same in the view. */
  lemma ViewText(n: Node, parent: string, inOptions: bool, name: string, id: nat)
    requires AttributeId(name) == Some(id) && id in ExecutableAttributes(n.tag, parent, inOptions) && !IsNumeric(id)
    ensures Attr(View(n, parent, inOptions, true), name) == Attr(n, name)
  {
    hide AttributeId, NormalText, ExecutableAttributes, View;
    ViewAttr(n, parent, inOptions, name, id);
    if Attr(n, name).Some? { NormalTextReads(name, Attr(n, name).value, id); }
  }

  // ----- Required semantics -----

  lemma {:induction false} ViewRequired(n: Node, parent: string, inOptions: bool, ancestor: bool)
    ensures HasRequired(View(n, parent, inOptions, ancestor)) == HasRequired(n)
    decreases n, 1
  {
    hide ViewAttrs, Allowed, ExecutablePath;
    AllViewRequired(n.children, n.tag, inOptions, ExecutablePath(n.tag, parent, inOptions, ancestor));
  }

  lemma {:induction false} AllViewRequired(ns: seq<Node>, parent: string, inOptions: bool, ancestor: bool)
    ensures AnyRequired(ViewAll(ns, parent, inOptions, ancestor)) == AnyRequired(ns)
    decreases ns, 0
  {
    hide View;
    if ns != [] {
      ViewRequired(ns[0], parent, inOptions, ancestor);
      AllViewRequired(ns[1..], parent, inOptions, ancestor);
      assert ViewAll(ns, parent, inOptions, ancestor)[1..] == ViewAll(ns[1..], parent, inOptions, ancestor);
    }
  }

  lemma {:induction false} ViewAt(ns: seq<Node>, parent: string, inOptions: bool, ancestor: bool, i: nat)
    requires i < |ns|
    ensures ViewAll(ns, parent, inOptions, ancestor)[i] == View(ns[i], parent, inOptions, ancestor)
  {
    hide View;
    if i > 0 { ViewAt(ns[1..], parent, inOptions, ancestor, i - 1); }
  }

  lemma ViewBeside(ns: seq<Node>, parent: string, inOptions: bool, ancestor: bool, tag: string)
    ensures RequiredBeside(ViewAll(ns, parent, inOptions, ancestor), tag) == RequiredBeside(ns, tag)
  {
    hide ViewAll, HasRequired;
    var vs := ViewAll(ns, parent, inOptions, ancestor);
    forall i | 0 <= i < |ns|
      ensures vs[i].tag == ns[i].tag && HasRequired(vs[i]) == HasRequired(ns[i])
    {
      ViewAt(ns, parent, inOptions, ancestor, i);
      ViewRequired(ns[i], parent, inOptions, ancestor);
    }
  }

  // ----- Options -----

  lemma {:induction false} ViewValues(ns: seq<Node>)
    ensures LoadValues(ViewAll(ns, "control", true, true)) == LoadValues(ns)
  {
    hide View, AttributeId, Attr;
    if ns != [] {
      var v := View(ns[0], "control", true, true);
      KnownIds();
      assert v.tag == ns[0].tag by { ViewTag(ns[0], "control", true, true); }
      if ns[0].tag == "value" {
        ViewText(ns[0], "control", true, "id", 1);
        ViewText(ns[0], "control", true, "name", 0);
      }
      ViewValues(ns[1..]);
      assert ViewAll(ns, "control", true, true)[1..] == ViewAll(ns[1..], "control", true, true);
    }
  }

  lemma ViewTag(n: Node, parent: string, inOptions: bool, ancestor: bool)
    ensures View(n, parent, inOptions, ancestor).tag == n.tag
            && View(n, parent, inOptions, ancestor).required == n.required
  {
  }

  lemma ViewChildren(n: Node, parent: string, inOptions: bool)
    requires ExecutablePath(n.tag, parent, inOptions, true)
    ensures View(n, parent, inOptions, true).children == ViewAll(n.children, n.tag, inOptions, true)
  {
  }

  lemma ViewControl(n: Node)
    requires n.tag == "control"
    ensures LoadControl(View(n, "subgroup", true, true)) == LoadControl(n)
  {
    hide View, AttributeId, Attr, HasRequired, LoadValues;
    KnownIds();
    ViewRequired(n, "subgroup", true, true);
    ViewText(n, "subgroup", true, "id", 1);
    ViewText(n, "subgroup", true, "name", 0);
    ViewText(n, "subgroup", true, "type", 2);
    ViewText(n, "subgroup", true, "refresh", 3);
    ViewChildren(n, "subgroup", true);
    ViewValues(n.children);
  }

  lemma {:induction false} ViewControls(ns: seq<Node>)
    ensures LoadControls(ViewAll(ns, "subgroup", true, true)) == LoadControls(ns)
  {
    hide View, LoadControl;
    if ns != [] {
      ViewTag(ns[0], "subgroup", true, true);
      if ns[0].tag == "control" { ViewControl(ns[0]); }
      ViewControls(ns[1..]);
      assert ViewAll(ns, "subgroup", true, true)[1..] == ViewAll(ns[1..], "subgroup", true, true);
    }
  }

  lemma {:induction false} ViewSubgroups(ns: seq<Node>)
    ensures LoadSubgroups(ViewAll(ns, "group", true, true)) == LoadSubgroups(ns)
  {
    hide View, LoadControls, RequiredBeside, AttributeId, Attr;
    if ns != [] {
      var n := ns[0];
      ViewTag(n, "group", true, true);
      if n.tag == "subgroup" {
        KnownIds();
        ViewText(n, "group", true, "name", 0);
        ViewText(n, "group", true, "pattern", 4);
        ViewChildren(n, "group", true);
        ViewBeside(n.children, "subgroup", true, true, "control");
        ViewControls(n.children);
      }
      ViewSubgroups(ns[1..]);
      assert ViewAll(ns, "group", true, true)[1..] == ViewAll(ns[1..], "group", true, true);
    }
  }

  lemma {:induction false} ViewGroups(ns: seq<Node>)
    ensures LoadGroups(ViewAll(ns, "options", true, true)) == LoadGroups(ns)
  {
    hide View, LoadSubgroups, RequiredBeside, AttributeId, Attr;
    if ns != [] {
      var n := ns[0];
      ViewTag(n, "options", true, true);
      if n.tag == "group" {
        KnownIds();
        ViewText(n, "options", true, "name", 0);
        ViewChildren(n, "options", true);
        ViewBeside(n.children, "group", true, true, "subgroup");
        ViewSubgroups(n.children);
      }
      ViewGroups(ns[1..]);
      assert ViewAll(ns, "options", true, true)[1..] == ViewAll(ns[1..], "options", true, true);
    }
  }

  /** The options vocabulary is read from the view. */
  lemma ViewOptions(root: Node)
    ensures LoadOptions(View(root, "", true, true)) == LoadOptions(root)
  {
    hide View, LoadGroups, RequiredBeside, AttributeId, Attr, ParseInteger, NormalText;
    var v := View(root, "", true, true);
    ViewTag(root, "", true, true);
    if root.tag == "options" {
      KnownIds();
      ViewAttr(root, "", true, "dbversion", 12);
      if Attr(root, "dbversion").Some? { NormalTextReads("dbversion", Attr(root, "dbversion").value, 12); }
      ViewText(root, "", true, "date", 13);
      ViewChildren(root, "", true);
      ViewBeside(root.children, "options", true, true, "group");
      ViewGroups(root.children);
    }
  }

  // ----- Controls of a profile -----

  predicate SameValue(a: MonitorValue, b: MonitorValue) {
    a.tag == b.tag && (a.tag == "value" ==> a.id == b.id && ParseWord(a.rawValue) == ParseWord(b.rawValue))
  }

  predicate SameValues(a: seq<MonitorValue>, b: seq<MonitorValue>) {
    |a| == |b| && forall i | 0 <= i < |a| :: SameValue(a[i], b[i])
  }

  predicate SameControl(a: MonitorControl, b: MonitorControl) {
    && a.id == b.id && a.unavailable == b.unavailable
    && ParseAddress(a.rawAddress) == ParseAddress(b.rawAddress) && ParseDelay(a.rawDelay) == ParseDelay(b.rawDelay)
    && SameValues(a.values, b.values)
  }

  predicate SameControls(a: seq<MonitorControl>, b: seq<MonitorControl>) {
    |a| == |b| && forall i | 0 <= i < |a| :: SameControl(a[i], b[i])
  }

  lemma ViewValue(n: Node)
    ensures var v := View(n, "control", false, true);
            SameValue(MonitorValue(v.tag, Attr(v, "id"), Attr(v, "value")),
                      MonitorValue(n.tag, Attr(n, "id"), Attr(n, "value")))
  {
    hide View, AttributeId, Attr, ParseInteger, NormalText;
    ViewTag(n, "control", false, true);
    if n.tag == "value" {
      KnownIds();
      ViewText(n, "control", false, "id", 1);
      ViewAttr(n, "control", false, "value", 8);
      if Attr(n, "value").Some? { NormalTextReads("value", Attr(n, "value").value, 8); }
    }
  }

  lemma {:induction false} ViewMonitorValues(ns: seq<Node>)
    ensures SameValues(MonitorValues(ViewAll(ns, "control", false, true)), MonitorValues(ns))
  {
    hide View, Attr, SameValue;
    if ns != [] {
      ViewValue(ns[0]);
      ViewMonitorValues(ns[1..]);
      assert ViewAll(ns, "control", false, true)[1..] == ViewAll(ns[1..], "control", false, true);
    }
  }

  lemma ViewMonitorControl(n: Node)
    ensures var a, b := MonitorControlOf(View(n, "controls", false, true)), MonitorControlOf(n);
            (a.Some? <==> b.Some?) && (a.Some? ==> SameControl(a.value, b.value))
  {
    hide View, AttributeId, Attr, ParseInteger, ParseDecimal, NormalText, HasRequired, MonitorValues, SameValues;
    ViewTag(n, "controls", false, true);
    if n.tag == "control" {
      KnownIds();
      ViewText(n, "controls", false, "id", 1);
      ViewAttr(n, "controls", false, "address", 6);
      ViewAttr(n, "controls", false, "delay", 7);
      if Attr(n, "address").Some? { NormalTextReads("address", Attr(n, "address").value, 6); }
      if Attr(n, "delay").Some? { NormalTextReads("delay", Attr(n, "delay").value, 7); }
      ViewRequired(n, "controls", false, true);
      ViewChildren(n, "controls", false);
      ViewMonitorValues(n.children);
    }
  }

  lemma {:induction false} ViewMonitorControls(ns: seq<Node>)
    ensures SameControls(MonitorControls(ViewAll(ns, "controls", false, true)), MonitorControls(ns))
  {
    hide View, MonitorControlOf, SameControl;
    if ns != [] {
      ViewMonitorControl(ns[0]);
      ViewMonitorControls(ns[1..]);
      assert ViewAll(ns, "controls", false, true)[1..] == ViewAll(ns[1..], "controls", false, true);
    }
  }

  // ----- Values, then placement -----

  lemma {:induction false} SameFindValue(a: seq<MonitorValue>, b: seq<MonitorValue>, id: string)
    requires SameValues(a, b)
    ensures FindValue(a, id).Some? <==> FindValue(b, id).Some?
    ensures FindValue(a, id).Some? ==>
            ParseWord(FindValue(a, id).value.rawValue) == ParseWord(FindValue(b, id).value.rawValue)
  {
    hide ParseWord;
    if a != [] {
      assert SameValue(a[0], b[0]);
      assert SameValues(a[1..], b[1..]) by {
        assert forall i | 0 <= i < |a| - 1 :: SameValue(a[1..][i], b[1..][i]) by {
          assert forall i | 0 <= i < |a| - 1 :: a[1..][i] == a[i + 1] && b[1..][i] == b[i + 1];
        }
      }
      SameFindValue(a[1..], b[1..], id);
    }
  }

  lemma {:induction false} SameCollect(oc: OptionControl, options: seq<OptionValue>, a: seq<MonitorValue>,
                                       b: seq<MonitorValue>)
    requires SameValues(a, b)
    ensures CollectValues(oc, options, a) == CollectValues(oc, options, b)
  {
    hide ParseWord, SameValues, FindValue, ValueName;
    if options != [] {
      SameFindValue(a, b, options[0].id);
      SameCollect(oc, options[1..], a, b);
    }
  }

  lemma SameMatchedValues(options: seq<OptionValue>, a: seq<MonitorValue>, b: seq<MonitorValue>)
    requires SameValues(a, b)
    ensures AllValuesMatched(options, a) == AllValuesMatched(options, b)
  {
    hide ParseWord, KnownValue;
    forall i: nat | i < |a|
      ensures ValueMatched(options, a, i) == ValueMatched(options, b, i)
    {
      assert SameValue(a[i], b[i]);
      assert forall j | 0 <= j < i :: SameValue(a[j], b[j]);
    }
  }

  lemma SameControlValues(oc: OptionControl, a: seq<MonitorValue>, b: seq<MonitorValue>, tolerant: bool)
    requires SameValues(a, b)
    ensures ControlValues(oc, a, tolerant) == ControlValues(oc, b, tolerant)
  {
    hide SameValues, CollectValues, AllValuesMatched;
    SameCollect(oc, oc.values, a, b);
    SameMatchedValues(oc.values, a, b);
  }

  lemma {:induction false} SameFind(a: seq<MonitorControl>, b: seq<MonitorControl>, id: string)
    requires SameControls(a, b)
    ensures Find(a, id).Some? <==> Find(b, id).Some?
    ensures Find(a, id).Some? ==> SameControl(Find(a, id).value, Find(b, id).value)
  {
    hide ParseAddress, ParseDelay, SameValues;
    if a != [] {
      assert SameControl(a[0], b[0]);
      SameRest(a, b);
      SameFind(a[1..], b[1..], id);
    }
  }

  lemma SameRest(a: seq<MonitorControl>, b: seq<MonitorControl>)
    requires SameControls(a, b) && a != []
    ensures SameControls(a[1..], b[1..])
  {
    hide SameControl;
    forall i | 0 <= i < |a| - 1
      ensures SameControl(a[1..][i], b[1..][i])
    { assert SameControl(a[i + 1], b[i + 1]); }
  }

  lemma SamePlaceOne(b: Build, slot: nat, oc: OptionControl, xs: seq<MonitorControl>, ys: seq<MonitorControl>,
                     mode: Mode)
    requires SameControls(xs, ys)
    ensures PlaceOne(b, slot, oc, xs, mode) == PlaceOne(b, slot, oc, ys, mode)
  {
    hide SameControls, Find, ParseAddress, ParseDelay, SameValues, ControlValues;
    SameFind(xs, ys, oc.id);
    if Find(xs, oc.id).Some? {
      SameControlValues(oc, Find(xs, oc.id).value.values, Find(ys, oc.id).value.values, mode.tolerant);
    }
  }

  lemma {:induction false} SamePlaceSlot(b: Build, slot: nat, ocs: seq<OptionControl>, xs: seq<MonitorControl>,
                                         ys: seq<MonitorControl>, mode: Mode)
    requires SameControls(xs, ys)
    ensures PlaceSlot(b, slot, ocs, xs, mode) == PlaceSlot(b, slot, ocs, ys, mode)
    decreases |ocs|
  {
    hide SameControls, PlaceOne;
    if ocs != [] {
      SamePlaceOne(b, slot, ocs[0], xs, ys, mode);
      var r := PlaceOne(b, slot, ocs[0], xs, mode);
      if r.Done? { SamePlaceSlot(r.build, slot, ocs[1..], xs, ys, mode); }
    }
  }

  lemma {:induction false} SamePlaceAll(b: Build, slot: nat, subgroups: seq<OptionSubgroup>, xs: seq<MonitorControl>,
                                        ys: seq<MonitorControl>, mode: Mode)
    requires SameControls(xs, ys)
    ensures PlaceAll(b, slot, subgroups, xs, mode) == PlaceAll(b, slot, subgroups, ys, mode)
    decreases |subgroups|
  {
    hide SameControls, PlaceSlot;
    if subgroups != [] {
      SamePlaceSlot(b, slot, subgroups[0].controls, xs, ys, mode);
      var r := PlaceSlot(b, slot, subgroups[0].controls, xs, mode);
      if r.Done? { SamePlaceAll(r.build, slot + 1, subgroups[1..], xs, ys, mode); }
    }
  }

  lemma {:induction false} SameBlock(b: Build, options: Options, xs: seq<MonitorControl>, ys: seq<MonitorControl>)
    requires SameControls(xs, ys)
    ensures Block(b, options, xs) == Block(b, options, ys)
    decreases |xs|
  {
    hide ParseAddress, ParseDelay, SameValues, Blocked, Suppress;
    if xs != [] {
      assert SameControl(xs[0], ys[0]);
      SameRest(xs, ys);
      SameBlock(b, options, xs[1..], ys[1..]);
      var address := ParseAddress(xs[0].rawAddress);
      if address.Some? { SameBlock(Suppress(b, address.value), options, xs[1..], ys[1..]); }
    }
  }

  lemma {:induction false} ViewReserve(b: Build, ns: seq<Node>)
    requires !RequiredBeside(ns, "control")
    ensures Reserve(b, ViewAll(ns, "controls", false, true)) == Reserve(b, ns)
    decreases |ns|
  {
    hide View, AttributeId, Attr, ParseInteger, NormalText, HasRequired, Suppress;
    if ns != [] {
      var n, rest := ns[0], ns[1..];
      assert forall i | 0 <= i < |rest| :: rest[i] == ns[i + 1];
      assert ViewAll(ns, "controls", false, true)[1..] == ViewAll(rest, "controls", false, true);
      ViewRequired(n, "controls", false, true);
      if HasRequired(n) {
        assert n.tag == "control";
        KnownIds();
        ViewAttr(n, "controls", false, "address", 6);
        if Attr(n, "address").Some? { NormalTextReads("address", Attr(n, "address").value, 6); }
        var address := ParseAddress(Attr(n, "address"));
        if address.Some? { ViewReserve(Suppress(b, address.value), rest); }
      } else {
        ViewReserve(b, rest);
      }
    }
  }

  lemma ViewMatched(options: Options, ns: seq<Node>)
    ensures AllMatched(options, ViewAll(ns, "controls", false, true)) == AllMatched(options, ns)
  {
    hide View, ViewAll, HasRequired, MonitorControlOf, Blocked, KnownControl, ParseAddress, ParseDelay, SameValues;
    var vs := ViewAll(ns, "controls", false, true);
    forall i | 0 <= i < |ns|
      ensures HasRequired(vs[i]) == HasRequired(ns[i]) && SameId(MonitorControlOf(vs[i]), MonitorControlOf(ns[i]))
    {
      ViewAt(ns, "controls", false, true, i);
      ViewRequired(ns[i], "controls", false, true);
      ViewMonitorControl(ns[i]);
    }
    forall i: nat | i < |ns|
      ensures Matched(options, vs, i) == Matched(options, ns, i)
    {
      assert forall j | 0 <= j <= i :: SameId(MonitorControlOf(vs[j]), MonitorControlOf(ns[j]));
    }
  }

  predicate SameId(a: Option<MonitorControl>, b: Option<MonitorControl>) {
    (a.Some? <==> b.Some?) && (a.Some? ==> a.value.id == b.value.id)
  }

  lemma ViewControlsElement(b: Build, options: Options, n: Node, mode: Mode)
    requires n.tag == "controls"
    ensures ControlsElement(b, options, View(n, "monitor", false, true), mode) == ControlsElement(b, options, n, mode)
  {
    hide View, RequiredBeside, Reserve, PlaceAll, Block, AllMatched, MonitorControls, SameControls;
    ViewChildren(n, "monitor", false);
    ViewBeside(n.children, "controls", false, true, "control");
    if !RequiredBeside(n.children, "control") {
      ViewReserve(b, n.children);
      var r := Reserve(b, n.children);
      if r.Done? {
        var vs := ViewAll(n.children, "controls", false, true);
        ViewMonitorControls(n.children);
        SameBlock(r.build, options, MonitorControls(vs), MonitorControls(n.children));
        var s := Block(r.build, options, MonitorControls(n.children));
        if s.Done? { SamePlaceAll(s.build, 0, Subgroups(options), MonitorControls(vs), MonitorControls(n.children),
                                  mode); }
        ViewMatched(options, n.children);
      }
    }
  }

  // ----- Roots and the recursive build -----

  lemma ViewOpenRoot(b: Build, root: Node, mode: Mode)
    requires root.tag == "monitor"
    ensures OpenRoot(b, View(root, "", false, true), mode) == OpenRoot(b, root, mode)
  {
    hide View, AttributeId, Attr;
    KnownIds();
    ViewText(root, "", false, "name", 0);
    ViewText(root, "", false, "init", 5);
    ViewText(root, "", false, "caps", 14);
    ViewText(root, "", false, "include", 15);
  }

  lemma ViewCaps(b: Build, n: Node)
    requires n.tag == "caps"
    ensures CapsElement(b, View(n, "monitor", false, true)) == CapsElement(b, n)
  {
    hide View, AttributeId, Attr, EditCaps;
    KnownIds();
    ViewText(n, "monitor", false, "add", 10);
    ViewText(n, "monitor", false, "remove", 11);
  }

  function ViewRoot(root: Option<Node>): Option<Node> {
    if root.None? then None else Some(View(root.value, "", false, true))
  }

  /** A context with every profile replaced by its executable view. */
  function ViewContext(ctx: Context): Context
    requires ctx.monitorFile.None?
  { Context(map id | id in ctx.profiles :: ViewRoot(ctx.profiles[id]), ctx.options, None) }

  lemma ViewFindRoot(ctx: Context, name: string, top: bool)
    requires ctx.monitorFile.None?
    ensures var a, b := FindRoot(ViewContext(ctx), name, top), FindRoot(ctx, name, top);
            && (b.Found? ==> a == Found(View(b.root, "", false, true)) && b.root.tag == "monitor")
            && (b.NoRoot? ==> a == b)
  {
    hide View;
    if name in ctx.profiles && ctx.profiles[name].Some? { ViewTag(ctx.profiles[name].value, "", false, true); }
  }

  lemma {:induction false} ViewCreate(ctx: Context, b: Build, name: string, level: nat, mode: Mode)
    requires ctx.monitorFile.None?
    ensures CreateDb(ViewContext(ctx), b, name, level, mode) == CreateDb(ctx, b, name, level, mode)
    decreases Rank(level), 1, 0
  {
    hide View, FindRoot, ViewContext, Elements, OpenRoot, ValidName;
    ViewFindRoot(ctx, name, level == 0);
    var found := FindRoot(ctx, name, level == 0);
    if level <= MAX_LEVEL && Visit(b).Done? && found.Found? {
      var root := found.root;
      ViewOpenRoot(Visit(b).build, root, mode);
      ViewChildren(root, "", false);
      var r := OpenRoot(Visit(b).build, root, mode);
      if r.Done? { ViewElements(ctx, r.build, root.children, level, mode, false, false); }
    }
  }

  lemma {:induction false} ViewElements(ctx: Context, b: Build, ns: seq<Node>, level: nat, mode: Mode,
                                        seenControls: bool, seenAny: bool)
    requires ctx.monitorFile.None? && level <= MAX_LEVEL
    ensures Elements(ViewContext(ctx), b, ViewAll(ns, "monitor", false, true), level, mode, seenControls, seenAny) ==
            Elements(ctx, b, ns, level, mode, seenControls, seenAny)
    decreases Rank(level), 0, |ns|
  {
    hide View, ViewContext, Element;
    if ns != [] {
      ViewTag(ns[0], "monitor", false, true);
      ViewElement(ctx, b, ns[0], level, mode, seenControls);
      assert ViewAll(ns, "monitor", false, true)[1..] == ViewAll(ns[1..], "monitor", false, true);
      var r := Element(ctx, b, ns[0], level, mode, seenControls);
      if r.Done? {
        ViewElements(ctx, r.build, ns[1..], level, mode, seenControls || ns[0].tag == "controls",
                     seenAny || ns[0].tag == "controls" || ns[0].tag == "include");
      }
    }
  }

  lemma {:induction false} ViewElement(ctx: Context, b: Build, n: Node, level: nat, mode: Mode, seenControls: bool)
    requires ctx.monitorFile.None? && level <= MAX_LEVEL
    ensures Element(ViewContext(ctx), b, View(n, "monitor", false, true), level, mode, seenControls) ==
            Element(ctx, b, n, level, mode, seenControls)
    decreases Rank(level), 0, 0
  {
    hide View, HasRequired, CapsElement, ControlsElement, CreateDb, Attr, AttributeId;
    ViewTag(n, "monitor", false, true);
    ViewRequired(n, "monitor", false, true);
    if n.tag == "caps" {
      ViewCaps(b, n);
    } else if n.tag == "include" {
      KnownIds();
      ViewText(n, "monitor", false, "file", 9);
      if Attr(n, "file").Some? { ViewCreate(ctx, b, Attr(n, "file").value, level + 1, mode); }
    } else if n.tag == "controls" {
      ViewControlsElement(b, ctx.options, n, mode);
    }
  }

  // ----- The required-feature scan -----

  ghost predicate MonitorRoots(ctx: Context) {
    forall id | id in ctx.profiles && ctx.profiles[id].Some? :: ctx.profiles[id].value.tag == "monitor"
  }

  lemma ViewNamesShared(options: Options, ns: seq<Node>, i: nat)
    requires i < |ns|
    ensures NamesShared(options, ViewAll(ns, "controls", false, true)[i]) == NamesShared(options, ns[i])
  {
    hide View, ViewAll, Blocked, Attr, AttributeId;
    ViewAt(ns, "controls", false, true, i);
    ViewTag(ns[i], "controls", false, true);
    if ns[i].tag == "control" {
      KnownIds();
      ViewText(ns[i], "controls", false, "id", 1);
    }
  }

  lemma ViewChildDemands(options: Options, n: Node)
    ensures ChildDemands(options, View(n, "monitor", false, true)) == ChildDemands(options, n)
  {
    hide View, ViewAll, HasRequired, NamesShared;
    ViewTag(n, "monitor", false, true);
    ViewRequired(n, "monitor", false, true);
    if n.tag == "controls" {
      ViewChildren(n, "monitor", false);
      forall i: nat | i < |n.children|
        ensures NamesShared(options, ViewAll(n.children, "controls", false, true)[i]) ==
                NamesShared(options, n.children[i])
      { ViewNamesShared(options, n.children, i); }
    }
  }

  lemma ViewDemands(options: Options, root: Node)
    requires root.tag == "monitor"
    ensures Demands(options, View(root, "", false, true)) == Demands(options, root)
  {
    hide View, ViewAll, ChildDemands;
    ViewTag(root, "", false, true);
    ViewChildren(root, "", false);
    forall i: nat | i < |root.children|
      ensures ChildDemands(options, ViewAll(root.children, "monitor", false, true)[i]) ==
              ChildDemands(options, root.children[i])
    {
      ViewAt(root.children, "monitor", false, true, i);
      ViewChildDemands(options, root.children[i]);
    }
  }

  lemma ViewIncludes(root: Node, file: string)
    requires root.tag == "monitor"
    ensures Includes(View(root, "", false, true), file) == Includes(root, file)
  {
    hide View, ViewAll, Attr, AttributeId;
    ViewChildren(root, "", false);
    var vs := ViewAll(root.children, "monitor", false, true);
    forall i: nat | i < |root.children|
      ensures vs[i].tag == root.children[i].tag
              && (vs[i].tag == "include" ==> Attr(vs[i], "file") == Attr(root.children[i], "file"))
    {
      ViewAt(root.children, "monitor", false, true, i);
      ViewTag(root.children[i], "monitor", false, true);
      if root.children[i].tag == "include" {
        KnownIds();
        ViewText(root.children[i], "monitor", false, "file", 9);
      }
    }
  }

  lemma ViewKey(ctx: Context, k: Key)
    requires ctx.monitorFile.None? && MonitorRoots(ctx)
    ensures RootAt(ViewContext(ctx), k) == ViewRoot(RootAt(ctx, k))
    ensures DemandsAt(ViewContext(ctx), k) == DemandsAt(ctx, k)
    ensures forall next: Key :: Link(ViewContext(ctx), k, next) == Link(ctx, k, next)
  {
    hide View, Demands, Includes;
    if RootAt(ctx, k).Some? {
      ViewDemands(ctx.options, RootAt(ctx, k).value);
      forall next: Key
        ensures Link(ViewContext(ctx), k, next) == Link(ctx, k, next)
      { ViewIncludes(RootAt(ctx, k).value, next.0); }
    }
  }

  lemma ViewDemanding(ctx: Context, k: Key)
    requires ctx.monitorFile.None? && MonitorRoots(ctx)
    ensures Demanding(ViewContext(ctx), k) == Demanding(ctx, k)
  {
    hide ViewContext, DemandsAt, Link;
    forall p: seq<Key> | p != []
      ensures Trail(ViewContext(ctx), p) == Trail(ctx, p)
              && DemandsAt(ViewContext(ctx), p[|p| - 1]) == DemandsAt(ctx, p[|p| - 1])
    {
      ViewKey(ctx, p[|p| - 1]);
      forall i | 0 <= i < |p| - 1
        ensures Link(ViewContext(ctx), p[i], p[i + 1]) == Link(ctx, p[i], p[i + 1])
      { ViewKey(ctx, p[i]); }
    }
  }
}
