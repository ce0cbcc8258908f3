/** The profile loader as a function of its state: one recursive build over the
    include graph, sharing the tree, the defined addresses and the capabilities. */
module Loader {
  import opened Base
  import opened Numbers
  import opened Caps
  import opened Database

  const MAX_VISITS: nat := 1_000_000
  const MAX_LEVEL: nat := 15

  datatype Init = InitUnknown | InitStandard | InitSamsung

  datatype Value = Value(id: string, name: string, value: Word)

  datatype Control = Control(
    id: string, name: string, address: Code, delay: int, controlType: ControlType, refresh: Refresh, values: seq<Value>)

  /** `slots[k]` holds the controls placed in the k-th subgroup of the options. */
  datatype Build = Build(
    visits: nat, name: Option<string>, init: Init, slots: seq<seq<Control>>, defined: set<Code>, caps: CapsTable)

  /** Why a load stops. Only `Required` reports required semantics and only
      `Missing` reports an absent profile. */
  datatype Failure = InvalidName | VisitLimit | TooDeep | Missing | Required | Invalid

  datatype Outcome = Done(build: Build) | Failed(why: Failure)

  datatype Mode = Mode(tolerant: bool, validateAll: bool)

  // ----- Monitor controls -----

  datatype MonitorValue = MonitorValue(tag: string, id: Option<string>, rawValue: Option<string>)

  datatype MonitorControl = MonitorControl(
    id: string, rawAddress: Option<string>, rawDelay: Option<string>, values: seq<MonitorValue>, unavailable: bool)

  /** What `parse_monitor_controls` keeps of one child; None for a child that is
      not a control with an ID. */
  function MonitorControlOf(n: Node): Option<MonitorControl> {
    if n.tag != "control" then None
    else
      match Attr(n, "id")
      case None => None
      case Some(id) => Some(MonitorControl(id, Attr(n, "address"), Attr(n, "delay"), MonitorValues(n.children),
                                           HasRequired(n)))
  }

  function MonitorValues(ns: seq<Node>): seq<MonitorValue> {
    if ns == [] then []
    else [MonitorValue(ns[0].tag, Attr(ns[0], "id"), Attr(ns[0], "value"))] + MonitorValues(ns[1..])
  }

  function MonitorControls(ns: seq<Node>): seq<MonitorControl> {
    if ns == [] then []
    else
      var rest := MonitorControls(ns[1..]);
      match MonitorControlOf(ns[0])
      case None => rest
      case Some(control) => [control] + rest
  }

  /** The first control with an ID is the one that counts. */
  function Find(controls: seq<MonitorControl>, id: string): Option<MonitorControl> {
    if controls == [] then None else if controls[0].id == id then Some(controls[0]) else Find(controls[1..], id)
  }

  function ParseAddress(raw: Option<string>): Option<Code> {
    if raw.None? then None
    else
      match ParseInteger(raw.value)
      case None => None
      case Some(n) => if 0 <= n <= 255 then Some(n) else None
  }

  function ParseDelay(raw: Option<string>): Option<int> {
    if raw.None? then Some(-1)
    else
      match ParseDecimal(raw.value)
      case None => None
      case Some(n) => if -0x8000_0000 <= n <= 0x7FFF_FFFF then Some(n) else None
  }

  // ----- Values -----

  function FindValue(values: seq<MonitorValue>, id: string): Option<MonitorValue> {
    if values == [] then None
    else if values[0].tag == "value" && values[0].id == Some(id) then Some(values[0])
    else FindValue(values[1..], id)
  }

  function ValueName(control: OptionControl, value: OptionValue): Option<string> {
    if control.controlType.CommandControl? && value.name.None? then Some(control.name) else value.name
  }

  function ParseWord(raw: Option<string>): Option<Word> {
    if raw.None? then None
    else
      match ParseInteger(raw.value)
      case None => None
      case Some(n) => if 0 <= n <= 0xFFFF then Some(n) else None
  }

  function CollectValues(control: OptionControl, options: seq<OptionValue>,
                         values: seq<MonitorValue>): Option<seq<Value>> {
    if options == [] then Some([])
    else
      match FindValue(values, options[0].id)
      case None => CollectValues(control, options[1..], values)
      case Some(found) =>
        match (ParseWord(found.rawValue), ValueName(control, options[0]), CollectValues(control, options[1..], values))
        case (Some(word), Some(name), Some(rest)) => Some([Value(options[0].id, name, word)] + rest)
        case (_, _, _) => None
  }

  predicate KnownValue(options: seq<OptionValue>, id: string) {
    exists i | 0 <= i < |options| :: options[i].id == id
  }

  /** Value i is used: the first element with its ID, and an ID the options know. */
  predicate ValueMatched(options: seq<OptionValue>, values: seq<MonitorValue>, i: nat)
    requires i < |values|
  {
    && values[i].tag == "value" && values[i].id.Some? && KnownValue(options, values[i].id.value)
    && forall j | 0 <= j < i :: !(values[j].tag == "value" && values[j].id == values[i].id)
  }

  predicate AllValuesMatched(options: seq<OptionValue>, values: seq<MonitorValue>) {
    forall i | 0 <= i < |values| :: ValueMatched(options, values, i)
  }

  /** `get_value_list`, with the default value of a bare command. */
  function ControlValues(control: OptionControl, values: seq<MonitorValue>, tolerant: bool): Option<seq<Value>> {
    match CollectValues(control, control.values, values)
    case None => None
    case Some(found) =>
      if !tolerant && !AllValuesMatched(control.values, values) then None
      else if control.controlType.CommandControl? && found == [] then Some([Value("default", control.name, 1)])
      else Some(found)
  }

  // ----- Suppression -----

  function DropAddress(controls: seq<Control>, address: Code): seq<Control> {
    if controls == [] then []
    else
      var rest := DropAddress(controls[1..], address);
      if controls[0].address == address then rest else [controls[0]] + rest
  }

  /** `suppress_address`: taken for good, and gone from the tree built so far. */
  function Suppress(b: Build, address: Code): Build {
    b.(slots := seq(|b.slots|, k requires 0 <= k < |b.slots| => DropAddress(b.slots[k], address)),
       defined := b.defined + {address})
  }

  /** Required controls reserve their addresses, whatever their ID. */
  function Reserve(b: Build, ns: seq<Node>): Outcome
    decreases |ns|
  {
    if ns == [] then Done(b)
    else if !HasRequired(ns[0]) then Reserve(b, ns[1..])
    else
      match ParseAddress(Attr(ns[0], "address"))
      case None => Failed(Required)
      case Some(address) => Reserve(Suppress(b, address), ns[1..])
  }

  predicate Blocked(options: Options, id: string) {
    var controls := Controls(Subgroups(options));
    exists i | 0 <= i < |controls| :: controls[i].id == id && controls[i].unavailable
  }

  /** So do the controls whose shared definition is unavailable. */
  function Block(b: Build, options: Options, controls: seq<MonitorControl>): Outcome
    decreases |controls|
  {
    if controls == [] then Done(b)
    else if !Blocked(options, controls[0].id) then Block(b, options, controls[1..])
    else
      match ParseAddress(controls[0].rawAddress)
      case None => Failed(Required)
      case Some(address) => Block(Suppress(b, address), options, controls[1..])
  }

  // ----- Placing controls -----

  function PlaceOne(b: Build, slot: nat, oc: OptionControl, controls: seq<MonitorControl>, mode: Mode): Outcome {
    match Find(controls, oc.id)
    case None => Done(b)
    case Some(mc) =>
      if mc.unavailable || oc.unavailable then Done(b)
      else
        match ParseAddress(mc.rawAddress)
        case None => Failed(Invalid)
        case Some(address) =>
          if !mode.validateAll && (address !in b.caps.vcp || address in b.defined) then Done(b)
          else Push(b, slot, oc, mc, address, mode)
  }

  function Push(b: Build, slot: nat, oc: OptionControl, mc: MonitorControl, address: Code, mode: Mode): Outcome {
    match (ControlValues(oc, mc.values, mode.tolerant), ParseDelay(mc.rawDelay))
    case (Some(values), Some(delay)) =>
      var control := Control(oc.id, oc.name, address, delay, oc.controlType, oc.refresh, values);
      Done(b.(slots := if slot < |b.slots| then b.slots[slot := b.slots[slot] + [control]] else b.slots,
              defined := b.defined + {address}))
    case (_, _) => Failed(Invalid)
  }

  function PlaceSlot(b: Build, slot: nat, ocs: seq<OptionControl>, controls: seq<MonitorControl>, mode: Mode): Outcome
    decreases |ocs|
  {
    if ocs == [] then Done(b)
    else
      match PlaceOne(b, slot, ocs[0], controls, mode)
      case Failed(why) => Failed(why)
      case Done(b1) => PlaceSlot(b1, slot, ocs[1..], controls, mode)
  }

  function PlaceAll(b: Build, slot: nat, subgroups: seq<OptionSubgroup>, controls: seq<MonitorControl>,
                    mode: Mode): Outcome
    decreases |subgroups|
  {
    if subgroups == [] then Done(b)
    else
      match PlaceSlot(b, slot, subgroups[0].controls, controls, mode)
      case Failed(why) => Failed(why)
      case Done(b1) => PlaceAll(b1, slot + 1, subgroups[1..], controls, mode)
  }

  predicate KnownControl(options: Options, id: string) {
    var controls := Controls(Subgroups(options));
    exists i | 0 <= i < |controls| :: controls[i].id == id
  }

  /** Child i of a controls element is accounted for: unavailable, blocked, or the
      first control with an ID the options know. */
  predicate Matched(options: Options, ns: seq<Node>, i: nat)
    requires i < |ns|
  {
    HasRequired(ns[i]) ||
    var mc := MonitorControlOf(ns[i]);
    mc.Some? &&
    (Blocked(options, mc.value.id) ||
     (KnownControl(options, mc.value.id) &&
      forall j | 0 <= j < i :: MonitorControlOf(ns[j]).None? || MonitorControlOf(ns[j]).value.id != mc.value.id))
  }

  predicate AllMatched(options: Options, ns: seq<Node>) { forall i | 0 <= i < |ns| :: Matched(options, ns, i) }

  /** `add_controls_from_options`. */
  function AddControls(b: Build, options: Options, ns: seq<Node>, mode: Mode): Outcome {
    var controls := MonitorControls(ns);
    match Block(b, options, controls)
    case Failed(why) => Failed(why)
    case Done(b1) =>
      match PlaceAll(b1, 0, Subgroups(options), controls, mode)
      case Failed(why) => Failed(why)
      case Done(b2) => if mode.tolerant || AllMatched(options, ns) then Done(b2) else Failed(Invalid)
  }

  /** A `controls` element. */
  function ControlsElement(b: Build, options: Options, n: Node, mode: Mode): Outcome {
    if RequiredBeside(n.children, "control") then Failed(Required)
    else
      match Reserve(b, n.children)
      case Failed(why) => Failed(why)
      case Done(b1) => AddControls(b1, options, n.children, mode)
  }

  // ----- Capabilities and roots -----

  /** `apply_caps`: a string must parse, hold no NUL and mention a code. */
  function EditCaps(caps: CapsTable, edit: Edit, input: Option<string>): Option<CapsTable> {
    if input.None? then Some(caps)
    else if '\0' in input.value || Parse(input.value).Bad? || Parse(input.value).value.vcp == [] then None
    else Apply(caps, edit, input.value)
  }

  function CapsElement(b: Build, n: Node): Outcome {
    var remove, add := Attr(n, "remove"), Attr(n, "add");
    if remove.None? && add.None? then Failed(Invalid)
    else
      match EditCaps(b.caps, Remove, remove)
      case None => Failed(Invalid)
      case Some(caps) =>
        match EditCaps(caps, Add, add)
        case None => Failed(Invalid)
        case Some(caps') => Done(b.(caps := caps'))
  }

  function InitOf(root: Node): Option<Init> {
    match Attr(root, "init")
    case None => Some(InitUnknown)
    case Some(text) => if text == "standard" then Some(InitStandard) else if text == "samsung" then Some(InitSamsung)
        else None
  }

  /** The attributes of a `monitor` root: the first name and the first init found
      are kept; deprecated attributes are tolerated or refused. */
  function OpenRoot(b: Build, root: Node, mode: Mode): Outcome {
    var name := if b.name.Some? then b.name else Attr(root, "name");
    if name.None? then Failed(Invalid)
    else if (b.init.InitUnknown? || mode.validateAll) && InitOf(root).None? then Failed(Invalid)
    else if !mode.tolerant && (Attr(root, "caps").Some? || Attr(root, "include").Some?) then Failed(Invalid)
    else Done(b.(name := name, init := if b.init.InitUnknown? then InitOf(root).value else b.init))
  }

  function Visit(b: Build): Outcome {
    if b.visits + 1 > MAX_VISITS then Failed(VisitLimit) else Done(b.(visits := b.visits + 1))
  }

  // ----- The recursive build -----

  function Rank(level: nat): nat { if level <= MAX_LEVEL then MAX_LEVEL + 1 - level else 0 }

  /** `create_db_protected`. */
  function CreateDb(ctx: Context, b: Build, name: string, level: nat, mode: Mode): Outcome
    decreases Rank(level), 1, 0
  {
    if !ValidName(name) then Failed(InvalidName)
    else
      match Visit(b)
      case Failed(why) => Failed(why)
      case Done(b1) =>
        if level > MAX_LEVEL then Failed(TooDeep)
        else
          match FindRoot(ctx, name, level == 0)
          case NoRoot(why) => Failed(why)
          case Found(root) =>
            match OpenRoot(b1, root, mode)
            case Failed(why) => Failed(why)
            case Done(b2) => Elements(ctx, b2, root.children, level, mode, false, false)
  }

  datatype Lookup = Found(root: Node) | NoRoot(why: Failure)

  function FindRoot(ctx: Context, name: string, top: bool): Lookup {
    if !(top && Overrides(ctx, name)) && name !in ctx.profiles then NoRoot(Missing)
    else
      match Root(ctx, name, top)
      case None => NoRoot(Invalid)
      case Some(root) =>
        if root.required then NoRoot(Required)
        else if root.tag != "monitor" then NoRoot(Invalid)
        else Found(root)
  }

  /** The remaining children of a root, in order. */
  function Elements(ctx: Context, b: Build, ns: seq<Node>, level: nat, mode: Mode, seenControls: bool,
                    seenAny: bool): Outcome
    requires level <= MAX_LEVEL
    decreases Rank(level), 0, |ns|
  {
    if ns == [] then if seenAny then Done(b) else Failed(Invalid)
    else
      match Element(ctx, b, ns[0], level, mode, seenControls)
      case Failed(why) => Failed(why)
      case Done(b1) =>
        Elements(ctx, b1, ns[1..], level, mode, seenControls || ns[0].tag == "controls",
                 seenAny || ns[0].tag == "controls" || ns[0].tag == "include")
  }

  function Element(ctx: Context, b: Build, n: Node, level: nat, mode: Mode, seenControls: bool): Outcome
    requires level <= MAX_LEVEL
    decreases Rank(level), 0, 0
  {
    if n.required || (n.tag != "controls" && HasRequired(n)) then Failed(Required)
    else if n.tag == "caps" then CapsElement(b, n)
    else if n.tag == "include" then
      match Attr(n, "file")
      case None => Failed(Invalid)
      case Some(file) => CreateDb(ctx, b, file, level + 1, mode)
    else if n.tag == "controls" then
      if seenControls then Failed(Invalid) else ControlsElement(b, ctx.options, n, mode)
    else if mode.validateAll then Failed(Invalid)
    else Done(b)
  }

  // ----- A whole load -----

  function Start(options: Options, caps: CapsTable): Build {
    Build(0, None, InitUnknown, seq(|Subgroups(options)|, _ => []), {}, caps)
  }

  datatype GroupTree = GroupTree(name: string, subgroups: seq<SubgroupTree>)
  datatype SubgroupTree = SubgroupTree(name: string, pattern: Option<string>, controls: seq<Control>)
  datatype Monitor = Monitor(name: string, init: Init, groups: seq<GroupTree>)

  /** The slots arranged under their groups, empty subgroups and groups pruned. */
  function Arrange(options: Options, slots: seq<seq<Control>>): seq<GroupTree>
    requires |slots| == |Subgroups(options)|
  {
    if options == [] then []
    else
      var n := |options[0].subgroups|;
      var subgroups := Prune(options[0].subgroups, slots[..n]);
      var rest := Arrange(options[1..], slots[n..]);
      if subgroups == [] then rest else [GroupTree(options[0].name, subgroups)] + rest
  }

  function Prune(subgroups: seq<OptionSubgroup>, slots: seq<seq<Control>>): seq<SubgroupTree>
    requires |slots| == |subgroups|
  {
    if subgroups == [] then []
    else
      var rest := Prune(subgroups[1..], slots[1..]);
      if slots[0] == [] then rest else [SubgroupTree(subgroups[0].name, subgroups[0].pattern, slots[0])] + rest
  }
}
