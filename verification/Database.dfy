/** The decoded database: node trees, the shared options vocabulary and the
    context a session loads from. */
module Database {
  import opened Base
  import opened Numbers

  /** One element of a profile or of the options file. `required` marks semantics
      this implementation does not know. */
  datatype Node = Node(tag: string, attrs: map<string, string>, children: seq<Node>, line: nat, required: bool)

  function Attr(n: Node, name: string): Option<string> {
    if name in n.attrs then Some(n.attrs[name]) else None
  }

  predicate HasRequired(n: Node)
    decreases n, 1
  { n.required || AnyRequired(n.children) }

  predicate AnyRequired(ns: seq<Node>)
    decreases ns, 0
  { ns != [] && (HasRequired(ns[0]) || AnyRequired(ns[1..])) }

  lemma {:induction false} AnyRequiredMember(ns: seq<Node>, i: nat)
    requires i < |ns| && HasRequired(ns[i])
    ensures AnyRequired(ns)
  {
    if i > 0 { AnyRequiredMember(ns[1..], i - 1); }
  }

  /** The children with a given tag that are not allowed to be unknown. */
  predicate RequiredBeside(ns: seq<Node>, tag: string) {
    exists i | 0 <= i < |ns| :: ns[i].tag != tag && HasRequired(ns[i])
  }

  // ----- Options -----

  datatype ControlType = ValueControl | CommandControl | ListControl

  datatype Refresh = RefreshNone | RefreshAll

  datatype OptionValue = OptionValue(id: string, name: Option<string>)

  datatype OptionControl = OptionControl(
    unavailable: bool, id: string, name: string, controlType: ControlType, refresh: Refresh,
    values: seq<OptionValue>)

  datatype OptionSubgroup = OptionSubgroup(name: string, pattern: Option<string>, controls: seq<OptionControl>)

  datatype OptionGroup = OptionGroup(name: string, subgroups: seq<OptionSubgroup>)

  type Options = seq<OptionGroup>

  /** All subgroups in order; their positions number the slots of a build. */
  function Subgroups(options: Options): seq<OptionSubgroup> {
    if options == [] then [] else options[0].subgroups + Subgroups(options[1..])
  }

  function Controls(subgroups: seq<OptionSubgroup>): seq<OptionControl> {
    if subgroups == [] then [] else subgroups[0].controls + Controls(subgroups[1..])
  }

  const DBVERSION: int := 3

  function LoadValues(ns: seq<Node>): Option<seq<OptionValue>> {
    if ns == [] then Some([])
    else if ns[0].tag != "value" then LoadValues(ns[1..])
    else
      match (Attr(ns[0], "id"), LoadValues(ns[1..]))
      case (Some(id), Some(rest)) => Some([OptionValue(id, Attr(ns[0], "name"))] + rest)
      case (_, _) => None
  }

  function LoadControl(n: Node): Option<OptionControl> {
    if HasRequired(n) then
      match Attr(n, "id")
      case None => None
      case Some(id) => Some(OptionControl(true, id, "", ValueControl, RefreshNone, []))
    else
      var refresh := Attr(n, "refresh");
      var kind := Attr(n, "type");
      if refresh != None && refresh != Some("none") && refresh != Some("all") then None
      else if kind != Some("value") && kind != Some("command") && kind != Some("list") then None
      else
        match (Attr(n, "id"), Attr(n, "name"), LoadValues(n.children))
        case (Some(id), Some(name), Some(values)) =>
          Some(OptionControl(false, id, name,
            if kind == Some("value") then ValueControl else if kind == Some("command") then CommandControl
                else ListControl,
            if refresh == Some("all") then RefreshAll else RefreshNone, values))
        case (_, _, _) => None
  }

  function LoadControls(ns: seq<Node>): Option<seq<OptionControl>> {
    if ns == [] then Some([])
    else if ns[0].tag != "control" then LoadControls(ns[1..])
    else
      match (LoadControl(ns[0]), LoadControls(ns[1..]))
      case (Some(control), Some(rest)) => Some([control] + rest)
      case (_, _) => None
  }

  function LoadSubgroups(ns: seq<Node>): Option<seq<OptionSubgroup>> {
    if ns == [] then Some([])
    else if ns[0].tag != "subgroup" then LoadSubgroups(ns[1..])
    else if ns[0].required || RequiredBeside(ns[0].children, "control") then None
    else
      match (Attr(ns[0], "name"), LoadControls(ns[0].children), LoadSubgroups(ns[1..]))
      case (Some(name), Some(controls), Some(rest)) => Some([OptionSubgroup(name, Attr(ns[0], "pattern"), controls)] +
                                                            rest)
      case (_, _, _) => None
  }

  function LoadGroups(ns: seq<Node>): Option<Options> {
    if ns == [] then Some([])
    else if ns[0].tag != "group" then LoadGroups(ns[1..])
    else if ns[0].required || RequiredBeside(ns[0].children, "subgroup") then None
    else
      match (Attr(ns[0], "name"), LoadSubgroups(ns[0].children), LoadGroups(ns[1..]))
      case (Some(name), Some(subgroups), Some(rest)) => Some([OptionGroup(name, subgroups)] + rest)
      case (_, _, _) => None
  }

  /** `load_options_node`. */
  function LoadOptions(root: Node): Option<Options> {
    if root.required || RequiredBeside(root.children, "group") || root.tag != "options" then None
    else
      match (Attr(root, "dbversion"), Attr(root, "date"))
      case (Some(version), Some(_)) =>
        if ParseInteger(version) == Some(DBVERSION) then LoadGroups(root.children) else None
      case (_, _) => None
  }

  // ----- Context -----

  /** A profile selected for this process; it replaces the installed profile of
      the same name at the top level of a load only. */
  datatype MonitorFile = MonitorFile(pnpid: string, root: Node)

  /** A profile is None when its source did not parse. */
  datatype Context = Context(profiles: map<string, Option<Node>>, options: Options, monitorFile: Option<MonitorFile>)

  predicate Overrides(ctx: Context, id: string) {
    ctx.monitorFile.Some? && ctx.monitorFile.value.pnpid == id
  }

  /** The root a name stands for, at the top of a load or in an include. */
  function Root(ctx: Context, id: string, top: bool): Option<Node> {
    if top && Overrides(ctx, id) then Some(ctx.monitorFile.value.root)
    else if id in ctx.profiles then ctx.profiles[id]
    else None
  }

  predicate IsNameChar(c: char) { '0' <= c <= '9' || 'a' <= c <= 'z' || 'A' <= c <= 'Z' || c == '_' || c == '-' }

  predicate ValidName(name: string) { name != "" && forall i | 0 <= i < |name| :: IsNameChar(name[i]) }
}
