/** A process's session: the published context, loads with staged capabilities,
    and a per-process monitor definition. */
module Session {
  import opened Base
  import opened Caps
  import opened Database
  import opened Loader
  import opened Inlining
  import opened LoaderLaws
  import opened Validation
  import opened Requirements
  import Conversion
  import Letters
  import LoadRun
  import PublishedTree
  import TreeExact

  // ----- One load -----

  /** What the caller sees: a tree or none, its capabilities, and whether required
      semantics forbid a generic fallback. */
  datatype Loaded = Loaded(monitor: Option<Monitor>, caps: CapsTable, requirements: bool)

  function ModeFor(ctx: Context, name: string, tolerant: bool): Mode { Mode(tolerant && !Overrides(ctx, name), false) }

  function Attempt(ctx: Context, name: string, caps: CapsTable, tolerant: bool): Outcome {
    CreateDb(ctx, Start(ctx.options, caps), name, 0, ModeFor(ctx, name, tolerant))
  }

  /** `create_db_inner`. */
  ghost function Load(ctx: Context, name: string, caps: CapsTable, tolerant: bool): Loaded {
    var demanding := Demanding(ctx, (name, true));
    match Attempt(ctx, name, caps, tolerant)
    case Failed(why) => Loaded(None, caps, demanding || why == Required)
    case Done(b) =>
      if b.init.InitUnknown? && !ModeFor(ctx, name, tolerant).tolerant then Loaded(None, caps, demanding)
      else Loaded(Some(Finish(ctx.options, b)), b.caps, false)
  }

  function Finish(options: Options, b: Build): Monitor {
    Monitor(if b.name.Some? then b.name.value else "",
            if b.init.InitUnknown? then InitStandard else b.init,
            if |b.slots| == |Subgroups(options)| then Arrange(options, b.slots) else [])
  }

  // ----- Publishing a monitor definition -----

  /** The run `set_monitor_file` makes on its private clone of the context. */
  function Check(ctx: Context, id: string, root: Node): Outcome {
    CreateDb(ctx.(monitorFile := Some(MonitorFile(id, root))),
             Start(ctx.options, CapsTable(MonitorType.Unknown, map[])), id, 0, VALIDATE)
  }

  predicate IsUpper(c: char) { 'A' <= c <= 'Z' }

  predicate IsUpperHex(c: char) { '0' <= c <= '9' || 'A' <= c <= 'F' }

  /** The stem of a definition's file name: a Plug and Play ID in upper case. */
  predicate IsPnpId(id: string) {
    |id| == 7 && (forall i | 0 <= i < 3 :: IsUpper(id[i])) && forall i | 3 <= i < 7 :: IsUpperHex(id[i])
  }

  /** Three letters for the maker and four hexadecimal digits for the model. */
  lemma PnpIdMeans(id: string)
    ensures IsPnpId(id) <==>
            && |id| == 7 && (forall i | 0 <= i < 3 :: id[i] in Letters.UPPER)
            && forall i | 3 <= i < 7 :: Letters.Digit(id[i]) || id[i] in "ABCDEF"
  {
    hide Letters.Digit;
    forall i | 0 <= i < |id|
      ensures IsUpper(id[i]) <==> id[i] in Letters.UPPER
      ensures IsUpperHex(id[i]) <==> Letters.Digit(id[i]) || id[i] in "ABCDEF"
    { UpperCharsMean(id[i]); }
  }

  lemma UpperCharsMean(c: char)
    ensures IsUpper(c) <==> c in Letters.UPPER
    ensures IsUpperHex(c) <==> Letters.Digit(c) || c in "ABCDEF"
  {
    hide Letters.Digit;
    Letters.UpperMeans(c);
    Letters.DigitsMean(c);
    if 'A' <= c <= 'F' { assert "ABCDEF"[c as int - 'A' as int] == c; }
  }

  predicate Accepted(ctx: Context, id: string, root: Node) {
    IsPnpId(id) && Check(ctx, id, root).Done? && !Check(ctx, id, root).build.init.InitUnknown?
  }

  // ----- Laws of loads -----

  /** After a failed load the flag is exactly the scan's condition. */
  lemma FlagIsReachability(ctx: Context, name: string, caps: CapsTable, tolerant: bool)
    requires Load(ctx, name, caps, tolerant).monitor.None?
    ensures Load(ctx, name, caps, tolerant).requirements <==> Demanding(ctx, (name, true))
  {
    hide CreateDb, Demanding;
    if Attempt(ctx, name, caps, tolerant) == Failed(Required) {
      RequiredFailureForeseen(ctx, Start(ctx.options, caps), name, 0, ModeFor(ctx, name, tolerant));
    }
  }

  /** The caller's capabilities: all edits in visit order on success, untouched on
      any failure. */
  lemma CapsAreTransactional(ctx: Context, name: string, caps: CapsTable, tolerant: bool)
    ensures var r := Load(ctx, name, caps, tolerant);
            if r.monitor.Some? then Edits(caps, Flatten(ctx, name, 0)) == Some(r.caps) else r.caps == caps
  {
    hide CreateDb, Flatten, Demanding, Run, Edits;
    var mode := ModeFor(ctx, name, tolerant);
    BuildIsFold(ctx, Start(ctx.options, caps), name, 0, mode);
    if Attempt(ctx, name, caps, tolerant).Done? {
      RunSummary(ctx.options, mode, Start(ctx.options, caps), Flatten(ctx, name, 0));
    }
  }

  /** The tree of a successful load. */
  ghost predicate Built(ctx: Context, name: string, caps: CapsTable, tolerant: bool, b: Build) {
    Load(ctx, name, caps, tolerant).monitor.Some? && Attempt(ctx, name, caps, tolerant) == Done(b)
  }

  /** In the tree of every successful load at most one control has each address, and
      none has the address of a required or shared-unavailable control met anywhere
      in the expansion; its name and init mode are the first found in visit order. */
  lemma LoadedTreeIsSound(ctx: Context, name: string, caps: CapsTable, tolerant: bool, b: Build)
    requires Built(ctx, name, caps, tolerant, b)
    ensures forall a: Code :: LoaderLaws.Count(b.slots, a) <= 1
    ensures forall a | a in Suppressed(ctx.options, Flatten(ctx, name, 0)) :: LoaderLaws.Count(b.slots, a) == 0
    ensures |b.slots| == |Subgroups(ctx.options)|
    ensures b.name == FirstName(None, Flatten(ctx, name, 0)) && b.init == FirstInit(InitUnknown, Flatten(ctx, name, 0))
  {
    hide CreateDb, Flatten, Demanding, Run, InTree, Suppressed, FirstName, FirstInit;
    var start, mode, es := Start(ctx.options, caps), ModeFor(ctx, name, tolerant), Flatten(ctx, name, 0);
    BuildIsFold(ctx, start, name, 0, mode);
    StartSound(ctx.options, caps);
    RunOnward(ctx.options, mode, start, es);
    RunSummary(ctx.options, mode, start, es);
  }

  /** What every successful load returns. Its groups and subgroups are those of the
      options that hold a control, named and ordered like them. A control is in a
      subgroup if and only if it is what the first claim on its address in visit order
      makes there, and no part of the expansion suppresses that address. Its name and
      init mode are the first found; without an init mode a tolerant load is standard. */
  lemma LoadedTreeIsExact(ctx: Context, name: string, caps: CapsTable, tolerant: bool, b: Build)
    requires Built(ctx, name, caps, tolerant, b)
    ensures var m, es := Load(ctx, name, caps, tolerant).monitor.value, Flatten(ctx, name, 0);
            && PublishedTree.Publishes(ctx.options, b.slots, m.groups)
            && (FirstName(None, es).Some? ==> m.name == FirstName(None, es).value)
            && m.init == (if FirstInit(InitUnknown, es) == InitUnknown then InitStandard
                          else FirstInit(InitUnknown, es))
    ensures var es, mode := Flatten(ctx, name, 0), ModeFor(ctx, name, tolerant);
            forall slot: nat, c: Control | slot < |b.slots| ::
              c in b.slots[slot] <==>
              && c.address !in Suppressed(ctx.options, es)
              && TreeExact.Elected(ctx.options, caps, es, |es|, mode.tolerant, slot, c)
  {
    hide CreateDb, Flatten, Demanding, Run, Suppressed, TreeExact.Elected, TreeExact.ClaimedBefore, FirstName,
      FirstInit, Arrange, PublishedTree.Publishes;
    var start, mode, es := Start(ctx.options, caps), ModeFor(ctx, name, tolerant), Flatten(ctx, name, 0);
    BuildIsFold(ctx, start, name, 0, mode);
    TreeExact.RunTreeExact(ctx.options, mode, caps, es);
    RunSummary(ctx.options, mode, start, es);
    PublishedTree.ArrangePublishes(ctx.options, b.slots);
    assert es[..|es|] == es;
  }

  lemma StartSound(options: Options, caps: CapsTable)
    ensures Sound(Start(options, caps)) && |Start(options, caps).slots| == |Subgroups(options)|
  {
    forall a: Code { CountNothing(Start(options, caps).slots, a); }
  }

  lemma {:induction false} CountNothing(slots: seq<seq<Control>>, a: Code)
    requires forall k | 0 <= k < |slots| :: slots[k] == []
    ensures LoaderLaws.Count(slots, a) == 0
  {
    if slots != [] { CountNothing(slots[1..], a); }
  }

  /** If a definition was accepted, loading its ID succeeds with any capabilities
      whatsoever, with the name and init mode found when it was validated. */
  lemma AcceptedLoads(ctx: Context, id: string, root: Node, caps: CapsTable, tolerant: bool)
    requires Accepted(ctx, id, root)
    ensures var selected := ctx.(monitorFile := Some(MonitorFile(id, root)));
            var r := Load(selected, id, caps, tolerant);
            && r.monitor.Some?
            && r.monitor.value.name ==
                (if Check(ctx, id, root).build.name.Some? then Check(ctx, id, root).build.name.value else "")
            && r.monitor.value.init == Check(ctx, id, root).build.init
  {
    hide CreateDb, Demanding, Arrange;
    var selected := ctx.(monitorFile := Some(MonitorFile(id, root)));
    ValidationSimulates(selected, Start(ctx.options, CapsTable(MonitorType.Unknown, map[])), Start(ctx.options, caps),
                        id, 0);
  }

  // ----- The session, as it runs -----

  class Session {
    var context: Option<Context>
    var requirementsFailed: bool

    constructor ()
      ensures context == None && !requirementsFailed
    { context, requirementsFailed := None, false; }

    /** `init_db_inner`: the old context is dropped even when loading fails. */
    method InitDb(installed: Conversion.Installed, sha: Bytes -> Bytes) returns (ok: bool)
      modifies this`context
      ensures context == Conversion.LoadContext(installed, sha) && ok == context.Some?
    {
      hide Conversion.LoadContext;
      context := None;
      var loaded := Conversion.LoadInstalled(installed, sha);
      if loaded.None? { return false; }
      context := loaded;
      ok := true;
    }

    method ReleaseDb()
      modifies this`context
      ensures context == None
    { context := None; }

    /** `set_monitor_file_inner`: publishes a fully validated clone, or nothing. */
    method SetMonitorFile(id: string, root: Node) returns (ok: bool)
      modifies this`context
      ensures ok <==> old(context).Some? && Accepted(old(context).value, id, root)
      ensures context == if ok then Some(old(context).value.(monitorFile := Some(MonitorFile(id, root))))
              else old(context)
    {
      hide Loader.CreateDb;
      if !IsPnpId(id) || context.None? { return false; }
      var selected := context.value.(monitorFile := Some(MonitorFile(id, root)));
      var build := new LoadRun.MonitorBuild(selected.options, CapsTable(MonitorType.Unknown, map[]));
      var error := build.CreateDb(selected, id, 0, VALIDATE);
      if error.Some? || build.init.InitUnknown? { return false; }
      context := Some(selected);
      ok := true;
    }

    /** `create_db_inner`: the capabilities are staged and published on success. */
    method CreateDb(name: string, caps0: CapsTable, tolerant: bool) returns (monitor: Option<Monitor>, caps: CapsTable)
      modifies this`requirementsFailed
      ensures old(context).None? ==> monitor == None && caps == caps0 && !requirementsFailed
      ensures old(context).Some? ==>
              Loaded(monitor, caps, requirementsFailed) == Load(old(context).value, name, caps0, tolerant)
    {
      hide Loader.CreateDb, Demanding, Arrange;
      requirementsFailed := false;
      if context.None? { return None, caps0; }
      var ctx := context.value;
      requirementsFailed := ProfileHasRequirements(ctx, name);
      var mode := ModeFor(ctx, name, tolerant);
      var build := new LoadRun.MonitorBuild(ctx.options, caps0);
      var error := build.CreateDb(ctx, name, 0, mode);
      if error.Some? {
        requirementsFailed := requirementsFailed || error == Some(Required);
        return None, caps0;
      }
      if build.init.InitUnknown? {
        if !mode.tolerant { return None, caps0; }
        build.init := InitStandard;
      }
      requirementsFailed := false;
      monitor := Some(Monitor(if build.name.Some? then build.name.value else "", build.init,
                              if |build.slots| == |Subgroups(ctx.options)| then Arrange(ctx.options, build.slots)
                                  else []));
      caps := build.caps;
    }
  }

  // ----- Runs of a process -----

  datatype Op =
    | InitDb(installed: Conversion.Installed)
    | ReleaseDb
    | SetMonitorFile(id: string, root: Node)
    | LoadProfile(name: string, caps: CapsTable, tolerant: bool)

  /** The context after one call. */
  ghost function After(context: Option<Context>, op: Op, sha: Bytes -> Bytes): Option<Context> {
    match op
    case InitDb(installed) => Conversion.LoadContext(installed, sha)
    case ReleaseDb => None
    case SetMonitorFile(id, root) =>
      if context.Some? && Accepted(context.value, id, root)
          then Some(context.value.(monitorFile := Some(MonitorFile(id, root)))) else context
    case LoadProfile(_, _, _) => context
  }

  /** An operation that leaves the selected definition in force. */
  predicate Keeps(context: Option<Context>, op: Op) {
    match op
    case InitDb(_) => false
    case ReleaseDb => false
    case SetMonitorFile(id, root) => context.None? || !Accepted(context.value, id, root)
    case LoadProfile(_, _, _) => true
  }

  ghost predicate AllKeep(context: Option<Context>, ops: seq<Op>, sha: Bytes -> Bytes)
    decreases |ops|
  { ops == [] || (Keeps(context, ops[0]) && AllKeep(After(context, ops[0], sha), ops[1..], sha)) }

  ghost function AfterAll(context: Option<Context>, ops: seq<Op>, sha: Bytes -> Bytes): Option<Context>
    decreases |ops|
  { if ops == [] then context else AfterAll(After(context, ops[0], sha), ops[1..], sha) }

  /** A process that makes these calls ends in the context the functions say. */
  method MakeCalls(session: Session, ops: seq<Op>, sha: Bytes -> Bytes)
    modifies session
    ensures session.context == AfterAll(old(session.context), ops, sha)
  {
    hide Accepted, Load, Conversion.LoadContext;
    assert ops[0..] == ops;
    for k := 0 to |ops|
      invariant AfterAll(session.context, ops[k..], sha) == AfterAll(old(session.context), ops, sha)
    {
      assert ops[k..][0] == ops[k] && ops[k..][1..] == ops[k + 1..];
      match ops[k]
      case InitDb(installed) => var _ := session.InitDb(installed, sha);
      case ReleaseDb => session.ReleaseDb();
      case SetMonitorFile(id, root) => var _ := session.SetMonitorFile(id, root);
      case LoadProfile(name, caps, tolerant) => var _, _ := session.CreateDb(name, caps, tolerant);
    }
    assert ops[|ops|..] == [];
  }

  lemma {:induction false} KeptContext(context: Option<Context>, ops: seq<Op>, sha: Bytes -> Bytes)
    requires AllKeep(context, ops, sha)
    ensures AfterAll(context, ops, sha) == context
    decreases |ops|
  {
    if ops != [] { KeptContext(context, ops[1..], sha); }
  }

  /** Over whole runs: once a definition has been selected, then until the next
      init, release or successful selection every load of its ID succeeds, for any
      capabilities, with the name and init mode it was validated with. */
  lemma SelectedDefinitionAlwaysLoads(ctx: Context, id: string, root: Node, ops: seq<Op>, sha: Bytes -> Bytes,
                                      caps: CapsTable, tolerant: bool)
    requires Accepted(ctx, id, root)
    requires AllKeep(After(Some(ctx), SetMonitorFile(id, root), sha), ops, sha)
    ensures var now := AfterAll(After(Some(ctx), SetMonitorFile(id, root), sha), ops, sha);
            && now.Some?
            && var r := Load(now.value, id, caps, tolerant);
            && r.monitor.Some? && r.monitor.value.init == Check(ctx, id, root).build.init
            && r.monitor.value.name ==
                (if Check(ctx, id, root).build.name.Some? then Check(ctx, id, root).build.name.value else "")
  {
    hide Load, Check, Demanding, Loader.CreateDb;
    KeptContext(After(Some(ctx), SetMonitorFile(id, root), sha), ops, sha);
    AcceptedLoads(ctx, id, root, caps, tolerant);
  }
}
