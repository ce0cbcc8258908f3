/** Opening a monitor: its own profile, then the manufacturer's generic profile,
    then VESA, stopping where a generic profile could be unsafe. */
module OpenChain {
  import opened Base
  import opened Caps
  import opened Database
  import opened Loader
  import opened Requirements
  import S = Session

  const NONE: int := -1
  const OWN: int := 0
  const MANUFACTURER: int := 1
  const VESA: int := 2

  /** One call of the loader: the profile asked for, the capabilities it was given,
      and what came back. */
  datatype Try = Try(name: string, caps: CapsTable, result: S.Loaded)

  datatype Opened = Opened(tries: seq<Try>, db: Option<Monitor>, fallback: int, caps: CapsTable, refused: bool)

  ghost function LoadIn(context: Option<Context>, name: string, caps: CapsTable): S.Loaded {
    if context.None? then S.Loaded(None, caps, false) else S.Load(context.value, name, caps, true)
  }

  predicate Selected(context: Option<Context>, id: string) { context.Some? && Overrides(context.value, id) }

  function Generic(pnpid: string, kind: MonitorType): Option<string> {
    var maker := if |pnpid| <= 3 then pnpid else pnpid[..3];
    match kind
    case Lcd => Some(maker + "lcd")
    case Crt => Some(maker + "crt")
    case Unknown => None
  }

  /** The chain of `ddcci_open_with_addr`. */
  ghost function Open(context: Option<Context>, pnpid: string, caps: CapsTable): Opened {
    var own := LoadIn(context, pnpid, caps);
    var tries := [Try(pnpid, caps, own)];
    if own.monitor.Some? then Opened(tries, own.monitor, OWN, own.caps, false)
    else if Selected(context, pnpid) || own.requirements then Opened(tries, None, NONE, own.caps, true)
    else
      match Generic(pnpid, own.caps.kind)
      case None => OpenVesa(context, tries, own.caps)
      case Some(name) =>
        var made := LoadIn(context, name, own.caps);
        var tries' := tries + [Try(name, own.caps, made)];
        if made.monitor.Some? then Opened(tries', made.monitor, MANUFACTURER, made.caps, false)
        else if made.requirements then Opened(tries', None, NONE, made.caps, true)
        else OpenVesa(context, tries', made.caps)
  }

  ghost function OpenVesa(context: Option<Context>, tries: seq<Try>, caps: CapsTable): Opened {
    var last := LoadIn(context, "VESA", caps);
    var tries' := tries + [Try("VESA", caps, last)];
    if last.monitor.Some? then Opened(tries', last.monitor, VESA, last.caps, false)
    else if last.requirements then Opened(tries', None, NONE, last.caps, true)
    else Opened(tries', None, VESA, last.caps, false)
  }

  // ----- Safety -----

  lemma LoadInFails(context: Option<Context>, name: string, caps: CapsTable)
    requires LoadIn(context, name, caps).monitor.None?
    ensures LoadIn(context, name, caps).caps == caps
    ensures LoadIn(context, name, caps).requirements <==> context.Some? && Demanding(context.value, (name, true))
  {
    hide S.Load, Demanding;
    if context.Some? {
      S.CapsAreTransactional(context.value, name, caps, true);
      S.FlagIsReachability(context.value, name, caps, true);
    }
  }

  /** A profile that was tried, failed, and forbade nothing. */
  ghost predicate Harmless(context: Option<Context>, t: Try) {
    t.result.monitor.None? && (context.Some? ==> !Demanding(context.value, (t.name, true)))
  }

  /** Over every open: each attempt sees the device's capabilities, unmodified by
      the attempts that failed before it; whatever is tried after the first profile
      is tried only because every earlier profile failed without reaching required
      semantics and the monitor's ID is not the selected definition; and a tree, if
      any, comes from the last attempt. */
  lemma FallbackIsSafe(context: Option<Context>, pnpid: string, caps: CapsTable)
    ensures var r := Open(context, pnpid, caps);
            && 1 <= |r.tries| <= 3 && r.tries[0].name == pnpid
            && (forall i | 0 <= i < |r.tries| ::
                r.tries[i].caps == caps && r.tries[i].result == LoadIn(context, r.tries[i].name, caps))
            && (forall i | 0 <= i < |r.tries| - 1 :: Harmless(context, r.tries[i]))
            && (|r.tries| > 1 ==> !Selected(context, pnpid))
            && r.db == r.tries[|r.tries| - 1].result.monitor
            && r.caps == r.tries[|r.tries| - 1].result.caps
            && (r.db.None? ==> r.caps == caps)
  {
    hide LoadIn, Demanding, Selected;
    var own := LoadIn(context, pnpid, caps);
    if own.monitor.None? {
      LoadInFails(context, pnpid, caps);
      var name := Generic(pnpid, own.caps.kind);
      if name.Some? && LoadIn(context, name.value, caps).monitor.None? { LoadInFails(context, name.value, caps); }
      if LoadIn(context, "VESA", caps).monitor.None? { LoadInFails(context, "VESA", caps); }
    }
  }

  /** A generic tree is used only when the monitor's own profile neither reaches
      required semantics nor is selected explicitly; a VESA tree only when the
      manufacturer's profile, if it was tried, does not either. */
  lemma GenericTreeIsSafe(context: Option<Context>, pnpid: string, caps: CapsTable)
    requires context.Some? && Open(context, pnpid, caps).db.Some?
    ensures var r := Open(context, pnpid, caps);
            && OWN <= r.fallback <= VESA
            && (r.fallback > OWN ==> !Overrides(context.value, pnpid) && !Demanding(context.value, (pnpid, true)))
            && (r.fallback == VESA && Generic(pnpid, caps.kind).Some? ==>
                  !Demanding(context.value, (Generic(pnpid, caps.kind).value, true)))
  {
    hide LoadIn, Demanding;
    FallbackIsSafe(context, pnpid, caps);
    var own := LoadIn(context, pnpid, caps);
    if own.monitor.None? {
      LoadInFails(context, pnpid, caps);
      var name := Generic(pnpid, caps.kind);
      if name.Some? && LoadIn(context, name.value, caps).monitor.None? { LoadInFails(context, name.value, caps); }
    }
  }

  /** An open is refused exactly when some attempt forbids a fallback. */
  lemma RefusedIffForbidden(context: Option<Context>, pnpid: string, caps: CapsTable)
    ensures var r := Open(context, pnpid, caps);
            r.refused <==>
              r.db.None? &&
              (Selected(context, pnpid) || exists i | 0 <= i < |r.tries| :: r.tries[i].result.requirements)
  {
    hide LoadIn, Selected;
    var r := Open(context, pnpid, caps);
    if r.refused && !Selected(context, pnpid) { assert r.tries[|r.tries| - 1].result.requirements; }
  }

  /** Which profiles are tried, and how the one used is reported: the monitor's own,
      then the first three letters of its ID with `lcd` or `crt` for its type, then
      VESA; 0, 1 or 2 for the first tree found, and -1 for a refusal. */
  lemma AttemptsMean(context: Option<Context>, pnpid: string, caps: CapsTable)
    ensures var r := Open(context, pnpid, caps);
            var maker := if |pnpid| < 3 then pnpid else pnpid[..3];
            var typed := caps.kind != MonitorType.Unknown;
            && (forall i | 0 <= i < |r.tries| ::
                  r.tries[i].name ==
                  if i == 0 then pnpid
                  else if i == 1 && typed then maker + (if caps.kind == Lcd then "lcd" else "crt")
                  else "VESA")
            && |r.tries| <= (if typed then 3 else 2)
            && r.fallback == (if r.refused then -1
                              else if |r.tries| == 1 then 0
                              else if |r.tries| == 2 && typed && r.db.Some? && r.tries[1].result.monitor.Some? then 1
                              else 2)
            && (r.db.None? && !r.refused ==> |r.tries| == if typed then 3 else 2)
  {
    hide LoadIn, Demanding, Selected;
    var own := LoadIn(context, pnpid, caps);
    if own.monitor.None? {
      LoadInFails(context, pnpid, caps);
      var name := Generic(pnpid, own.caps.kind);
      if name.Some? && LoadIn(context, name.value, caps).monitor.None? { LoadInFails(context, name.value, caps); }
      if LoadIn(context, "VESA", caps).monitor.None? { LoadInFails(context, "VESA", caps); }
    }
  }

  // ----- The routine, as it runs -----

  /** Monitor fields updated step by step. The last two parameters are the outcomes
      of the closing device commands. */
  class Device {
    var pnpid: string
    var caps: CapsTable
    var db: Option<Monitor>
    var fallback: int

    constructor (pnpid: string, caps: CapsTable)
      ensures this.pnpid == pnpid && this.caps == caps && db == None && fallback == OWN
    { this.pnpid, this.caps, db, fallback := pnpid, caps, None, OWN; }

    method OpenProfiles(session: S.Session, capsProven: bool, enableOk: bool, presenceOk: bool) returns (status: int)
      modifies this, session`requirementsFailed
      ensures pnpid == old(pnpid) && session.context == old(session.context)
      ensures var r := Open(old(session.context), old(pnpid), old(caps));
              && db == r.db && caps == r.caps && fallback == r.fallback
              && (r.refused ==> status == -1)
              && (!r.refused ==> (status == 0 <==>
                    if r.db.Some? && r.db.value.init.InitSamsung? then enableOk else capsProven || presenceOk))
    {
      hide S.Load;
      db, caps := session.CreateDb(pnpid, caps, true);
      fallback := OWN;
      if db.None? && Selected(session.context, pnpid) { fallback := NONE; return -1; }
      if db.None? && session.requirementsFailed { fallback := NONE; return -1; }
      if db.None? {
        var name := Generic(pnpid, caps.kind);
        if name.Some? {
          db, caps := session.CreateDb(name.value, caps, true);
          fallback := MANUFACTURER;
        }
        if db.None? && session.requirementsFailed { fallback := NONE; return -1; }
        if db.None? {
          db, caps := session.CreateDb("VESA", caps, true);
          fallback := VESA;
        }
      }
      if db.None? && session.requirementsFailed { fallback := NONE; return -1; }
      if db.Some? && db.value.init.InitSamsung? {
        if !enableOk { return -1; }
      } else if !capsProven {
        if !presenceOk { return -1; }
      }
      status := 0;
    }
  }
}
