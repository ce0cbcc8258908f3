/** Include expansion as inlining: the recursive build with shared state equals a
    left fold over the pre-order sequence of everything it visits. */
module Inlining {
  import opened Base
  import opened Database
  import opened Loader

  datatype Event =
    | Visited
    | Opened(root: Node)
    | CapsEdit(n: Node)
    | ControlList(n: Node)
    | Unknown
    | Refused(why: Failure)

  function Step(options: Options, mode: Mode, b: Build, e: Event): Outcome {
    match e
    case Visited => Visit(b)
    case Opened(root) => OpenRoot(b, root, mode)
    case CapsEdit(n) => CapsElement(b, n)
    case ControlList(n) => ControlsElement(b, options, n, mode)
    case Unknown => if mode.validateAll then Failed(Invalid) else Done(b)
    case Refused(why) => Failed(why)
  }

  function Run(options: Options, mode: Mode, b: Build, es: seq<Event>): Outcome
    decreases |es|
  {
    if es == [] then Done(b)
    else
      match Step(options, mode, b, es[0])
      case Failed(why) => Failed(why)
      case Done(b1) => Run(options, mode, b1, es[1..])
  }

  /** Everything a profile expands to, in the order the build meets it. Depends on
      the context only. */
  function Flatten(ctx: Context, name: string, level: nat): seq<Event>
    decreases Rank(level), 1, 0
  {
    if !ValidName(name) then [Refused(InvalidName)]
    else if level > MAX_LEVEL then [Visited] + [Refused(TooDeep)]
    else
      match FindRoot(ctx, name, level == 0)
      case NoRoot(why) => [Visited] + [Refused(why)]
      case Found(root) => [Visited] + ([Opened(root)] + FlattenAll(ctx, root.children, level, false, false))
  }

  function FlattenAll(ctx: Context, ns: seq<Node>, level: nat, seenControls: bool, seenAny: bool): seq<Event>
    requires level <= MAX_LEVEL
    decreases Rank(level), 0, |ns|
  {
    if ns == [] then if seenAny then [] else [Refused(Invalid)]
    else
      FlattenOne(ctx, ns[0], level, seenControls) +
      FlattenAll(ctx, ns[1..], level, seenControls || ns[0].tag == "controls",
                 seenAny || ns[0].tag == "controls" || ns[0].tag == "include")
  }

  function FlattenOne(ctx: Context, n: Node, level: nat, seenControls: bool): seq<Event>
    requires level <= MAX_LEVEL
    decreases Rank(level), 0, 0
  {
    if n.required || (n.tag != "controls" && HasRequired(n)) then [Refused(Required)]
    else if n.tag == "caps" then [CapsEdit(n)]
    else if n.tag == "include" then
      if Attr(n, "file").None? then [Refused(Invalid)] else Flatten(ctx, Attr(n, "file").value, level + 1)
    else if n.tag == "controls" then [if seenControls then Refused(Invalid) else ControlList(n)]
    else [Unknown]
  }

  function Then(options: Options, mode: Mode, o: Outcome, es: seq<Event>): Outcome {
    if o.Failed? then o else Run(options, mode, o.build, es)
  }

  lemma {:induction false} RunConcat(options: Options, mode: Mode, b: Build, es: seq<Event>, fs: seq<Event>)
    ensures Run(options, mode, b, es + fs) == Then(options, mode, Run(options, mode, b, es), fs)
    decreases |es|
  {
    hide Step;
    if es == [] {
      assert es + fs == fs;
    } else {
      assert (es + fs)[1..] == es[1..] + fs;
      var o := Step(options, mode, b, es[0]);
      if o.Done? { RunConcat(options, mode, o.build, es[1..], fs); }
    }
  }

  lemma RunOne(options: Options, mode: Mode, b: Build, e: Event)
    ensures Run(options, mode, b, [e]) == Step(options, mode, b, e)
  {
    hide Step;
    var o := Step(options, mode, b, e);
    if o.Done? { assert Run(options, mode, o.build, []) == o; }
  }

  /** The build equals the fold. */
  lemma {:induction false} BuildIsFold(ctx: Context, b: Build, name: string, level: nat, mode: Mode)
    ensures CreateDb(ctx, b, name, level, mode) == Run(ctx.options, mode, b, Flatten(ctx, name, level))
    decreases Rank(level), 1, 0
  {
    hide OpenRoot, Visit, FindRoot, Elements, FlattenAll, Run;
    var options := ctx.options;
    if !ValidName(name) {
      RunOne(options, mode, b, Refused(InvalidName));
    } else {
      RunOne(options, mode, b, Visited);
      var o1 := Visit(b);
      if level > MAX_LEVEL {
        RunConcat(options, mode, b, [Visited], [Refused(TooDeep)]);
        if o1.Done? { RunOne(options, mode, o1.build, Refused(TooDeep)); }
      } else {
        var lookup := FindRoot(ctx, name, level == 0);
        if lookup.NoRoot? {
          RunConcat(options, mode, b, [Visited], [Refused(lookup.why)]);
          if o1.Done? { RunOne(options, mode, o1.build, Refused(lookup.why)); }
        } else {
          var rest := FlattenAll(ctx, lookup.root.children, level, false, false);
          RunConcat(options, mode, b, [Visited], [Opened(lookup.root)] + rest);
          if o1.Done? {
            RunConcat(options, mode, o1.build, [Opened(lookup.root)], rest);
            RunOne(options, mode, o1.build, Opened(lookup.root));
            var o2 := OpenRoot(o1.build, lookup.root, mode);
            if o2.Done? { ElementsAreFold(ctx, o2.build, lookup.root.children, level, mode, false, false); }
          }
        }
      }
    }
  }

  lemma {:induction false} ElementsAreFold(ctx: Context, b: Build, ns: seq<Node>, level: nat, mode: Mode,
                                           seenControls: bool, seenAny: bool)
    requires level <= MAX_LEVEL
    ensures Elements(ctx, b, ns, level, mode, seenControls, seenAny)
         == Run(ctx.options, mode, b, FlattenAll(ctx, ns, level, seenControls, seenAny))
    decreases Rank(level), 0, |ns|
  {
    hide Element, FlattenOne, Run;
    if ns == [] {
      if !seenAny { RunOne(ctx.options, mode, b, Refused(Invalid)); } else { RunNone(ctx.options, mode, b); }
    } else {
      ElementIsFold(ctx, b, ns[0], level, mode, seenControls);
      var controls := seenControls || ns[0].tag == "controls";
      var any := seenAny || ns[0].tag == "controls" || ns[0].tag == "include";
      RunConcat(ctx.options, mode, b, FlattenOne(ctx, ns[0], level, seenControls),
                FlattenAll(ctx, ns[1..], level, controls, any));
      var o := Element(ctx, b, ns[0], level, mode, seenControls);
      if o.Done? { ElementsAreFold(ctx, o.build, ns[1..], level, mode, controls, any); }
    }
  }

  lemma RunNone(options: Options, mode: Mode, b: Build)
    ensures Run(options, mode, b, []) == Done(b)
  {
  }

  lemma {:induction false} ElementIsFold(ctx: Context, b: Build, n: Node, level: nat, mode: Mode, seenControls: bool)
    requires level <= MAX_LEVEL
    ensures Element(ctx, b, n, level, mode, seenControls) ==
            Run(ctx.options, mode, b, FlattenOne(ctx, n, level, seenControls))
    decreases Rank(level), 0, 0
  {
    hide CreateDb, Flatten, Run, CapsElement, ControlsElement;
    if n.required || (n.tag != "controls" && HasRequired(n)) {
      RunOne(ctx.options, mode, b, Refused(Required));
    } else if n.tag == "caps" {
      RunOne(ctx.options, mode, b, CapsEdit(n));
    } else if n.tag == "include" {
      if Attr(n, "file").Some? {
        BuildIsFold(ctx, b, Attr(n, "file").value, level + 1, mode);
      } else {
        RunOne(ctx.options, mode, b, Refused(Invalid));
      }
    } else if n.tag == "controls" {
      RunOne(ctx.options, mode, b, if seenControls then Refused(Invalid) else ControlList(n));
    } else {
      RunOne(ctx.options, mode, b, Unknown);
    }
  }
}
