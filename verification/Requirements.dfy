/** The required-feature scan: a worklist over a possibly cyclic include graph,
    run before a profile is interpreted. */
module Requirements {
  import opened Base
  import opened Database
  import opened Loader
  import opened Inlining
  import LoaderLaws

  // ----- Specification -----

  /** A name at the top of a load, or in an include: the two can stand for
      different roots. */
  type Key = (string, bool)

  function RootAt(ctx: Context, k: Key): Option<Node> { Root(ctx, k.0, k.1) }

  predicate NamesShared(options: Options, control: Node) {
    control.tag == "control" && Attr(control, "id").Some? && Blocked(options, Attr(control, "id").value)
  }

  /** A child that holds required semantics, or names an unavailable shared control. */
  predicate ChildDemands(options: Options, child: Node) {
    HasRequired(child) ||
    (child.tag == "controls" && exists i | 0 <= i < |child.children| :: NamesShared(options, child.children[i]))
  }

  predicate Demands(options: Options, root: Node) {
    root.required || exists i | 0 <= i < |root.children| :: ChildDemands(options, root.children[i])
  }

  predicate Includes(root: Node, file: string) {
    exists i | 0 <= i < |root.children| ::
        root.children[i].tag == "include" && Attr(root.children[i], "file") == Some(file)
  }

  ghost predicate Link(ctx: Context, a: Key, b: Key) {
    RootAt(ctx, a).Some? && !b.1 && Includes(RootAt(ctx, a).value, b.0)
  }

  ghost predicate Trail(ctx: Context, p: seq<Key>) {
    p != [] && forall i | 0 <= i < |p| - 1 :: Link(ctx, p[i], p[i + 1])
  }

  ghost predicate DemandsAt(ctx: Context, k: Key) {
    RootAt(ctx, k).Some? && Demands(ctx.options, RootAt(ctx, k).value)
  }

  /** Some root reachable by includes holds or names required semantics. */
  ghost predicate Demanding(ctx: Context, k: Key) {
    exists p :: Trail(ctx, p) && p[0] == k && DemandsAt(ctx, p[|p| - 1])
  }

  lemma DemandingHere(ctx: Context, k: Key)
    requires DemandsAt(ctx, k)
    ensures Demanding(ctx, k)
  {
    assert Trail(ctx, [k]);
  }

  lemma DemandingNext(ctx: Context, k: Key, next: Key)
    requires Link(ctx, k, next) && Demanding(ctx, next)
    ensures Demanding(ctx, k)
  {
    hide Link, DemandsAt;
    var p :| Trail(ctx, p) && p[0] == next && DemandsAt(ctx, p[|p| - 1]);
    var q := [k] + p;
    forall i | 0 <= i < |q| - 1 ensures Link(ctx, q[i], q[i + 1]) {
      if i > 0 { assert Link(ctx, p[i - 1], p[i]); }
    }
    assert Trail(ctx, q) && q[|q| - 1] == p[|p| - 1];
  }

  // ----- Any required-feature error of a build was foreseen -----

  predicate EventDemands(options: Options, e: Event) {
    e == Refused(Required) || (e.ControlList? && ChildDemands(options, e.n))
  }

  lemma {:induction false} ReserveRequired(b: Build, ns: seq<Node>)
    requires Reserve(b, ns).Failed?
    ensures AnyRequired(ns)
    decreases |ns|
  {
    hide Suppress, ParseAddress;
    if !HasRequired(ns[0]) {
      ReserveRequired(b, ns[1..]);
    } else if ParseAddress(Attr(ns[0], "address")).Some? {
      ReserveRequired(Suppress(b, ParseAddress(Attr(ns[0], "address")).value), ns[1..]);
    }
  }

  lemma {:induction false} BlockRequired(b: Build, options: Options, controls: seq<MonitorControl>) returns (i: nat)
    requires Block(b, options, controls).Failed?
    ensures i < |controls| && Blocked(options, controls[i].id)
    decreases |controls|
  {
    hide Suppress, ParseAddress, Blocked;
    i := 0;
    if !Blocked(options, controls[0].id) {
      i := BlockRequired(b, options, controls[1..]);
      i := i + 1;
    }
  }

  lemma {:induction false} ControlOrigin(ns: seq<Node>, i: nat) returns (j: nat)
    requires i < |MonitorControls(ns)|
    ensures j < |ns| && MonitorControlOf(ns[j]) == Some(MonitorControls(ns)[i])
    decreases |ns|
  {
    hide MonitorControlOf;
    j := 0;
    if MonitorControlOf(ns[0]).None? {
      j := ControlOrigin(ns[1..], i);
      j := j + 1;
    } else if i > 0 {
      j := ControlOrigin(ns[1..], i - 1);
      j := j + 1;
    }
  }

  lemma ControlsRequired(b: Build, options: Options, n: Node, mode: Mode)
    requires n.tag == "controls" && ControlsElement(b, options, n, mode) == Failed(Required)
    ensures ChildDemands(options, n)
  {
    hide Reserve, Block, PlaceAll, AllMatched, Blocked;
    var controls := MonitorControls(n.children);
    if RequiredBeside(n.children, "control") {
      var i :| 0 <= i < |n.children| && HasRequired(n.children[i]);
      AnyRequiredMember(n.children, i);
    } else if Reserve(b, n.children).Failed? {
      ReserveRequired(b, n.children);
    } else {
      var b1 := Reserve(b, n.children).build;
      if Block(b1, options, controls).Failed? {
        var i := BlockRequired(b1, options, controls);
        var j := ControlOrigin(n.children, i);
        assert NamesShared(options, n.children[j]);
      } else {
        LoaderLaws.PlaceAllFails(Block(b1, options, controls).build, 0, Subgroups(options), controls, mode);
      }
    }
  }

  predicate WellTagged(e: Event) { e.ControlList? ==> e.n.tag == "controls" }

  lemma StepRequired(options: Options, mode: Mode, b: Build, e: Event)
    requires WellTagged(e) && Step(options, mode, b, e) == Failed(Required)
    ensures EventDemands(options, e)
  {
    hide ControlsElement, ChildDemands, EditCaps;
    if e.ControlList? { ControlsRequired(b, options, e.n, mode); }
  }

  lemma {:induction false} RunRequired(options: Options, mode: Mode, b: Build, es: seq<Event>) returns (i: nat)
    requires (forall e | e in es :: WellTagged(e)) && Run(options, mode, b, es) == Failed(Required)
    ensures i < |es| && EventDemands(options, es[i])
    decreases |es|
  {
    hide Step, EventDemands;
    i := 0;
    var o := Step(options, mode, b, es[0]);
    if o.Done? {
      i := RunRequired(options, mode, o.build, es[1..]);
      i := i + 1;
    } else {
      StepRequired(options, mode, b, es[0]);
    }
  }

  lemma {:induction false} FlattenDemands(ctx: Context, name: string, level: nat, e: Event)
    requires e in Flatten(ctx, name, level)
    ensures WellTagged(e) && (EventDemands(ctx.options, e) ==> Demanding(ctx, (name, level == 0)))
    decreases Rank(level), 1, 0
  {
    hide Demanding, FlattenAll, ChildDemands;
    if ValidName(name) && level <= MAX_LEVEL {
      var lookup := FindRoot(ctx, name, level == 0);
      if lookup.Found? {
        if e in FlattenAll(ctx, lookup.root.children, level, false, false) {
          FlattenAllDemands(ctx, name, lookup.root.children, level, false, false, e);
        }
      } else if e == Refused(Required) && lookup.why == Required {
        DemandingHere(ctx, (name, level == 0));
      }
    }
  }

  lemma {:induction false} FlattenAllDemands(ctx: Context, name: string, ns: seq<Node>, level: nat, seenControls: bool,
                                             seenAny: bool, e: Event)
    requires level <= MAX_LEVEL && e in FlattenAll(ctx, ns, level, seenControls, seenAny)
    requires RootAt(ctx, (name, level == 0)).Some? && forall n | n in ns ::
             n in RootAt(ctx, (name, level == 0)).value.children
    ensures WellTagged(e) && (EventDemands(ctx.options, e) ==> Demanding(ctx, (name, level == 0)))
    decreases Rank(level), 0, |ns|
  {
    hide Demanding, FlattenOne, ChildDemands, RootAt;
    if ns != [] {
      assert ns[0] in ns && forall n | n in ns[1..] :: n in ns;
      if e in FlattenOne(ctx, ns[0], level, seenControls) {
        FlattenOneDemands(ctx, name, ns[0], level, seenControls, e);
      } else {
        FlattenAllDemands(ctx, name, ns[1..], level, seenControls || ns[0].tag == "controls",
                          seenAny || ns[0].tag == "controls" || ns[0].tag == "include", e);
      }
    }
  }

  lemma {:induction false} FlattenOneDemands(ctx: Context, name: string, n: Node, level: nat, seenControls: bool,
                                             e: Event)
    requires level <= MAX_LEVEL && e in FlattenOne(ctx, n, level, seenControls)
    requires RootAt(ctx, (name, level == 0)).Some? && n in RootAt(ctx, (name, level == 0)).value.children
    ensures WellTagged(e) && (EventDemands(ctx.options, e) ==> Demanding(ctx, (name, level == 0)))
    decreases Rank(level), 0, 0
  {
    hide Demanding, Flatten, RootAt, HasRequired;
    var k := (name, level == 0);
    var root := RootAt(ctx, k).value;
    var i :| 0 <= i < |root.children| && root.children[i] == n;
    if n.tag == "include" && !HasRequired(n) && !n.required {
      var file := Attr(n, "file");
      if file.Some? {
        assert Includes(root, file.value);
        FlattenDemands(ctx, file.value, level + 1, e);
        if EventDemands(ctx.options, e) { DemandingNext(ctx, k, (file.value, false)); }
      }
    } else if EventDemands(ctx.options, e) {
      RequiredHas(n);
      assert ChildDemands(ctx.options, root.children[i]);
      DemandingHere(ctx, k);
    }
  }

  lemma RequiredHas(n: Node)
    ensures n.required ==> HasRequired(n)
  {
  }

  /** A required-feature failure of a build implies that the scan's condition holds. */
  lemma RequiredFailureForeseen(ctx: Context, b: Build, name: string, level: nat, mode: Mode)
    requires CreateDb(ctx, b, name, level, mode) == Failed(Required)
    ensures Demanding(ctx, (name, level == 0))
  {
    hide CreateDb, Flatten, Run, Demanding, EventDemands;
    BuildIsFold(ctx, b, name, level, mode);
    var es := Flatten(ctx, name, level);
    forall e | e in es ensures WellTagged(e) { FlattenDemands(ctx, name, level, e); }
    var i := RunRequired(ctx.options, mode, b, es);
    FlattenDemands(ctx, name, level, es[i]);
  }

  // ----- The scan, as it runs -----

  function Files(ns: seq<Node>): set<string> {
    if ns == [] then {}
    else
      var rest := Files(ns[1..]);
      if ns[0].tag == "include" && Attr(ns[0], "file").Some? then rest + {Attr(ns[0], "file").value} else rest
  }

  lemma {:induction false} FileMember(ns: seq<Node>, i: nat)
    requires i < |ns| && ns[i].tag == "include" && Attr(ns[i], "file").Some?
    ensures Attr(ns[i], "file").value in Files(ns)
  {
    if i > 0 { FileMember(ns[1..], i - 1); }
  }

  /** Every key the scan can meet; finite even when the graph is cyclic. */
  ghost function Universe(ctx: Context, name: string): set<Key> {
    var roots := (set id | id in ctx.profiles && ctx.profiles[id].Some? :: ctx.profiles[id].value) +
                 (if ctx.monitorFile.Some? then {ctx.monitorFile.value.root} else {});
    {(name, true)} + set root, file | root in roots && file in Files(root.children) :: (file, false)
  }

  lemma LinkInUniverse(ctx: Context, name: string, k: Key, file: string)
    requires RootAt(ctx, k).Some? && file in Files(RootAt(ctx, k).value.children)
    ensures (file, false) in Universe(ctx, name)
  {
    var root := RootAt(ctx, k).value;
    if !(k.1 && Overrides(ctx, k.0)) { assert ctx.profiles[k.0].value == root; }
  }

  ghost predicate ReachableFrom(ctx: Context, start: Key, k: Key) {
    exists p :: Trail(ctx, p) && p[0] == start && p[|p| - 1] == k
  }

  lemma ReachableStep(ctx: Context, start: Key, k: Key, next: Key)
    requires ReachableFrom(ctx, start, k) && Link(ctx, k, next)
    ensures ReachableFrom(ctx, start, next)
  {
    hide Link;
    var p :| Trail(ctx, p) && p[0] == start && p[|p| - 1] == k;
    var q := p + [next];
    forall i | 0 <= i < |q| - 1 ensures Link(ctx, q[i], q[i + 1]) {
      if i < |p| - 1 { assert q[i + 1] == p[i + 1]; }
    }
    assert Trail(ctx, q) && q[|q| - 1] == next;
  }

  /** Where a node of the graph stands once it has been visited without finding
      anything: its links are still to be scanned or scanned already. */
  ghost predicate Cleared(ctx: Context, k: Key, visited: set<Key>, pending: seq<Key>) {
    !DemandsAt(ctx, k) && forall next: Key | Link(ctx, k, next) :: next in visited || next in pending
  }

  lemma {:induction false} ClosedSetClears(ctx: Context, visited: set<Key>, p: seq<Key>, i: nat)
    requires Trail(ctx, p) && p[0] in visited && i < |p|
    requires forall k | k in visited :: Cleared(ctx, k, visited, [])
    ensures p[i] in visited
  {
    hide Link, DemandsAt;
    if i > 0 {
      ClosedSetClears(ctx, visited, p, i - 1);
      assert Link(ctx, p[i - 1], p[i]);
      assert Cleared(ctx, p[i - 1], visited, []);
    }
  }

  /** `profile_has_requirements`: true exactly when an include-reachable root holds
      a required node or names an unavailable shared control. It terminates on
      every graph, cyclic ones included, because each key is visited once. */
  method ProfileHasRequirements(ctx: Context, name: string) returns (found: bool)
    ensures found <==> Demanding(ctx, (name, true))
  {
    hide Link, DemandsAt, Universe, Trail;
    var pending: seq<Key> := [(name, true)];
    var visited: set<Key> := {};
    ghost var start := (name, true);
    StartFacts(ctx, name);
    while pending != []
      invariant start in visited || start in pending
      invariant visited <= Universe(ctx, name) && forall k | k in pending :: k in Universe(ctx, name)
      invariant forall k | k in visited :: ReachableFrom(ctx, start, k)
      invariant forall k | k in pending :: ReachableFrom(ctx, start, k)
      invariant forall k | k in visited :: Cleared(ctx, k, visited, pending)
      decreases Universe(ctx, name) - visited, |pending|
    {
      var k := pending[|pending| - 1];
      assert k in pending;
      ghost var stack, seen := pending, visited;
      pending := pending[..|pending| - 1];
      assert forall x | x in stack :: x in pending || x == k;
      if k in visited { continue; }
      visited := visited + {k};
      var demands, files := Inspect(ctx, k);
      if demands {
        DemandingReached(ctx, start, k);
        return true;
      }
      LinksCovered(ctx, name, start, k, files);
      pending := pending + files;
      assert forall x | x in stack :: x in pending || x in visited;
      assert Universe(ctx, name) - visited < Universe(ctx, name) - seen;
    }
    NothingDemanded(ctx, start, visited);
    found := false;
  }

  lemma NothingDemanded(ctx: Context, start: Key, visited: set<Key>)
    requires start in visited && forall k | k in visited :: Cleared(ctx, k, visited, [])
    ensures !Demanding(ctx, start)
  {
    hide Link, DemandsAt;
    forall p | Trail(ctx, p) && p[0] == start ensures !DemandsAt(ctx, p[|p| - 1]) {
      ClosedSetClears(ctx, visited, p, |p| - 1);
      assert Cleared(ctx, p[|p| - 1], visited, []);
    }
  }

  lemma StartFacts(ctx: Context, name: string)
    ensures (name, true) in Universe(ctx, name) && ReachableFrom(ctx, (name, true), (name, true))
  {
    assert Trail(ctx, [(name, true)]);
  }

  lemma DemandingReached(ctx: Context, start: Key, k: Key)
    requires ReachableFrom(ctx, start, k) && DemandsAt(ctx, k)
    ensures Demanding(ctx, start)
  {
  }

  lemma LinksCovered(ctx: Context, name: string, start: Key, k: Key, files: seq<Key>)
    requires ReachableFrom(ctx, start, k)
    requires forall f | f in files :: Link(ctx, k, f)
    ensures forall f | f in files :: f in Universe(ctx, name) && ReachableFrom(ctx, start, f)
  {
    hide ReachableFrom, Universe;
    forall f | f in files ensures f in Universe(ctx, name) && ReachableFrom(ctx, start, f) {
      ReachableStep(ctx, start, k, f);
      var ns := RootAt(ctx, k).value.children;
      var i :| 0 <= i < |ns| && ns[i].tag == "include" && Attr(ns[i], "file") == Some(f.0);
      FileMember(ns, i);
      LinkInUniverse(ctx, name, k, f.0);
      assert f == (f.0, false);
    }
  }

  /** One root: does it demand anything, and which includes does it name? */
  method Inspect(ctx: Context, k: Key) returns (demands: bool, files: seq<Key>)
    ensures demands == DemandsAt(ctx, k)
    ensures forall f | f in files :: Link(ctx, k, f)
    ensures !demands ==> forall f: Key | Link(ctx, k, f) :: f in files
  {
    files := [];
    var found := RootAt(ctx, k);
    if found.None? { return false, []; }
    var root := found.value;
    if HasRequired(root) {
      RequiredSomewhere(ctx.options, root);
      return true, [];
    }
    for i := 0 to |root.children|
      invariant forall j | 0 <= j < i :: !ChildDemands(ctx.options, root.children[j])
      invariant forall f | f in files :: Link(ctx, k, f)
      invariant forall j | 0 <= j < i && root.children[j].tag == "include" && Attr(root.children[j], "file").Some? ::
        (Attr(root.children[j], "file").value, false) in files
    {
      var child := root.children[i];
      if HasRequired(child) { AnyRequiredMember(root.children, i); assert false; }
      if child.tag == "include" {
        if Attr(child, "file").Some? {
          assert Includes(root, Attr(child, "file").value);
          files := files + [(Attr(child, "file").value, false)];
        }
      } else if child.tag == "controls" {
        var shared := NamesAnyShared(ctx.options, child.children);
        if shared { return true, []; }
      }
    }
    demands := false;
  }

  method NamesAnyShared(options: Options, ns: seq<Node>) returns (found: bool)
    ensures found <==> exists i | 0 <= i < |ns| :: NamesShared(options, ns[i])
  {
    hide NamesShared;
    for i := 0 to |ns|
      invariant forall j | 0 <= j < i :: !NamesShared(options, ns[j])
    {
      if NamesShared(options, ns[i]) { return true; }
    }
    found := false;
  }

  lemma RequiredSomewhere(options: Options, root: Node)
    requires HasRequired(root)
    ensures Demands(options, root)
  {
    if !root.required { var i := RequiredIndex(root.children); assert ChildDemands(options, root.children[i]); }
  }

  lemma {:induction false} RequiredIndex(ns: seq<Node>) returns (i: nat)
    requires AnyRequired(ns)
    ensures i < |ns| && HasRequired(ns[i])
  {
    i := 0;
    if !HasRequired(ns[0]) {
      i := RequiredIndex(ns[1..]);
      i := i + 1;
    }
  }
}
