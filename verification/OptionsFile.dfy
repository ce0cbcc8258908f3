/** The options vocabulary, read off the elements of its file: which controls it
    holds, of which type, and which of them are unavailable. */
module OptionsFile {
  import opened Base
  import opened Numbers
  import opened Database
  import opened Loader
  import opened Requirements
  import RequiredFeatures

  /** The elements with a tag, in order. */
  function Tagged(ns: seq<Node>, tag: string): (r: seq<Node>)
    ensures forall n :: n in r <==> n in ns && n.tag == tag
  {
    if ns == [] then []
    else
      assert ns == [ns[0]] + ns[1..];
      if ns[0].tag == tag then [ns[0]] + Tagged(ns[1..], tag) else Tagged(ns[1..], tag)
  }

  // ----- Elements and what they become -----

  predicate IsValueOf(n: Node, v: OptionValue) { Attr(n, "id") == Some(v.id) && Attr(n, "name") == v.name }

  /** A control without required parts has a type and a refresh mode by name; of one
      with required parts only the ID is kept, and it is unavailable. */
  predicate IsControlOf(n: Node, c: OptionControl) {
    && Attr(n, "id") == Some(c.id) && (c.unavailable <==> HasRequired(n))
    && (!HasRequired(n) ==>
          && Attr(n, "name") == Some(c.name)
          && Attr(n, "type") == Some(if c.controlType == ValueControl then "value"
                                     else if c.controlType == CommandControl then "command" else "list")
          && (if c.refresh == RefreshAll then Attr(n, "refresh") == Some("all")
              else Attr(n, "refresh") == None || Attr(n, "refresh") == Some("none"))
          && var vs := Tagged(n.children, "value");
             |c.values| == |vs| && forall i | 0 <= i < |vs| :: IsValueOf(vs[i], c.values[i]))
    && (HasRequired(n) ==> c.name == "" && c.values == [])
  }

  predicate IsSubgroupOf(n: Node, s: OptionSubgroup) {
    && Attr(n, "name") == Some(s.name) && Attr(n, "pattern") == s.pattern && !n.required
    && var cs := Tagged(n.children, "control");
       |s.controls| == |cs| && forall i | 0 <= i < |cs| :: IsControlOf(cs[i], s.controls[i])
  }

  predicate IsGroupOf(n: Node, g: OptionGroup) {
    && Attr(n, "name") == Some(g.name) && !n.required
    && var ss := Tagged(n.children, "subgroup");
       |g.subgroups| == |ss| && forall i | 0 <= i < |ss| :: IsSubgroupOf(ss[i], g.subgroups[i])
  }

  /** The vocabulary mirrors the file, element by element and in order. */
  predicate IsOptionsOf(root: Node, o: Options) {
    && root.tag == "options" && Attr(root, "date").Some? && !root.required
    && Attr(root, "dbversion").Some? && ParseInteger(Attr(root, "dbversion").value) == Some(3)
    && var gs := Tagged(root.children, "group");
       |o| == |gs| && forall i | 0 <= i < |gs| :: IsGroupOf(gs[i], o[i])
  }

  lemma {:induction false} ValuesMean(ns: seq<Node>)
    requires LoadValues(ns).Some?
    ensures var vs := Tagged(ns, "value");
            |LoadValues(ns).value| == |vs| && forall i | 0 <= i < |vs| :: IsValueOf(vs[i], LoadValues(ns).value[i])
  {
    if ns != [] { ValuesMean(ns[1..]); }
  }

  lemma ControlMeans(n: Node)
    requires LoadControl(n).Some?
    ensures IsControlOf(n, LoadControl(n).value)
  {
    hide HasRequired, LoadValues;
    if !HasRequired(n) { ValuesMean(n.children); }
  }

  lemma {:induction false} ControlsMean(ns: seq<Node>)
    requires LoadControls(ns).Some?
    ensures var cs := Tagged(ns, "control");
            |LoadControls(ns).value| == |cs| && forall i | 0 <= i < |cs| ::
                IsControlOf(cs[i], LoadControls(ns).value[i])
  {
    hide LoadControl, IsControlOf;
    if ns != [] {
      if ns[0].tag == "control" { ControlMeans(ns[0]); }
      ControlsMean(ns[1..]);
    }
  }

  lemma SubgroupMeans(n: Node, s: OptionSubgroup)
    requires Attr(n, "name") == Some(s.name) && Attr(n, "pattern") == s.pattern && !n.required
    requires LoadControls(n.children) == Some(s.controls)
    ensures IsSubgroupOf(n, s)
  {
    hide IsControlOf;
    ControlsMean(n.children);
  }

  lemma {:induction false} SubgroupsMean(ns: seq<Node>)
    requires LoadSubgroups(ns).Some?
    ensures var ss := Tagged(ns, "subgroup");
            |LoadSubgroups(ns).value| == |ss| && forall i | 0 <= i < |ss| ::
                IsSubgroupOf(ss[i], LoadSubgroups(ns).value[i])
  {
    hide LoadControls, IsSubgroupOf, RequiredBeside;
    if ns != [] {
      if ns[0].tag == "subgroup" { SubgroupMeans(ns[0], LoadSubgroups(ns).value[0]); }
      SubgroupsMean(ns[1..]);
    }
  }

  lemma GroupMeans(n: Node, g: OptionGroup)
    requires Attr(n, "name") == Some(g.name) && !n.required && LoadSubgroups(n.children) == Some(g.subgroups)
    ensures IsGroupOf(n, g)
  {
    hide IsSubgroupOf;
    SubgroupsMean(n.children);
  }

  lemma {:induction false} GroupsMean(ns: seq<Node>)
    requires LoadGroups(ns).Some?
    ensures var gs := Tagged(ns, "group");
            |LoadGroups(ns).value| == |gs| && forall i | 0 <= i < |gs| :: IsGroupOf(gs[i], LoadGroups(ns).value[i])
  {
    hide LoadSubgroups, IsGroupOf, RequiredBeside;
    if ns != [] {
      if ns[0].tag == "group" { GroupMeans(ns[0], LoadGroups(ns).value[0]); }
      GroupsMean(ns[1..]);
    }
  }

  /** A loaded vocabulary is that of its file. */
  lemma OptionsMean(root: Node)
    requires LoadOptions(root).Some?
    ensures IsOptionsOf(root, LoadOptions(root).value)
  {
    hide LoadGroups, IsGroupOf, RequiredBeside, ParseInteger;
    GroupsMean(root.children);
  }

  // ----- Which files are loaded -----

  predicate ControlLoads(n: Node) {
    && Attr(n, "id").Some?
    && (!HasRequired(n) ==>
          && Attr(n, "name").Some?
          && Attr(n, "type") in {Some("value"), Some("command"), Some("list")}
          && Attr(n, "refresh") in {None, Some("none"), Some("all")}
          && forall v | v in n.children && v.tag == "value" :: Attr(v, "id").Some?)
  }

  /** No required part among the children but in the elements with this tag, which
      are looked at one by one. */
  predicate NoneBeside(n: Node, tag: string) {
    !n.required && forall c | c in n.children && c.tag != tag :: !HasRequired(c)
  }

  predicate SubgroupLoads(n: Node) {
    && NoneBeside(n, "control") && Attr(n, "name").Some?
    && forall c | c in n.children && c.tag == "control" :: ControlLoads(c)
  }

  predicate GroupLoads(n: Node) {
    && NoneBeside(n, "subgroup") && Attr(n, "name").Some?
    && forall c | c in n.children && c.tag == "subgroup" :: SubgroupLoads(c)
  }

  predicate OptionsLoads(root: Node) {
    && root.tag == "options" && Attr(root, "date").Some? && NoneBeside(root, "group")
    && Attr(root, "dbversion").Some? && ParseInteger(Attr(root, "dbversion").value) == Some(3)
    && forall c | c in root.children && c.tag == "group" :: GroupLoads(c)
  }

  lemma {:induction false} ValuesLoadIff(ns: seq<Node>)
    ensures LoadValues(ns).Some? <==> forall n | n in ns && n.tag == "value" :: Attr(n, "id").Some?
  {
    if ns != [] {
      assert ns == [ns[0]] + ns[1..];
      ValuesLoadIff(ns[1..]);
    }
  }

  lemma ControlLoadsIff(n: Node)
    ensures LoadControl(n).Some? <==> ControlLoads(n)
  {
    hide HasRequired, LoadValues;
    ValuesLoadIff(n.children);
  }

  lemma {:induction false} ControlsLoadIff(ns: seq<Node>)
    ensures LoadControls(ns).Some? <==> forall n | n in ns && n.tag == "control" :: ControlLoads(n)
  {
    hide LoadControl, ControlLoads;
    if ns != [] {
      assert ns == [ns[0]] + ns[1..];
      ControlLoadsIff(ns[0]);
      ControlsLoadIff(ns[1..]);
    }
  }

  lemma BesideIff(ns: seq<Node>, tag: string)
    ensures RequiredBeside(ns, tag) <==> exists c | c in ns :: c.tag != tag && HasRequired(c)
  {
    hide HasRequired;
  }

  lemma SubgroupLoadsIff(n: Node)
    ensures SubgroupLoads(n) <==> !n.required && !RequiredBeside(n.children, "control") && Attr(n, "name").Some?
                                  && LoadControls(n.children).Some?
  {
    hide HasRequired, ControlLoads, LoadControls, RequiredBeside;
    BesideIff(n.children, "control");
    ControlsLoadIff(n.children);
  }

  lemma {:induction false} SubgroupsLoadIff(ns: seq<Node>)
    ensures LoadSubgroups(ns).Some? <==> forall n | n in ns && n.tag == "subgroup" :: SubgroupLoads(n)
  {
    hide LoadControls, SubgroupLoads, RequiredBeside, Attr;
    if ns != [] {
      assert ns == [ns[0]] + ns[1..];
      SubgroupLoadsIff(ns[0]);
      SubgroupsLoadIff(ns[1..]);
    }
  }

  lemma GroupLoadsIff(n: Node)
    ensures GroupLoads(n) <==> !n.required && !RequiredBeside(n.children, "subgroup") && Attr(n, "name").Some?
                               && LoadSubgroups(n.children).Some?
  {
    hide HasRequired, SubgroupLoads, LoadSubgroups, RequiredBeside;
    BesideIff(n.children, "subgroup");
    SubgroupsLoadIff(n.children);
  }

  lemma {:induction false} GroupsLoadIff(ns: seq<Node>)
    ensures LoadGroups(ns).Some? <==> forall n | n in ns && n.tag == "group" :: GroupLoads(n)
  {
    hide LoadSubgroups, GroupLoads, RequiredBeside, Attr;
    if ns != [] {
      assert ns == [ns[0]] + ns[1..];
      GroupLoadsIff(ns[0]);
      GroupsLoadIff(ns[1..]);
    }
  }

  /** A file is loaded exactly when every element the loader looks at is complete, and
      nothing required stands where it cannot be told apart as one control. */
  lemma OptionsLoadIff(root: Node)
    ensures LoadOptions(root).Some? <==> OptionsLoads(root)
  {
    hide HasRequired, GroupLoads, LoadGroups, RequiredBeside, ParseInteger;
    BesideIff(root.children, "group");
    GroupsLoadIff(root.children);
  }

  // ----- Controls of the file -----

  /** A control element of a subgroup of a group. */
  ghost predicate HoldsControl(root: Node, c: Node) {
    exists g, s ::
      && g in root.children && g.tag == "group" && s in g.children && s.tag == "subgroup" && c in s.children
          && c.tag == "control"
  }

  lemma {:induction false} SubgroupsMember(o: Options, s: OptionSubgroup)
    ensures s in Subgroups(o) <==> exists g | g in o :: s in g.subgroups
  {
    if o != [] {
      assert o == [o[0]] + o[1..];
      SubgroupsMember(o[1..], s);
    }
  }

  lemma {:induction false} ControlsMember(ss: seq<OptionSubgroup>, c: OptionControl)
    ensures c in Controls(ss) <==> exists s | s in ss :: c in s.controls
  {
    if ss != [] {
      assert ss == [ss[0]] + ss[1..];
      ControlsMember(ss[1..], c);
    }
  }

  /** Every control of the vocabulary comes from a control element, and each control
      element gives one. */
  lemma ControlOfElement(root: Node, o: Options, n: Node) returns (c: OptionControl)
    requires IsOptionsOf(root, o) && HoldsControl(root, n)
    ensures c in Controls(Subgroups(o)) && IsControlOf(n, c)
  {
    hide IsOptionsOf, IsGroupOf, IsSubgroupOf, IsControlOf, Tagged;
    var g, s :| g in root.children && g.tag == "group" && s in g.children && s.tag == "subgroup"
                && n in s.children && n.tag == "control";
    var og := GroupOf(root, o, g);
    var os := SubgroupOf(g, og, s);
    c := ControlOf(s, os, n);
    SubgroupsMember(o, os);
    ControlsMember(Subgroups(o), c);
  }

  lemma GroupOf(root: Node, o: Options, g: Node) returns (og: OptionGroup)
    requires IsOptionsOf(root, o) && g in root.children && g.tag == "group"
    ensures og in o && IsGroupOf(g, og)
  {
    hide IsGroupOf, ParseInteger;
    var gs := Tagged(root.children, "group");
    assert g in gs;
    var i :| 0 <= i < |gs| && gs[i] == g;
    og := o[i];
  }

  lemma SubgroupOf(g: Node, og: OptionGroup, s: Node) returns (os: OptionSubgroup)
    requires IsGroupOf(g, og) && s in g.children && s.tag == "subgroup"
    ensures os in og.subgroups && IsSubgroupOf(s, os)
  {
    hide IsSubgroupOf;
    var ss := Tagged(g.children, "subgroup");
    assert s in ss;
    var i :| 0 <= i < |ss| && ss[i] == s;
    os := og.subgroups[i];
  }

  lemma ControlOf(s: Node, os: OptionSubgroup, n: Node) returns (c: OptionControl)
    requires IsSubgroupOf(s, os) && n in s.children && n.tag == "control"
    ensures c in os.controls && IsControlOf(n, c)
  {
    hide IsControlOf;
    var cs := Tagged(s.children, "control");
    assert n in cs;
    var i :| 0 <= i < |cs| && cs[i] == n;
    c := os.controls[i];
  }

  lemma ElementOfControl(root: Node, o: Options, c: OptionControl) returns (n: Node)
    requires IsOptionsOf(root, o) && c in Controls(Subgroups(o))
    ensures HoldsControl(root, n) && IsControlOf(n, c)
  {
    hide IsControlOf, ParseInteger;
    ControlsMember(Subgroups(o), c);
    var s :| s in Subgroups(o) && c in s.controls;
    SubgroupsMember(o, s);
    var g :| g in o && s in g.subgroups;
    var i :| 0 <= i < |o| && o[i] == g;
    var gs := Tagged(root.children, "group");
    assert gs[i] in gs && IsGroupOf(gs[i], o[i]);
    var j :| 0 <= j < |g.subgroups| && g.subgroups[j] == s;
    var ss := Tagged(gs[i].children, "subgroup");
    assert ss[j] in ss && IsSubgroupOf(ss[j], g.subgroups[j]);
    var k :| 0 <= k < |s.controls| && s.controls[k] == c;
    var cs := Tagged(ss[j].children, "control");
    assert cs[k] in cs && IsControlOf(cs[k], s.controls[k]);
    n := cs[k];
    assert gs[i] in root.children && ss[j] in gs[i].children && cs[k] in ss[j].children;
  }

  lemma BlockedMember(o: Options, id: string)
    ensures Blocked(o, id) <==> exists c | c in Controls(Subgroups(o)) :: c.id == id && c.unavailable
    ensures KnownControl(o, id) <==> exists c | c in Controls(Subgroups(o)) :: c.id == id
  {
    var cs := Controls(Subgroups(o));
    if c :| c in cs && c.id == id { var i :| 0 <= i < |cs| && cs[i] == c; }
    if c :| c in cs && c.id == id && c.unavailable { var i :| 0 <= i < |cs| && cs[i] == c; }
  }

  lemma ControlId(n: Node, c: OptionControl)
    requires IsControlOf(n, c)
    ensures Attr(n, "id") == Some(c.id) && (c.unavailable <==> HasRequired(n))
  {
  }

  /** An ID is known when some control element has it, and blocked when some control
      element with it holds required semantics. */
  lemma BlockedMeans(root: Node, o: Options, id: string)
    requires LoadOptions(root) == Some(o)
    ensures Blocked(o, id) <==> exists n :: HoldsControl(root, n) && Attr(n, "id") == Some(id) && HasRequired(n)
    ensures KnownControl(o, id) <==> exists n :: HoldsControl(root, n) && Attr(n, "id") == Some(id)
  {
    hide HasRequired, HoldsControl, IsControlOf, IsOptionsOf, LoadOptions, Blocked, KnownControl, Attr;
    OptionsMean(root);
    BlockedMember(o, id);
    if Blocked(o, id) {
      var c :| c in Controls(Subgroups(o)) && c.id == id && c.unavailable;
      var n := ElementOfControl(root, o, c);
      ControlId(n, c);
    }
    if KnownControl(o, id) {
      var c :| c in Controls(Subgroups(o)) && c.id == id;
      var n := ElementOfControl(root, o, c);
      ControlId(n, c);
    }
    forall n | HoldsControl(root, n) && Attr(n, "id") == Some(id)
      ensures KnownControl(o, id) && (HasRequired(n) ==> Blocked(o, id))
    {
      var c := ControlOfElement(root, o, n);
      ControlId(n, c);
    }
  }

  // ----- The scan, on the files -----

  /** A profile holds required semantics at some depth, or its controls name one that
      the options file holds with required semantics. */
  ghost predicate ProfileNeeds(optionsRoot: Node, root: Node) {
    || root.required
    || exists child | child in root.children ::
         || (exists path ::
               RequiredFeatures.NodeAt(child, path).Some? && RequiredFeatures.NodeAt(child, path).value.required)
         || (child.tag == "controls" && exists control, n ::
               && control in child.children && control.tag == "control" && Attr(control, "id").Some?
               && HoldsControl(optionsRoot, n) && HasRequired(n) && Attr(n, "id") == Attr(control, "id"))
  }

  lemma ChildNeeds(optionsRoot: Node, o: Options, child: Node)
    requires LoadOptions(optionsRoot) == Some(o)
    ensures ChildDemands(o, child) <==>
            || (exists path ::
                  RequiredFeatures.NodeAt(child, path).Some? && RequiredFeatures.NodeAt(child, path).value.required)
            || (child.tag == "controls" && exists control, n ::
                  && control in child.children && control.tag == "control" && Attr(control, "id").Some?
                  && HoldsControl(optionsRoot, n) && HasRequired(n) && Attr(n, "id") == Attr(control, "id"))
  {
    hide HasRequired, HoldsControl, Blocked, LoadOptions, RequiredFeatures.NodeAt, Attr;
    RequiredFeatures.HasRequiredMeans(child);
    forall control | control in child.children && control.tag == "control" && Attr(control, "id").Some?
      ensures Blocked(o, Attr(control, "id").value) <==>
              exists n :: HoldsControl(optionsRoot, n) && Attr(n, "id") == Attr(control, "id") && HasRequired(n)
    { BlockedMeans(optionsRoot, o, Attr(control, "id").value); }
    if control, n :|
      && control in child.children && control.tag == "control" && Attr(control, "id").Some?
      && HoldsControl(optionsRoot, n) && HasRequired(n) && Attr(n, "id") == Attr(control, "id") {
      var i :| 0 <= i < |child.children| && child.children[i] == control;
      assert NamesShared(o, child.children[i]);
    }
    if i :| 0 <= i < |child.children| && NamesShared(o, child.children[i]) {
      assert child.children[i] in child.children;
    }
  }

  lemma DemandsMeans(optionsRoot: Node, o: Options, root: Node)
    requires LoadOptions(optionsRoot) == Some(o)
    ensures Demands(o, root) <==> ProfileNeeds(optionsRoot, root)
  {
    hide HasRequired, HoldsControl, ChildDemands, LoadOptions, RequiredFeatures.NodeAt, Attr;
    forall child | child in root.children { ChildNeeds(optionsRoot, o, child); }
    if child :| child in root.children && ChildDemands(o, child) {
      var i :| 0 <= i < |root.children| && root.children[i] == child;
    }
    forall i | 0 <= i < |root.children| ensures root.children[i] in root.children { }
  }

  /** The scan's answer, on the files: some profile reached by includes needs what is
      not known here. */
  lemma DemandingMeans(optionsRoot: Node, ctx: Context, k: Key)
    requires LoadOptions(optionsRoot) == Some(ctx.options)
    ensures Demanding(ctx, k) <==>
            exists p :: Trail(ctx, p) && p[0] == k && RootAt(ctx, p[|p| - 1]).Some?
                        && ProfileNeeds(optionsRoot, RootAt(ctx, p[|p| - 1]).value)
  {
    hide ProfileNeeds, Demands, LoadOptions, Link;
    forall p | Trail(ctx, p) && RootAt(ctx, p[|p| - 1]).Some?
      ensures DemandsAt(ctx, p[|p| - 1]) <==> ProfileNeeds(optionsRoot, RootAt(ctx, p[|p| - 1]).value)
    { DemandsMeans(optionsRoot, ctx.options, RootAt(ctx, p[|p| - 1]).value); }
  }
}
