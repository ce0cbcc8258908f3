/** Which elements the converter compiles: those within its nesting bound whose
    executable numbers can be read. */
module CompileLimits {
  import opened Base
  import opened Schema
  import opened Compiler
  import opened DocumentSchema

  /** The element reached by child positions. */
  function ElementAt(x: Xml, path: seq<nat>): Option<Xml>
    decreases |path|
  {
    if path == [] then Some(x)
    else if path[0] < |x.children| then ElementAt(x.children[path[0]], path[1..])
    else None
  }

  function TagsTo(x: Xml, path: seq<nat>): seq<string>
    requires ElementAt(x, path).Some?
    decreases |path|
  { [x.tag] + if path == [] then [] else TagsTo(x.children[path[0]], path[1..]) }

  /** Its numbers can be read, if they execute under these tags. */
  predicate NumbersRead(attrs: seq<XmlAttr>, tag: string, above: seq<string>, inOptions: bool) {
    Active(above + [tag], inOptions) ==>
      forall a, id | a in attrs && a.space.None? && AttributeId(a.name) == Some(id) && id in {6, 7, 8, 12}
                     && id in ExecutableAttributes(tag, LastOf(above), inOptions) ::
        SourceInteger(a.value, id).Some?
  }

  predicate Compilable(x: Xml, above: seq<string>, inOptions: bool, depth: nat, path: seq<nat>)
    requires ElementAt(x, path).Some?
  {
    var e := ElementAt(x, path).value;
    var tags := above + TagsTo(x, path);
    depth + |path| <= 64 && NumbersRead(e.attrs, e.tag, tags[..|tags| - 1], inOptions)
  }

  lemma {:induction false} AttrsCompile(attrs: seq<XmlAttr>, allowed: set<nat>)
    ensures CompileAttrs(attrs, allowed).Some? <==>
            forall a, id | a in attrs && a.space.None? && AttributeId(a.name) == Some(id) && id in {6, 7, 8, 12}
                           && id in allowed ::
              SourceInteger(a.value, id).Some?
    decreases |attrs|
  {
    hide AttributeId, SourceInteger;
    if attrs != [] {
      var init, last := attrs[..|attrs| - 1], attrs[|attrs| - 1];
      assert attrs == init + [last];
      AttrsCompile(init, allowed);
    }
  }

  lemma AttrsRead(attrs: seq<XmlAttr>, tag: string, above: seq<string>, inOptions: bool)
    ensures CompileAttrs(attrs, Allowed(tag, LastOf(above), inOptions, Active(above, inOptions))).Some? <==>
            NumbersRead(attrs, tag, above, inOptions)
  {
    hide AttributeId, SourceInteger, CompileAttrs, ExecutableAttributes, ExecutablePath, Active;
    AttrsCompile(attrs, Allowed(tag, LastOf(above), inOptions, Active(above, inOptions)));
    ActiveStep(above, tag, inOptions);
  }

  lemma CompileStep(x: Xml, above: seq<string>, inOptions: bool, depth: nat)
    ensures Compile(x, LastOf(above), inOptions, Active(above, inOptions), depth).Some? <==>
            && depth <= 64 && NumbersRead(x.attrs, x.tag, above, inOptions)
            && CompileAll(x.children, x.tag, inOptions, Active(above + [x.tag], inOptions), depth + 1).Some?
  {
    hide CompileAttrs, Allowed, ExecutablePath, Active, NumbersRead, CompileAll;
    AttrsRead(x.attrs, x.tag, above, inOptions);
    ActiveStep(above, x.tag, inOptions);
  }

  lemma {:induction false} AllCompile(xs: seq<Xml>, parent: string, inOptions: bool, active: bool, depth: nat)
    ensures CompileAll(xs, parent, inOptions, active, depth).Some? <==>
            forall i | 0 <= i < |xs| :: Compile(xs[i], parent, inOptions, active, depth).Some?
    decreases |xs|
  {
    hide Compile;
    if xs != [] {
      AllCompile(xs[1..], parent, inOptions, active, depth);
      assert forall i | 0 < i < |xs| :: xs[i] == xs[1..][i - 1];
    }
  }

  lemma WholePath(x: Xml, i: nat, path: seq<nat>, above: seq<string>, inOptions: bool, depth: nat)
    requires i < |x.children| && ElementAt(x.children[i], path).Some?
    ensures ElementAt(x, [i] + path) == ElementAt(x.children[i], path)
    ensures Compilable(x, above, inOptions, depth, [i] + path) <==>
            Compilable(x.children[i], above + [x.tag], inOptions, depth + 1, path)
  {
    hide NumbersRead;
    assert ([i] + path)[1..] == path;
    assert above + TagsTo(x, [i] + path) == above + [x.tag] + TagsTo(x.children[i], path);
  }

  lemma RootPath(x: Xml, above: seq<string>, inOptions: bool, depth: nat)
    ensures Compilable(x, above, inOptions, depth, []) <==>
            depth <= 64 && NumbersRead(x.attrs, x.tag, above, inOptions)
  {
    hide NumbersRead;
    assert TagsTo(x, []) == [x.tag] && (above + [x.tag])[..|above|] == above;
  }

  lemma {:induction false} CompiledAt(x: Xml, above: seq<string>, inOptions: bool, depth: nat, path: seq<nat>)
    requires Compile(x, LastOf(above), inOptions, Active(above, inOptions), depth).Some? && ElementAt(x, path).Some?
    ensures Compilable(x, above, inOptions, depth, path)
    decreases |path|
  {
    hide Compile, CompileAll, Active, NumbersRead, Compilable;
    CompileStep(x, above, inOptions, depth);
    if path == [] {
      RootPath(x, above, inOptions, depth);
    } else {
      AllCompile(x.children, x.tag, inOptions, Active(above + [x.tag], inOptions), depth + 1);
      CompiledAt(x.children[path[0]], above + [x.tag], inOptions, depth + 1, path[1..]);
      WholePath(x, path[0], path[1..], above, inOptions, depth);
      assert [path[0]] + path[1..] == path;
    }
  }

  lemma {:induction false} CompilesThroughout(x: Xml, above: seq<string>, inOptions: bool, depth: nat)
    requires forall path | ElementAt(x, path).Some? :: Compilable(x, above, inOptions, depth, path)
    ensures Compile(x, LastOf(above), inOptions, Active(above, inOptions), depth).Some?
    decreases x
  {
    hide Compile, CompileAll, Active, NumbersRead, Compilable;
    CompileStep(x, above, inOptions, depth);
    RootPath(x, above, inOptions, depth);
    assert ElementAt(x, []).Some?;
    AllCompile(x.children, x.tag, inOptions, Active(above + [x.tag], inOptions), depth + 1);
    forall i | 0 <= i < |x.children|
      ensures Compile(x.children[i], x.tag, inOptions, Active(above + [x.tag], inOptions), depth + 1).Some?
    {
      forall path | ElementAt(x.children[i], path).Some?
        ensures Compilable(x.children[i], above + [x.tag], inOptions, depth + 1, path)
      { WholePath(x, i, path, above, inOptions, depth); }
      CompilesThroughout(x.children[i], above + [x.tag], inOptions, depth + 1);
    }
  }

  /** The converter's own limits, element by element. */
  lemma CompileMeans(x: Xml, inOptions: bool)
    ensures Compile(x, "", inOptions, true, 0).Some? <==>
            forall path | ElementAt(x, path).Some? :: Compilable(x, [], inOptions, 0, path)
  {
    hide Compile, Compilable, ElementAt;
    assert Active([], inOptions) && LastOf([]) == "";
    if Compile(x, "", inOptions, true, 0).Some? {
      forall path | ElementAt(x, path).Some?
        ensures Compilable(x, [], inOptions, 0, path)
      { CompiledAt(x, [], inOptions, 0, path); }
    } else if forall path | ElementAt(x, path).Some? :: Compilable(x, [], inOptions, 0, path) {
      CompilesThroughout(x, [], inOptions, 0);
      assert false;
    }
  }
}
