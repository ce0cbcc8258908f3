/** The tree a caller receives: the groups and subgroups of the options that hold a
    control, in order, and nothing else. */
module PublishedTree {
  import opened Base
  import opened Database
  import opened Loader

  /** One subgroup of a tree with the name of its group. */
  datatype Leaf = Leaf(group: string, name: string, pattern: Option<string>, controls: seq<Control>)

  function LeavesIn(group: string, subgroups: seq<SubgroupTree>): seq<Leaf> {
    if subgroups == [] then []
    else [Leaf(group, subgroups[0].name, subgroups[0].pattern, subgroups[0].controls)] + LeavesIn(group, subgroups[1..])
  }

  /** A tree read subgroup by subgroup. */
  function Leaves(groups: seq<GroupTree>): seq<Leaf> {
    if groups == [] then [] else LeavesIn(groups[0].name, groups[0].subgroups) + Leaves(groups[1..])
  }

  /** The name of the group that holds the k-th subgroup. */
  function GroupOf(options: Options, k: nat): string
    requires k < |Subgroups(options)|
  {
    if k < |options[0].subgroups| then options[0].name else GroupOf(options[1..], k - |options[0].subgroups|)
  }

  function LeafAt(options: Options, slots: seq<seq<Control>>, k: nat): Leaf
    requires k < |slots| == |Subgroups(options)|
  {
    var s := Subgroups(options)[k];
    Leaf(GroupOf(options, k), s.name, s.pattern, slots[k])
  }

  /** Every subgroup of the options with its slot, in order. */
  function AllLeaves(options: Options, slots: seq<seq<Control>>): (r: seq<Leaf>)
    requires |slots| == |Subgroups(options)|
    ensures |r| == |slots| && forall k | 0 <= k < |slots| :: r[k] == LeafAt(options, slots, k)
  { seq(|slots|, k requires 0 <= k < |slots| => LeafAt(options, slots, k)) }

  /** Those with a control, in order. */
  function Full(leaves: seq<Leaf>): seq<Leaf> {
    if leaves == [] then []
    else if leaves[0].controls != [] then [leaves[0]] + Full(leaves[1..])
    else Full(leaves[1..])
  }

  /** No group without subgroups, no subgroup without controls. */
  predicate NothingEmpty(groups: seq<GroupTree>) {
    forall g | g in groups :: g.subgroups != [] && forall s | s in g.subgroups :: s.controls != []
  }

  /** The tree shows exactly the subgroups with a control, with their names and under
      the names of their groups, in the order of the options. */
  predicate Publishes(options: Options, slots: seq<seq<Control>>, groups: seq<GroupTree>) {
    |slots| == |Subgroups(options)| && NothingEmpty(groups) && Leaves(groups) == Full(AllLeaves(options, slots))
  }

  lemma {:induction false} FullConcat(a: seq<Leaf>, b: seq<Leaf>)
    ensures Full(a + b) == Full(a) + Full(b)
  {
    if a == [] {
      assert a + b == b;
    } else {
      assert (a + b)[1..] == a[1..] + b;
      FullConcat(a[1..], b);
    }
  }

  function SlotLeaves(group: string, subgroups: seq<OptionSubgroup>, slots: seq<seq<Control>>): (r: seq<Leaf>)
    requires |slots| == |subgroups|
    ensures |r| == |slots|
    ensures forall k | 0 <= k < |slots| :: r[k] == Leaf(group, subgroups[k].name, subgroups[k].pattern, slots[k])
  {
    if slots == [] then []
    else
      [Leaf(group, subgroups[0].name, subgroups[0].pattern, slots[0])] + SlotLeaves(group, subgroups[1..], slots[1..])
  }

  /** The subgroups of one group that are kept. */
  lemma {:induction false} PruneLeaves(group: string, subgroups: seq<OptionSubgroup>, slots: seq<seq<Control>>)
    requires |slots| == |subgroups|
    ensures LeavesIn(group, Prune(subgroups, slots)) == Full(SlotLeaves(group, subgroups, slots))
    ensures forall s | s in Prune(subgroups, slots) :: s.controls != []
  {
    if slots != [] {
      PruneLeaves(group, subgroups[1..], slots[1..]);
      var all := SlotLeaves(group, subgroups, slots);
      assert all[1..] == SlotLeaves(group, subgroups[1..], slots[1..]);
    }
  }

  lemma AllLeavesSplit(options: Options, slots: seq<seq<Control>>)
    requires options != [] && |slots| == |Subgroups(options)|
    ensures var n := |options[0].subgroups|;
            && n <= |slots| && |slots[n..]| == |Subgroups(options[1..])|
            && AllLeaves(options, slots) ==
               SlotLeaves(options[0].name, options[0].subgroups, slots[..n]) + AllLeaves(options[1..], slots[n..])
  {
    var n := |options[0].subgroups|;
    var low := SlotLeaves(options[0].name, options[0].subgroups, slots[..n]);
    var high := AllLeaves(options[1..], slots[n..]);
    forall k | 0 <= k < |slots|
      ensures AllLeaves(options, slots)[k] == (low + high)[k]
    {
      if k >= n { assert slots[k] == slots[n..][k - n] && Subgroups(options)[k] == Subgroups(options[1..])[k - n]; }
    }
  }

  /** Arranging publishes the full slots, each under its group, and nothing empty. */
  lemma {:induction false} ArrangePublishes(options: Options, slots: seq<seq<Control>>)
    requires |slots| == |Subgroups(options)|
    ensures Publishes(options, slots, Arrange(options, slots))
    decreases |options|
  {
    hide LeavesIn, Prune, Full, AllLeaves, SlotLeaves, Leaves;
    if options == [] {
      NothingThere();
      assert AllLeaves(options, slots) == [];
    } else {
      var n := |options[0].subgroups|;
      AllLeavesSplit(options, slots);
      PruneLeaves(options[0].name, options[0].subgroups, slots[..n]);
      ArrangePublishes(options[1..], slots[n..]);
      FullConcat(SlotLeaves(options[0].name, options[0].subgroups, slots[..n]), AllLeaves(options[1..], slots[n..]));
      FirstLeaves(options[0].name, Prune(options[0].subgroups, slots[..n]), Arrange(options[1..], slots[n..]));
    }
  }

  lemma NothingThere()
    ensures Full([]) == [] && Leaves([]) == []
  {
  }

  lemma FirstLeaves(name: string, subgroups: seq<SubgroupTree>, rest: seq<GroupTree>)
    ensures Leaves(if subgroups == [] then rest else [GroupTree(name, subgroups)] + rest) ==
            LeavesIn(name, subgroups) + Leaves(rest)
  {
    if subgroups != [] { assert ([GroupTree(name, subgroups)] + rest)[1..] == rest; }
  }
}
