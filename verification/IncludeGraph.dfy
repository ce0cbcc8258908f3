/** The include graph of a profile database: which profiles have a complete,
    acyclic and sufficiently shallow include closure. */
module IncludeGraph {
  import opened Base

  const MAX_INCLUDE_DEPTH: nat := 256
  const MAX_VISITS: nat := 1_000_000
  const USIZE_MAX: nat := 0xFFFF_FFFF_FFFF_FFFF

  /** Each profile's include targets, in order; None for an include that names no
      file. A target need not be a profile. */
  type Graph = map<string, seq<Option<string>>>

  // ----- Specification -----

  /** Every include below `id` names a profile, nesting at most `height` deep; when
      `bounded`, no subtree expands to more than MAX_VISITS visits. */
  ghost predicate Resolves(g: Graph, bounded: bool, id: string, height: nat)
    decreases height
  {
    && height > 0 && id in g
    && (forall t | t in g[id] :: t.Some? && Resolves(g, bounded, t.value, height - 1))
    && (bounded ==> Expansion(g, id, height) <= MAX_VISITS)
  }

  /** Profiles visited when `id` is expanded, itself included. */
  ghost function Expansion(g: Graph, id: string, height: nat): nat
    decreases height, 1, 0
  {
    if height == 0 || id !in g then 0 else 1 + ExpansionAll(g, g[id], height - 1)
  }

  ghost function ExpansionAll(g: Graph, targets: seq<Option<string>>, height: nat): nat
    decreases height, 2, |targets|
  {
    if targets == [] then 0
    else
      var last := targets[|targets| - 1];
      ExpansionAll(g, Init(targets), height) + if last.Some? then Expansion(g, last.value, height) else 0
  }

  ghost predicate Kept(g: Graph, bounded: bool, id: string) {
    Resolves(g, bounded, id, MAX_INCLUDE_DEPTH)
  }

  lemma {:induction false} ResolvesMonotone(g: Graph, bounded: bool, id: string, h: nat, k: nat)
    requires Resolves(g, bounded, id, h) && h <= k
    ensures Resolves(g, bounded, id, k) && Expansion(g, id, k) == Expansion(g, id, h)
    decreases h
  {
    forall t | t in g[id] ensures t.Some? && Resolves(g, bounded, t.value, k - 1)
        && Expansion(g, t.value, k - 1) == Expansion(g, t.value, h - 1) {
      ResolvesMonotone(g, bounded, t.value, h - 1, k - 1);
    }
    SameExpansion(g, g[id], h - 1, k - 1);
  }

  lemma {:induction false} SameExpansion(g: Graph, targets: seq<Option<string>>, h: nat, k: nat)
    requires forall t | t in targets :: t.Some? && Expansion(g, t.value, k) == Expansion(g, t.value, h)
    ensures ExpansionAll(g, targets, k) == ExpansionAll(g, targets, h)
    decreases |targets|
  {
    if targets != [] {
      assert targets[|targets| - 1] in targets;
      SameExpansion(g, Init(targets), h, k);
    }
  }

  // ----- The sweep's bookkeeping, as functions of what has been resolved -----

  /** What a resolved profile contributes: its height and its expansion. */
  datatype Size = Size(height: nat, visits: nat)

  type Done = map<string, Size>

  ghost function Pending(targets: seq<Option<string>>, done: Done): nat
    decreases |targets|
  {
    if targets == [] then 0
    else
      var last := targets[|targets| - 1];
      Pending(Init(targets), done) + if last.Some? && last.value in done then 0 else 1
  }

  ghost function Tallest(targets: seq<Option<string>>, done: Done): nat
    decreases |targets|
  {
    if targets == [] then 0
    else
      var last := targets[|targets| - 1];
      var rest := Tallest(Init(targets), done);
      if last.Some? && last.value in done then Max(done[last.value].height, rest) else rest
  }

  ghost function Total(targets: seq<Option<string>>, done: Done): nat
    decreases |targets|
  {
    if targets == [] then 0
    else
      var last := targets[|targets| - 1];
      Total(Init(targets), done) + Visits(last, done)
  }

  function Init<T>(s: seq<T>): (r: seq<T>)
    requires s != []
    ensures s == r + [s[|s| - 1]]
  { s[..|s| - 1] }

  function Count<T(==)>(s: seq<T>, x: T): nat {
    if s == [] then 0 else Count(Init(s), x) + if s[|s| - 1] == x then 1 else 0
  }

  lemma CountAppend<T>(s: seq<T>, y: T, x: T)
    ensures Count(s + [y], x) == Count(s, x) + if x == y then 1 else 0
  {
    assert Init(s + [y]) == s;
  }

  lemma {:induction false} CountMember<T>(s: seq<T>, x: T)
    ensures Count(s, x) > 0 <==> x in s
  {
    if s != [] { CountMember(Init(s), x); }
  }

  lemma {:induction false} CountPrefix<T>(s: seq<T>, k: nat, x: T)
    requires k <= |s|
    ensures Count(s[..k], x) <= Count(s, x)
    decreases |s| - k
  {
    if k == |s| {
      assert s[..k] == s;
    } else {
      CountPrefix(s, k + 1, x);
      assert s[..k + 1] == s[..k] + [s[k]];
      CountAppend(s[..k], s[k], x);
    }
  }

  function Max(a: nat, b: nat): nat { if a < b then b else a }

  function Saturate(n: nat): nat { if n > USIZE_MAX then USIZE_MAX else n }

  ghost function Times(n: nat, each: nat): nat {
    if n == 0 then 0 else Times(n - 1, each) + each
  }

  ghost function Edges(targets: seq<Option<string>>, id: string): nat {
    Count(targets, Some(id))
  }

  /** Resolving one more profile discharges each of its edges once. */
  lemma {:induction false} DischargePending(targets: seq<Option<string>>, done: Done, id: string, size: Size)
    requires id !in done
    ensures Pending(targets, done) == Pending(targets, done[id := size]) + Edges(targets, id)
    decreases |targets|
  {
    if targets != [] {
      DischargePending(Init(targets), done, id, size);
    }
  }

  lemma {:induction false} DischargeTallest(targets: seq<Option<string>>, done: Done, id: string, size: Size)
    requires id !in done
    ensures Tallest(targets, done[id := size]) ==
            if Edges(targets, id) > 0 then Max(size.height, Tallest(targets, done)) else Tallest(targets, done)
    decreases |targets|
  {
    if targets != [] {
      DischargeTallest(Init(targets), done, id, size);
    }
  }

  lemma {:induction false} DischargeTotal(targets: seq<Option<string>>, done: Done, id: string, size: Size)
    requires id !in done
    ensures Total(targets, done[id := size]) == Total(targets, done) + Times(Edges(targets, id), size.visits)
    decreases |targets|
  {
    if targets != [] {
      hide Times, Visits, Total, Edges;
      var init, last, more := Init(targets), targets[|targets| - 1], done[id := size];
      VisitsStep(last, done, id, size);
      DischargeTotal(init, done, id, size);
      TimesStep(Edges(init, id), size.visits);
      TotalStep(targets, done);
      TotalStep(targets, more);
      EdgesStep(targets, id);
    }
  }

  ghost function Visits(target: Option<string>, done: Done): nat {
    if target.Some? && target.value in done then done[target.value].visits else 0
  }

  lemma VisitsStep(target: Option<string>, done: Done, id: string, size: Size)
    requires id !in done
    ensures Visits(target, done[id := size]) == Visits(target, done) + if target == Some(id) then size.visits else 0
  {
  }

  lemma TotalStep(targets: seq<Option<string>>, done: Done)
    requires targets != []
    ensures Total(targets, done) == Total(Init(targets), done) + Visits(targets[|targets| - 1], done)
  {
  }

  lemma EdgesStep(targets: seq<Option<string>>, id: string)
    requires targets != []
    ensures Edges(targets, id) == Edges(Init(targets), id) + if targets[|targets| - 1] == Some(id) then 1 else 0
  {
  }

  lemma TimesStep(n: nat, each: nat)
    ensures Times(n + 1, each) == Times(n, each) + each
  {
  }

  /** What has been resolved so far is recorded exactly. */
  ghost predicate Exact(g: Graph, bounded: bool, done: Done) {
    forall id | id in done ::
      && id in g && done[id].height <= MAX_INCLUDE_DEPTH
      && forall h: nat :: (Resolves(g, bounded, id, h) <==> done[id].height <= h)
                          && (done[id].height <= h ==> Expansion(g, id, h) == done[id].visits)
  }

  /** Once nothing is pending, the recorded sizes of the targets give the
      profile's own size. */
  lemma SizeFromTargets(g: Graph, bounded: bool, done: Done, id: string, h: nat)
    requires Exact(g, bounded, done) && id in g && Pending(g[id], done) == 0
    ensures 1 + Tallest(g[id], done) <= h ==> Expansion(g, id, h) == 1 + Total(g[id], done)
    ensures Resolves(g, bounded, id, h) <==>
            1 + Tallest(g[id], done) <= h && (bounded ==> 1 + Total(g[id], done) <= MAX_VISITS)
  {
    if h > 0 { TargetsFromSizes(g, bounded, done, g[id], h - 1); }
  }

  lemma {:induction false} TargetsFromSizes(g: Graph, bounded: bool, done: Done, targets: seq<Option<string>>, h: nat)
    requires Exact(g, bounded, done) && Pending(targets, done) == 0
    ensures Tallest(targets, done) <= h ==> ExpansionAll(g, targets, h) == Total(targets, done)
    ensures (forall t | t in targets :: t.Some? && Resolves(g, bounded, t.value, h)) <==> Tallest(targets, done) <= h
    decreases |targets|
  {
    if targets != [] {
      TargetsFromSizes(g, bounded, done, Init(targets), h);
      var last := targets[|targets| - 1].value;
      assert Resolves(g, bounded, last, h) <==> done[last].height <= h;
    }
  }

  lemma {:induction false} NonePending(targets: seq<Option<string>>, done: Done)
    requires forall t | t in targets :: t.Some? && t.value in done
    ensures Pending(targets, done) == 0
    decreases |targets|
  {
    if targets != [] {
      var init, last := Init(targets), targets[|targets| - 1];
      assert last in targets && forall t | t in init :: t in targets;
      NonePending(init, done);
    }
  }

  // ----- The sweep -----

  ghost predicate Lists(ids: seq<string>, g: Graph) {
    && (forall i, j | 0 <= i < j < |ids| :: ids[i] != ids[j])
    && (forall i | 0 <= i < |ids| :: ids[i] in g)
    && forall id | id in g :: id in ids
  }

  ghost function EdgesBetween(g: Graph, ids: seq<string>, i: nat, t: nat): nat {
    if i < |ids| && t < |ids| && ids[i] in g then Edges(g[ids[i]], ids[t]) else 0
  }

  /** The reverse edges: one entry in `parents[t]` for every include of t. */
  ghost predicate ReverseEdges(g: Graph, ids: seq<string>, parents: seq<seq<nat>>)
  {
    |parents| == |ids| &&
    forall t: nat, i: nat | t < |ids| :: Count(parents[t], i) == EdgesBetween(g, ids, i, t)
  }

  method Index(ids: seq<string>, g: Graph) returns (indices: map<string, nat>)
    requires Lists(ids, g)
    ensures forall id :: id in indices <==> id in g
    ensures forall id | id in indices :: indices[id] < |ids| && ids[indices[id]] == id
  {
    indices := map[];
    for i := 0 to |ids|
      invariant forall id :: id in indices <==> id in ids[..i]
      invariant forall id | id in indices :: indices[id] < i && ids[indices[id]] == id
    {
      indices := indices[ids[i] := i];
    }
    assert ids[..|ids|] == ids;
  }

  method Reverse(ids: seq<string>, g: Graph) returns (pending: seq<nat>, parents: seq<seq<nat>>)
    requires Lists(ids, g)
    ensures |pending| == |ids| && forall i | 0 <= i < |ids| :: pending[i] == |g[ids[i]]|
    ensures ReverseEdges(g, ids, parents)
  {
    hide Count, EdgesBetween;
    var indices := Index(ids, g);
    pending := seq(|ids|, _ => 0);
    parents := seq(|ids|, _ => []);
    CountEmpty(parents);
    for i := 0 to |ids|
      invariant |pending| == |parents| == |ids|
      invariant forall j | 0 <= j < i :: pending[j] == |g[ids[j]]|
      invariant forall j | i <= j < |ids| :: pending[j] == 0
      invariant forall t: nat, j: nat | t < |ids| ::
                Count(parents[t], j) == if j < i then EdgesBetween(g, ids, j, t) else 0
    {
      pending, parents := Edge(ids, g, indices, i, pending, parents);
    }
    NoEdgesBeyond(g, ids);
  }

  lemma NoEdgesBeyond(g: Graph, ids: seq<string>)
    ensures forall t: nat, i: nat | i >= |ids| :: EdgesBetween(g, ids, i, t) == 0
  {
  }

  lemma CountEmpty(parents: seq<seq<nat>>)
    requires forall t | 0 <= t < |parents| :: parents[t] == []
    ensures forall t: nat, j: nat | t < |parents| :: Count(parents[t], j) == 0
  {
  }

  /** The includes of one profile. */
  method Edge(ids: seq<string>, g: Graph, indices: map<string, nat>, i: nat, pending0: seq<nat>,
              parents0: seq<seq<nat>>)
    returns (pending: seq<nat>, parents: seq<seq<nat>>)
    requires Lists(ids, g) && |pending0| == |parents0| == |ids| && i < |ids| && pending0[i] == 0
    requires forall id :: id in indices <==> id in g
    requires forall id | id in indices :: indices[id] < |ids| && ids[indices[id]] == id
    ensures pending == pending0[i := |g[ids[i]]|] && |parents| == |ids|
    ensures forall t: nat, j: nat | t < |ids| ::
      Count(parents[t], j) == Count(parents0[t], j) + if j == i then EdgesBetween(g, ids, i, t) else 0
  {
    hide Count;
    pending, parents := pending0, parents0;
    var targets := g[ids[i]];
    assert forall id :: Edges(targets[..0], id) == 0 by { EdgesOfNone(); }
    for k := 0 to |targets|
      invariant pending == pending0[i := k] && |parents| == |ids|
      invariant forall t: nat, j: nat | t < |ids| ::
        Count(parents[t], j) == Count(parents0[t], j) + if j == i then Edges(targets[..k], ids[t]) else 0
    {
      pending := pending[i := pending[i] + 1];
      assert targets[..k + 1] == targets[..k] + [targets[k]];
      forall id { CountAppend(targets[..k], targets[k], Some(id)); }
      if targets[k].Some? && targets[k].value in indices {
        var target := indices[targets[k].value];
        forall j: nat { CountAppend(parents[target], i, j); }
        parents := parents[target := parents[target] + [i]];
      }
    }
    assert targets[..|targets|] == targets;
  }

  lemma EdgesOfNone()
    ensures forall id :: Edges([], id) == 0
  {
  }

  // ----- The counters -----

  datatype Tables = Tables(pending: seq<nat>, heights: seq<nat>, visits: seq<nat>)

  ghost predicate Rows(t: Tables, n: nat) {
    |t.pending| == |t.heights| == |t.visits| == n && forall i | 0 <= i < n :: t.visits[i] <= USIZE_MAX
  }

  /** The counters agree with what is recorded as resolved. */
  ghost predicate Books(g: Graph, ids: seq<string>, done: Done, t: Tables)
    requires Lists(ids, g)
  {
    Rows(t, |ids|) && forall i | 0 <= i < |ids| :: Row(g[ids[i]], done, t.pending[i], t.heights[i], t.visits[i])
  }

  ghost predicate Row(targets: seq<Option<string>>, done: Done, pending: nat, height: nat, visits: nat) {
    pending == Pending(targets, done) && height == 1 + Tallest(targets, done)
        && visits == Saturate(1 + Total(targets, done))
  }

  /** The stack holds, once each, exactly the profiles with nothing pending that
      have not been popped. */
  ghost predicate Stack(popped: set<nat>, pending: seq<nat>, ready: seq<nat>) {
    && (forall i, j | 0 <= i < j < |ready| :: ready[i] != ready[j])
    && (forall x | x in ready :: x < |pending| && pending[x] == 0 && x !in popped)
    && forall i: nat | i < |pending| && pending[i] == 0 && i !in popped :: i in ready
  }

  function AddTimes(start: nat, each: nat, times: nat): nat {
    if times == 0 then start else Saturate(AddTimes(start, each, times - 1) + each)
  }

  /** The counters after releasing the listed parents of `index`. */
  ghost predicate Released(t0: Tables, t: Tables, index: nat, releases: seq<nat>, n: nat)
    requires Rows(t0, n) && index < n
  {
    && Rows(t, n)
    && forall i: nat | i < n ::
         && t.pending[i] + Count(releases, i) == t0.pending[i]
         && t.heights[i] == (if Count(releases, i) > 0 then Max(t0.heights[i], t0.heights[index] + 1)
                             else t0.heights[i])
         && t.visits[i] == AddTimes(t0.visits[i], t0.visits[index], Count(releases, i))
  }

  function ReleaseOne(t: Tables, index: nat, parent: nat): Tables
    requires index < |t.pending| == |t.heights| == |t.visits| && parent < |t.pending| && t.pending[parent] > 0
  {
    Tables(t.pending[parent := t.pending[parent] - 1],
           t.heights[parent := Max(t.heights[parent], t.heights[index] + 1)],
           t.visits[parent := Saturate(t.visits[parent] + t.visits[index])])
  }

  lemma ReleasedStep(t0: Tables, t: Tables, index: nat, releases: seq<nat>, parent: nat, n: nat)
    requires Rows(t0, n) && index < n && Released(t0, t, index, releases, n)
    requires parent < n && index !in releases && t.pending[parent] > 0
    ensures Released(t0, ReleaseOne(t, index, parent), index, releases + [parent], n)
  {
    hide Count;
    forall i: nat { CountAppend(releases, parent, i); }
    assert Count(releases, index) == 0 by { CountMember(releases, index); }
    assert t.heights[index] == t0.heights[index] && t.visits[index] == t0.visits[index];
  }

  lemma NothingReleased(t: Tables, index: nat)
    requires Rows(t, |t.pending|) && index < |t.pending|
    ensures Released(t, t, index, [], |t.pending|)
  {
  }

  lemma StackStep(popped: set<nat>, pending: seq<nat>, ready: seq<nat>, parent: nat)
    requires Stack(popped, pending, ready) && parent < |pending| && parent !in popped && pending[parent] > 0
    ensures var p := pending[parent := pending[parent] - 1];
            Stack(popped, p, if p[parent] == 0 then ready + [parent] else ready)
  {
  }

  /** One popped profile releases its parents: the inner loop of the sweep. No
      counter underflows. */
  method Release(index: nat, releases: seq<nat>, ghost popped: set<nat>, t0: Tables, ready0: seq<nat>)
    returns (t: Tables, ready: seq<nat>)
    requires Rows(t0, |t0.pending|) && index < |t0.pending| && index in popped && Stack(popped, t0.pending, ready0)
    requires forall p | p in releases :: p < |t0.pending| && p !in popped
    requires forall i: nat | i < |t0.pending| :: Count(releases, i) <= t0.pending[i]
    ensures Released(t0, t, index, releases, |t0.pending|) && Stack(popped, t.pending, ready)
  {
    hide Count, Stack, AddTimes;
    t, ready := t0, ready0;
    NothingReleased(t0, index);
    assert releases[..0] == [];
    for k := 0 to |releases|
      invariant Released(t0, t, index, releases[..k], |t0.pending|) && Stack(popped, t.pending, ready)
    {
      var parent := releases[k];
      assert releases[..k + 1] == releases[..k] + [parent];
      assert parent in releases && forall p | p in releases[..k] :: p in releases;
      CountPrefix<nat>(releases, k + 1, parent);
      CountAppend<nat>(releases[..k], parent, parent);
      ReleasedStep(t0, t, index, releases[..k], parent, |t0.pending|);
      StackStep(popped, t.pending, ready, parent);
      t := ReleaseOne(t, index, parent);
      if t.pending[parent] == 0 {
        ready := ready + [parent];
      }
    }
    assert releases[..|releases|] == releases;
  }

  lemma {:induction false} AddTimesTotal(base: nat, each: nat, times: nat)
    ensures AddTimes(Saturate(base), Saturate(each), times) == Saturate(base + Times(times, each))
  {
    if times > 0 { AddTimesTotal(base, each, times - 1); }
  }

  // ----- The sweep -----

  lemma EdgesArePending(targets: seq<Option<string>>, done: Done, id: string)
    requires id !in done
    ensures Edges(targets, id) <= Pending(targets, done)
  {
    DischargePending(targets, done, id, Size(0, 0));
  }

  lemma BooksAfter(g: Graph, ids: seq<string>, done: Done, t0: Tables, t: Tables, index: nat, releases: seq<nat>)
    requires Lists(ids, g) && Books(g, ids, done, t0) && index < |ids| && ids[index] !in done
    requires forall i: nat :: Count(releases, i) == EdgesBetween(g, ids, i, index)
    requires Released(t0, t, index, releases, |ids|)
    ensures Books(g, ids, done[ids[index] := Size(t0.heights[index], 1 + Total(g[ids[index]], done))], t)
  {
    hide Row, Count, AddTimes, Edges, Total;
    var id := ids[index];
    assert Row(g[id], done, t0.pending[index], t0.heights[index], t0.visits[index]);
    forall i: nat | i < |ids|
      ensures Row(g[ids[i]], done[id := Size(t0.heights[index], 1 + Total(g[id], done))], t.pending[i], t.heights[i],
                  t.visits[i])
    {
      assert Row(g[ids[i]], done, t0.pending[i], t0.heights[i], t0.visits[i]);
      RowAfter(g[ids[i]], g[id], done, id, t0.pending[i], t0.heights[i], t0.visits[i], t0.heights[index],
               t0.visits[index], t0.pending[index]);
    }
  }

  lemma RowAfter(targets: seq<Option<string>>, own: seq<Option<string>>, done: Done, id: string,
                 pending: nat, height: nat, visits: nat, ownHeight: nat, ownVisits: nat, ownPending: nat)
    requires Row(targets, done, pending, height, visits) && Row(own, done, ownPending, ownHeight, ownVisits)
             && id !in done
    ensures var e := Edges(targets, id);
            pending >= e &&
            Row(targets, done[id := Size(ownHeight, 1 + Total(own, done))], pending - e,
                if e > 0 then Max(height, ownHeight + 1) else height, AddTimes(visits, ownVisits, e))
  {
    hide Edges, AddTimes, Pending, Tallest, Total, Times;
    var size := Size(ownHeight, 1 + Total(own, done));
    DischargePending(targets, done, id, size);
    DischargeTallest(targets, done, id, size);
    DischargeTotal(targets, done, id, size);
    AddTimesTotal(1 + Total(targets, done), size.visits, Edges(targets, id));
  }

  ghost predicate Settled(bounded: bool, popped: set<nat>, valid: seq<bool>, t: Tables)
    requires Rows(t, |valid|)
  {
    forall i | i in popped ::
      && i < |valid| && t.pending[i] == 0
      && (valid[i] || t.heights[i] > MAX_INCLUDE_DEPTH || (bounded && t.visits[i] > MAX_VISITS))
  }

  ghost predicate Marked(ids: seq<string>, done: Done, popped: set<nat>, valid: seq<bool>) {
    && |valid| == |ids|
    && forall i: nat | i < |ids| :: (valid[i] <==> ids[i] in done) && (valid[i] ==> i in popped)
  }

  lemma {:induction false} AddTimesGrows(start: nat, each: nat, times: nat)
    requires start <= USIZE_MAX
    ensures start <= AddTimes(start, each, times)
  {
    if times > 0 { AddTimesGrows(start, each, times - 1); }
  }

  lemma SettledAfter(bounded: bool, popped: set<nat>, valid: seq<bool>, t0: Tables, t: Tables, index: nat,
                     releases: seq<nat>)
    requires Rows(t0, |valid|) && index < |valid| && Settled(bounded, popped, valid, t0)
    requires Released(t0, t, index, releases, |valid|)
    ensures Settled(bounded, popped, valid, t)
  {
    hide Count;
    forall i | i in popped { AddTimesGrows(t0.visits[i], t0.visits[index], Count(releases, i)); }
  }

  /** Recording the popped profile keeps the record exact. */
  lemma ExactAfter(g: Graph, bounded: bool, done: Done, id: string, height: nat, visits: nat)
    requires Exact(g, bounded, done) && id in g && id !in done && Row(g[id], done, 0, height, visits)
    requires height <= MAX_INCLUDE_DEPTH && (bounded ==> visits <= MAX_VISITS)
    ensures Exact(g, bounded, done[id := Size(height, 1 + Total(g[id], done))])
  {
    hide Resolves, Expansion;
    forall h: nat { SizeFromTargets(g, bounded, done, id, h); }
  }

  /** With the stack empty, everything that resolves has been recorded. */
  lemma {:induction false} AllRecorded(g: Graph, ids: seq<string>, bounded: bool, done: Done, popped: set<nat>,
                                       valid: seq<bool>, t: Tables,
                                       id: string, h: nat)
    requires Lists(ids, g) && Books(g, ids, done, t) && Exact(g, bounded, done) && Stack(popped, t.pending, [])
    requires Marked(ids, done, popped, valid) && Settled(bounded, popped, valid, t)
    requires Resolves(g, bounded, id, h) && h <= MAX_INCLUDE_DEPTH
    ensures id in done
    decreases h
  {
    forall x | x in g[id] ensures x.Some? && x.value in done {
      AllRecorded(g, ids, bounded, done, popped, valid, t, x.value, h - 1);
    }
    NonePending(g[id], done);
    var i: nat :| i < |ids| && ids[i] == id;
    assert Row(g[ids[i]], done, t.pending[i], t.heights[i], t.visits[i]);
    SizeFromTargets(g, bounded, done, id, h);
  }

  lemma RecordedIsKept(g: Graph, bounded: bool, done: Done, id: string)
    requires Exact(g, bounded, done) && id in done
    ensures Kept(g, bounded, id)
  {
  }

  ghost function Below(n: nat): set<nat> { if n == 0 then {} else Below(n - 1) + {n - 1} }

  lemma {:induction false} BelowMember(n: nat, i: nat)
    ensures i in Below(n) <==> i < n
  {
    if n > 0 { BelowMember(n - 1, i); }
  }

  /** The profiles, in listing order, outside the specification. */
  ghost function Unkept(g: Graph, bounded: bool, ids: seq<string>): seq<string> {
    if ids == [] then []
    else Unkept(g, bounded, Init(ids)) + if Kept(g, bounded, ids[|ids| - 1]) then [] else [ids[|ids| - 1]]
  }

  method Collect(ids: seq<string>, valid: seq<bool>, ghost g: Graph, ghost bounded: bool) returns (invalid: seq<string>)
    requires |valid| == |ids| && forall i: nat | i < |ids| :: valid[i] <==> Kept(g, bounded, ids[i])
    ensures invalid == Unkept(g, bounded, ids)
  {
    hide Kept;
    invalid := [];
    for i := 0 to |ids|
      invariant invalid == Unkept(g, bounded, ids[..i])
    {
      assert Init(ids[..i + 1]) == ids[..i];
      if !valid[i] { invalid := invalid + [ids[i]]; }
    }
    assert ids[..|ids|] == ids;
  }

  method Ready(pending: seq<nat>) returns (ready: seq<nat>)
    ensures Stack({}, pending, ready)
  {
    ready := [];
    for i := 0 to |pending|
      invariant forall a, b | 0 <= a < b < |ready| :: ready[a] != ready[b]
      invariant forall x: nat :: x in ready <==> x < i && pending[x] == 0
    {
      if pending[i] == 0 { ready := ready + [i]; }
    }
  }

  lemma StartingBooks(g: Graph, ids: seq<string>, t: Tables)
    requires Lists(ids, g) && Rows(t, |ids|)
    requires forall i: nat | i < |ids| :: t.pending[i] == |g[ids[i]]| && t.heights[i] == 1 && t.visits[i] == 1
    ensures Books(g, ids, map[], t)
  {
    forall i: nat | i < |ids| { NothingDone(g[ids[i]]); }
  }

  lemma {:induction false} NothingDone(targets: seq<Option<string>>)
    ensures Pending(targets, map[]) == |targets| && Tallest(targets, map[]) == 0 && Total(targets, map[]) == 0
    decreases |targets|
  {
    if targets != [] { NothingDone(Init(targets)); }
  }

  lemma PopStack(popped: set<nat>, pending: seq<nat>, ready: seq<nat>)
    requires Stack(popped, pending, ready) && ready != []
    ensures var index := ready[|ready| - 1];
            && index < |pending| && pending[index] == 0 && index !in popped
            && Stack(popped + {index}, pending, ready[..|ready| - 1])
  {
    var rest, index := ready[..|ready| - 1], ready[|ready| - 1];
    assert ready == rest + [index] && index in ready;
    forall x | x in rest ensures x in ready && x != index { }
    forall i: nat | i < |pending| && pending[i] == 0 && i !in popped + {index} ensures i in rest {
      assert i in ready;
    }
  }

  /** The parents of a freshly popped profile still wait for it. */
  lemma ReleasesFit(g: Graph, ids: seq<string>, done: Done, t: Tables, popped: set<nat>, valid: seq<bool>, index: nat,
                    parents: seq<seq<nat>>, bounded: bool)
    requires Lists(ids, g) && Books(g, ids, done, t) && ReverseEdges(g, ids, parents) && |valid| == |ids|
    requires index < |ids| && ids[index] !in done && t.pending[index] == 0 && Settled(bounded, popped, valid, t)
    ensures forall i: nat | i < |ids| :: Count(parents[index], i) <= t.pending[i]
    ensures forall p | p in parents[index] :: p < |ids| && p !in popped + {index}
    ensures forall i: nat :: Count(parents[index], i) == EdgesBetween(g, ids, i, index)
  {
    hide Count, Edges;
    forall i: nat | i < |ids| ensures Count(parents[index], i) <= t.pending[i] {
      assert Row(g[ids[i]], done, t.pending[i], t.heights[i], t.visits[i]);
      EdgesArePending(g[ids[i]], done, ids[index]);
    }
    forall p | p in parents[index] ensures p < |ids| && p !in popped + {index} { CountMember<nat>(parents[index], p); }
  }

  /** What every turn of the loop keeps. */
  ghost predicate Sweeping(g: Graph, ids: seq<string>, bounded: bool, done: Done, popped: set<nat>, valid: seq<bool>,
                           t: Tables, ready: seq<nat>) {
    && Lists(ids, g) && popped <= Below(|ids|)
    && Marked(ids, done, popped, valid) && Books(g, ids, done, t) && Exact(g, bounded, done)
    && Stack(popped, t.pending, ready) && Settled(bounded, popped, valid, t)
  }

  lemma Popping(g: Graph, ids: seq<string>, bounded: bool, done: Done, popped: set<nat>, valid: seq<bool>, t: Tables,
                ready: seq<nat>)
    requires Sweeping(g, ids, bounded, done, popped, valid, t, ready) && ready != []
    ensures var index := ready[|ready| - 1];
            && index < |ids| && Rows(t, |ids|) && |valid| == |ids| && ids[index] !in done
            && index in Below(|ids|) && index !in popped && t.pending[index] == 0
            && Stack(popped + {index}, t.pending, ready[..|ready| - 1])
            && (t.heights[index] > MAX_INCLUDE_DEPTH || (bounded && t.visits[index] > MAX_VISITS) ==>
                  Sweeping(g, ids, bounded, done, popped + {index}, valid, t, ready[..|ready| - 1]))
  {
    PopStack(popped, t.pending, ready);
    BelowMember(|ids|, ready[|ready| - 1]);
  }

  lemma Keeping(g: Graph, ids: seq<string>, bounded: bool, done: Done, popped: set<nat>, valid: seq<bool>, t0: Tables,
                ready0: seq<nat>,
                index: nat, releases: seq<nat>, t: Tables, ready: seq<nat>)
    requires Sweeping(g, ids, bounded, done, popped, valid, t0, ready0)
    requires index < |ids| && index !in popped && index in Below(|ids|) && t0.pending[index] == 0 && ids[index] !in done
    requires t0.heights[index] <= MAX_INCLUDE_DEPTH && (bounded ==> t0.visits[index] <= MAX_VISITS)
    requires forall i: nat :: Count(releases, i) == EdgesBetween(g, ids, i, index)
    requires Released(t0, t, index, releases, |ids|) && Stack(popped + {index}, t.pending, ready)
    ensures Sweeping(g, ids, bounded, done[ids[index] := Size(t0.heights[index], 1 + Total(g[ids[index]], done))],
                     popped + {index}, valid[index := true], t, ready)
  {
    hide Count, Edges, EdgesBetween, Total, Stack, Exact, Books;
    OwnRow(g, ids, done, t0, index);
    BooksAfter(g, ids, done, t0, t, index, releases);
    SettledAfter(bounded, popped + {index}, valid[index := true], t0, t, index, releases);
    ExactAfter(g, bounded, done, ids[index], t0.heights[index], t0.visits[index]);
  }

  lemma OwnRow(g: Graph, ids: seq<string>, done: Done, t: Tables, index: nat)
    requires Lists(ids, g) && Books(g, ids, done, t) && index < |ids|
    ensures Row(g[ids[index]], done, t.pending[index], t.heights[index], t.visits[index]) && Rows(t, |ids|)
  {
  }

  /** `invalid_reference_profiles`: rejects exactly the profiles outside the
      specification, whatever the order in which they are listed. Every counter
      decrement is of a positive counter and every profile is popped once. The
      counters it ends with are the height and the expansion of each kept profile. */
  method InvalidProfiles(ids: seq<string>, g: Graph, bounded: bool)
    returns (invalid: seq<string>, heights: seq<nat>, visits: seq<nat>)
    requires Lists(ids, g)
    ensures invalid == Unkept(g, bounded, ids)
    ensures |heights| == |visits| == |ids|
    ensures forall i: nat | i < |ids| && Kept(g, bounded, ids[i]) ::
              Sized(g, bounded, ids[i], heights[i], visits[i])
  {
    hide Count, EdgesBetween, Total, Kept, Unkept, Sweeping, Stack, Books, ReverseEdges, Released, Below;
    var pending, parents := Reverse(ids, g);
    var t := Tables(pending, seq(|ids|, _ => 1), seq(|ids|, _ => 1));
    var ready := Ready(pending);
    var valid := seq(|ids|, _ => false);
    ghost var popped: set<nat>, done: Done := {}, map[];
    Starting(g, ids, bounded, t, ready, valid);
    while ready != []
      invariant Sweeping(g, ids, bounded, done, popped, valid, t, ready)
      decreases Below(|ids|) - popped
    {
      Popping(g, ids, bounded, done, popped, valid, t, ready);
      var index := ready[|ready| - 1];
      ghost var before, stack := popped, ready;
      ready := ready[..|ready| - 1];
      popped := popped + {index};
      assert Below(|ids|) - popped < Below(|ids|) - before;
      if t.heights[index] > MAX_INCLUDE_DEPTH || (bounded && t.visits[index] > MAX_VISITS) { continue; }
      ReleasesWait(g, ids, done, t, before, valid, stack, index, parents, bounded);
      ghost var t0 := t;
      t, ready := Release(index, parents[index], popped, t, ready);
      Keeping(g, ids, bounded, done, before, valid, t0, stack, index, parents[index], t, ready);
      done := done[ids[index] := Size(t0.heights[index], 1 + Total(g[ids[index]], done))];
      valid := valid[index := true];
    }
    Finished(g, ids, bounded, done, popped, valid, t);
    invalid := Collect(ids, valid, g, bounded);
    heights, visits := t.heights, t.visits;
  }

  lemma Starting(g: Graph, ids: seq<string>, bounded: bool, t: Tables, ready: seq<nat>, valid: seq<bool>)
    requires Lists(ids, g) && Rows(t, |ids|) && |valid| == |ids| && Stack({}, t.pending, ready)
    requires forall i: nat | i < |ids| ::
             t.pending[i] == |g[ids[i]]| && t.heights[i] == 1 && t.visits[i] == 1 && !valid[i]
    ensures Sweeping(g, ids, bounded, map[], {}, valid, t, ready)
  {
    StartingBooks(g, ids, t);
  }

  lemma ReleasesWait(g: Graph, ids: seq<string>, done: Done, t: Tables, popped: set<nat>, valid: seq<bool>,
                     ready: seq<nat>, index: nat,
                     parents: seq<seq<nat>>, bounded: bool)
    requires Sweeping(g, ids, bounded, done, popped, valid, t, ready) && ReverseEdges(g, ids, parents)
    requires index < |ids| && ids[index] !in done && t.pending[index] == 0
    ensures |parents| == |ids| && |t.pending| == |ids|
    ensures forall i: nat | i < |ids| :: Count(parents[index], i) <= t.pending[i]
    ensures forall p | p in parents[index] :: p < |ids| && p !in popped + {index}
    ensures forall i: nat :: Count(parents[index], i) == EdgesBetween(g, ids, i, index)
  {
    ReleasesFit(g, ids, done, t, popped, valid, index, parents, bounded);
  }

  /** A profile's height is the least nesting it resolves within; its visits are its
      expansion, saturated like the counter. */
  ghost predicate Sized(g: Graph, bounded: bool, id: string, height: nat, visits: nat) {
    && (forall h: nat :: Resolves(g, bounded, id, h) <==> height <= h)
    && visits == Saturate(Expansion(g, id, MAX_INCLUDE_DEPTH))
  }

  lemma Finished(g: Graph, ids: seq<string>, bounded: bool, done: Done, popped: set<nat>, valid: seq<bool>, t: Tables)
    requires Sweeping(g, ids, bounded, done, popped, valid, t, [])
    ensures |valid| == |t.heights| == |t.visits| == |ids|
    ensures forall i: nat | i < |ids| :: valid[i] <==> Kept(g, bounded, ids[i])
    ensures forall i: nat | i < |ids| && Kept(g, bounded, ids[i]) ::
            Sized(g, bounded, ids[i], t.heights[i], t.visits[i])
  {
    hide Sized, Kept;
    forall i: nat | i < |ids| ensures valid[i] <==> Kept(g, bounded, ids[i]) {
      FinishedRow(g, ids, bounded, done, popped, valid, t, i);
    }
    forall i: nat | i < |ids| && Kept(g, bounded, ids[i]) ensures Sized(g, bounded, ids[i], t.heights[i], t.visits[i]) {
      OwnRow(g, ids, done, t, i);
      KeptIsSized(g, bounded, done, ids[i], t.heights[i], t.visits[i]);
    }
  }

  lemma FinishedRow(g: Graph, ids: seq<string>, bounded: bool, done: Done, popped: set<nat>, valid: seq<bool>,
                    t: Tables,
                    i: nat)
    requires Sweeping(g, ids, bounded, done, popped, valid, t, []) && i < |ids|
    ensures valid[i] <==> Kept(g, bounded, ids[i])
    ensures valid[i] ==> t.pending[i] == 0
  {
    if Kept(g, bounded, ids[i]) { AllRecorded(g, ids, bounded, done, popped, valid, t, ids[i], MAX_INCLUDE_DEPTH); }
    if valid[i] { RecordedIsKept(g, bounded, done, ids[i]); }
  }

  lemma KeptIsSized(g: Graph, bounded: bool, done: Done, id: string, height: nat, visits: nat)
    requires Exact(g, bounded, done) && id in g && Row(g[id], done, 0, height, visits) && Kept(g, bounded, id)
    ensures Sized(g, bounded, id, height, visits)
  {
    hide Resolves, Expansion;
    forall h: nat ensures Resolves(g, bounded, id, h) <==> height <= h {
      SizeFromTargets(g, bounded, done, id, h);
      SizeFromTargets(g, bounded, done, id, MAX_INCLUDE_DEPTH);
    }
    SizeFromTargets(g, bounded, done, id, MAX_INCLUDE_DEPTH);
  }

  // ----- What the specification means -----

  /** The verdict on a profile does not depend on the listing order. */
  lemma {:induction false} RejectedIffUnkept(g: Graph, bounded: bool, ids: seq<string>, id: string)
    ensures id in Unkept(g, bounded, ids) <==> id in ids && !Kept(g, bounded, id)
  {
    hide Kept;
    if ids != [] { RejectedIffUnkept(g, bounded, Init(ids), id); }
  }

  ghost predicate Chain(g: Graph, p: seq<string>) {
    p != [] && forall i: nat | i < |p| - 1 :: p[i] in g && Some(p[i + 1]) in g[p[i]]
  }

  ghost predicate Complete(g: Graph, id: string) {
    id in g && forall t | t in g[id] :: t.Some?
  }

  /** A profile resolves within a height exactly when no chain of includes from it
      is longer, and every chain stays among complete profiles; in particular a
      cycle or a missing target anywhere below excludes it. */
  lemma {:induction false} ResolvesIffChains(g: Graph, id: string, h: nat)
    ensures Resolves(g, false, id, h) <==> forall p | Chain(g, p) && p[0] == id :: |p| <= h && Complete(g, p[|p| - 1])
    decreases h
  {
    if Resolves(g, false, id, h) {
      forall p | Chain(g, p) && p[0] == id ensures |p| <= h && Complete(g, p[|p| - 1]) { ChainWithin(g, h, p); }
    } else if forall p | Chain(g, p) && p[0] == id :: |p| <= h && Complete(g, p[|p| - 1]) {
      assert Chain(g, [id]);
      assert h > 0 && Complete(g, id);
      forall t | t in g[id] ensures t.Some? && Resolves(g, false, t.value, h - 1) {
        forall q | Chain(g, q) && q[0] == t.value ensures |q| <= h - 1 && Complete(g, q[|q| - 1]) {
          var p := [id] + q;
          assert Chain(g, p) && p[|p| - 1] == q[|q| - 1];
        }
        ResolvesIffChains(g, t.value, h - 1);
      }
      assert false;
    }
  }

  lemma {:induction false} ChainWithin(g: Graph, h: nat, p: seq<string>)
    requires Chain(g, p) && Resolves(g, false, p[0], h)
    ensures |p| <= h && Complete(g, p[|p| - 1])
    decreases h
  {
    if |p| > 1 {
      assert Some(p[1]) in g[p[0]];
      assert Chain(g, p[1..]);
      ChainWithin(g, h - 1, p[1..]);
    }
  }
}
