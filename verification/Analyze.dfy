/** AnalyzeMolecule: the blocking maps, readiness, and parallel groups of a
    loaded molecule. */
module Analyze {
  import opened Graphs
  import opened Molecules
  import opened DepthRuns
  import opened Depths
  import opened Parallel

  // ---- the blocking maps ----

  /** The parent-child children of every node, by parent. */
  method ParentChildren(m: Molecule) returns (pc: map<Id, seq<Id>>)
    ensures forall p :: ChildList(pc, p) == ChildrenOf(m, p)
  {
    pc := map[];
    var i := 0;
    while i < |m.deps|
      invariant 0 <= i <= |m.deps|
      invariant forall p :: ChildList(pc, p) == ChildrenOf(m.(deps := m.deps[..i]), p)
    {
      var d := m.deps[i];
      ghost var before := pc;
      if d.kind == DepParentChild {
        var sofar := if d.dependsOn in pc then pc[d.dependsOn] else [];
        pc := pc[d.dependsOn := sofar + [d.issue]];
      }
      forall p ensures ChildList(pc, p) == ChildrenOf(m.(deps := m.deps[..i + 1]), p) {
        NextChild(m, i, p);
        assert ChildList(pc, p) == ChildList(before, p) + if d.kind == DepParentChild && d.dependsOn == p then {d.issue} else {};
      }
      i := i + 1;
    }
    assert m.(deps := m.deps[..i]) == m;
  }

  lemma NextChild(m: Molecule, i: nat, p: Id)
    requires i < |m.deps|
    ensures var d := m.deps[i];
            ChildrenOf(m.(deps := m.deps[..i + 1]), p) ==
            ChildrenOf(m.(deps := m.deps[..i]), p) + if d.kind == DepParentChild && d.dependsOn == p then {d.issue} else {}
  {
    assert m.deps[..i + 1] == m.deps[..i] + [m.deps[i]];
  }

  function ChildList(pc: map<Id, seq<Id>>, p: Id): set<Id> {
    if p in pc then set c | c in pc[p] else {}
  }

  /** The nodes one edge makes its issue wait on, by scanning the children a
      gate waits for. */
  method EdgeBlockers(m: Molecule, pc: map<Id, seq<Id>>, d: Dependency) returns (bs: set<Id>)
    requires forall p :: ChildList(pc, p) == ChildrenOf(m, p)
    ensures bs == BlockersOf(m, d)
  {
    match d.kind
    case DepBlocks => bs := {d.dependsOn};
    case DepConditionalBlocks => bs := {d.dependsOn};
    case DepWaitsFor =>
      var children := if d.dependsOn in pc then pc[d.dependsOn] else [];
      assert ChildrenOf(m, d.dependsOn) == set c | c in children;
      bs := {};
      if d.gate == AnyChildren {
        var resolved := SomeClosed(m, children);
        if resolved {
          return;
        }
      }
      var i := 0;
      while i < |children|
        invariant 0 <= i <= |children| && bs == set c | c in children[..i] && m.Live(c)
      {
        var c := children[i];
        assert children[..i + 1] == children[..i] + [c];
        if c in m.status && m.status[c] != Closed {
          bs := bs + {c};
        }
        i := i + 1;
      }
      assert children[..i] == children;
    case _ => bs := {};
  }

  method SomeClosed(m: Molecule, ids: seq<Id>) returns (r: bool)
    ensures r == AnyClosed(m, set c | c in ids)
  {
    var i := 0;
    while i < |ids|
      invariant 0 <= i <= |ids|
      invariant forall j :: 0 <= j < i ==> !(ids[j] in m.status && m.status[ids[j]] == Closed)
    {
      if ids[i] in m.status && m.status[ids[i]] == Closed {
        assert ids[i] in set c | c in ids;
        return true;
      }
      i := i + 1;
    }
    return false;
  }

  /** What the edges of a list make x wait on, and make wait on b. */
  ghost function BlockedByIn(m: Molecule, ds: seq<Dependency>, x: Id): set<Id> {
    set d, b | d in ds && d.issue == x && b in BlockersOf(m, d) :: b
  }

  ghost function BlocksIn(m: Molecule, ds: seq<Dependency>, b: Id): set<Id> {
    set d | d in ds && b in BlockersOf(m, d) :: d.issue
  }

  ghost predicate BlockedUpTo(m: Molecule, k: nat, blockedBy: Adjacency)
    requires k <= |m.deps|
  {
    blockedBy.Keys == m.status.Keys && forall x :: x in blockedBy ==> blockedBy[x] == BlockedByIn(m, m.deps[..k], x)
  }

  ghost predicate BlocksUpTo(m: Molecule, k: nat, blocks: Adjacency)
    requires k <= |m.deps|
  {
    blocks.Keys == m.status.Keys && forall b :: b in blocks ==> blocks[b] == BlocksIn(m, m.deps[..k], b)
  }

  function AddBlockers(blockedBy: Adjacency, x: Id, bs: set<Id>): Adjacency {
    map y | y in blockedBy :: if y == x then blockedBy[y] + bs else blockedBy[y]
  }

  function AddBlocked(blocks: Adjacency, bs: set<Id>, x: Id): Adjacency {
    map b | b in blocks :: if b in bs then blocks[b] + {x} else blocks[b]
  }

  lemma NextBlocked(m: Molecule, k: nat, blockedBy: Adjacency)
    requires k < |m.deps| && BlockedUpTo(m, k, blockedBy)
    ensures BlockedUpTo(m, k + 1, AddBlockers(blockedBy, m.deps[k].issue, BlockersOf(m, m.deps[k])))
  {
    hide BlockersOf, BlockedByIn;
    var after := AddBlockers(blockedBy, m.deps[k].issue, BlockersOf(m, m.deps[k]));
    assert m.deps[..k + 1] == m.deps[..k] + [m.deps[k]];
    forall x | x in after ensures after[x] == BlockedByIn(m, m.deps[..k + 1], x) {
      BlockedBySnoc(m, m.deps[..k], m.deps[k], x);
    }
  }

  lemma NextBlocks(m: Molecule, k: nat, blocks: Adjacency)
    requires k < |m.deps| && BlocksUpTo(m, k, blocks)
    ensures BlocksUpTo(m, k + 1, AddBlocked(blocks, BlockersOf(m, m.deps[k]), m.deps[k].issue))
  {
    hide BlockersOf, BlocksIn;
    var after := AddBlocked(blocks, BlockersOf(m, m.deps[k]), m.deps[k].issue);
    assert m.deps[..k + 1] == m.deps[..k] + [m.deps[k]];
    forall b | b in after ensures after[b] == BlocksIn(m, m.deps[..k + 1], b) {
      BlocksSnoc(m, m.deps[..k], m.deps[k], b);
    }
  }

  lemma BlockedBySnoc(m: Molecule, ds: seq<Dependency>, d: Dependency, x: Id)
    ensures BlockedByIn(m, ds + [d], x) == BlockedByIn(m, ds, x) + if d.issue == x then BlockersOf(m, d) else {}
  {
    hide BlockersOf;
  }

  lemma BlocksSnoc(m: Molecule, ds: seq<Dependency>, d: Dependency, b: Id)
    ensures BlocksIn(m, ds + [d], b) == BlocksIn(m, ds, b) + if b in BlockersOf(m, d) then {d.issue} else {}
  {
    hide BlockersOf;
  }

  method BlockingMaps(m: Molecule) returns (blockedBy: Adjacency, blocks: Adjacency)
    ensures blockedBy.Keys == m.status.Keys && blocks.Keys == m.status.Keys
    ensures forall x :: x in blockedBy ==> blockedBy[x] == BlockedBy(m, x)
    ensures forall b :: b in blocks ==> blocks[b] == Blocks(m, b)
  {
    hide BlockersOf;
    blockedBy := map x | x in m.status :: {};
    blocks := map x | x in m.status :: {};
    var pc := ParentChildren(m);
    var k := 0;
    while k < |m.deps|
      invariant 0 <= k <= |m.deps| && BlockedUpTo(m, k, blockedBy) && BlocksUpTo(m, k, blocks)
    {
      hide BlockedUpTo, BlocksUpTo;
      var d := m.deps[k];
      var bs := EdgeBlockers(m, pc, d);
      NextBlocked(m, k, blockedBy);
      NextBlocks(m, k, blocks);
      blockedBy := AddBlockers(blockedBy, d.issue, bs);
      blocks := AddBlocked(blocks, bs, d.issue);
      k := k + 1;
    }
    assert m.deps[..k] == m.deps;
  }

  // ---- readiness ----

  /** Every node's live blockers and whether it can start now, and how many
      can. */
  method ReadySteps(m: Molecule, blockedBy: Adjacency) returns (waitsOn: map<Id, set<Id>>, ready: set<Id>, count: nat)
    requires m.WellFormed() && blockedBy.Keys == m.status.Keys
    requires forall x :: x in blockedBy ==> blockedBy[x] == BlockedBy(m, x)
    ensures waitsOn.Keys == m.status.Keys && forall x :: x in waitsOn ==> waitsOn[x] == OpenBlockers(m, x)
    ensures forall x :: x in ready <==> Ready(m, x)
    ensures count == |ready|
  {
    hide BlockedBy, OpenBlockers, Ready, Distinct;
    waitsOn, ready, count := map[], {}, 0;
    var i := 0;
    while i < |m.ids|
      invariant 0 <= i <= |m.ids| && count == |ready|
      invariant forall x :: x in waitsOn <==> x in m.ids[..i]
      invariant forall x :: x in waitsOn ==> waitsOn[x] == OpenBlockers(m, x)
      invariant forall x :: x in ready <==> x in m.ids[..i] && Ready(m, x)
    {
      var x := m.ids[i];
      PrefixNext(m.ids, i);
      var open, start := NodeReady(m, blockedBy, x);
      waitsOn := waitsOn[x := open];
      if start {
        ready := ready + {x};
        count := count + 1;
      }
      i := i + 1;
    }
    assert m.ids[..i] == m.ids;
    OnlyNodesReady(m);
  }

  /** One node's live blockers, and whether it can start now. */
  method NodeReady(m: Molecule, blockedBy: Adjacency, x: Id) returns (open: set<Id>, start: bool)
    requires x in m.status && x in blockedBy && blockedBy[x] == BlockedBy(m, x)
    ensures open == OpenBlockers(m, x) && start == Ready(m, x)
  {
    open := set b | b in blockedBy[x] && b in m.status && m.status[b] != Closed;
    start := (m.status[x] == Open || m.status[x] == InProgress) && open == {};
  }

  lemma PrefixNext(ids: seq<Id>, i: nat)
    requires Distinct(ids) && i < |ids|
    ensures ids[i] !in ids[..i]
    ensures forall x :: x in ids[..i + 1] <==> x in ids[..i] || x == ids[i]
  {
    assert ids[..i + 1] == ids[..i] + [ids[i]];
  }

  lemma OnlyNodesReady(m: Molecule)
    requires m.WellFormed()
    ensures forall x :: Ready(m, x) ==> x in m.ids
  {
  }

  // ---- one group of steps per depth ----

  /** The nodes at one depth, in molecule order. */
  function Bucket(ids: seq<Id>, depths: map<Id, nat>, d: nat): (b: seq<Id>)
    ensures forall x :: x in b <==> x in ids && x in depths && depths[x] == d
  {
    if ids == [] then []
    else if ids[0] in depths && depths[ids[0]] == d then [ids[0]] + Bucket(ids[1..], depths, d)
    else Bucket(ids[1..], depths, d)
  }

  lemma {:induction false} BucketDistinct(ids: seq<Id>, depths: map<Id, nat>, d: nat)
    requires Distinct(ids)
    ensures Distinct(Bucket(ids, depths, d))
  {
    if ids != [] {
      BucketDistinct(ids[1..], depths, d);
      assert forall y :: y in ids[1..] ==> y != ids[0];
    }
  }

  lemma {:induction false} BucketSnoc(ids: seq<Id>, x: Id, depths: map<Id, nat>, d: nat)
    ensures Bucket(ids + [x], depths, d) ==
            if x in depths && depths[x] == d then Bucket(ids, depths, d) + [x] else Bucket(ids, depths, d)
  {
    if ids == [] {
      assert ids + [x] == [x];
    } else {
      BucketSnoc(ids[1..], x, depths, d);
      assert (ids + [x])[1..] == ids[1..] + [x];
    }
  }

  method DepthGroups(m: Molecule, depths: map<Id, nat>) returns (groups: map<nat, seq<Id>>)
    requires m.WellFormed() && depths.Keys == m.status.Keys
    ensures forall d: nat :: BucketIn(groups, d) == Bucket(m.ids, depths, d)
  {
    groups := map[];
    var i := 0;
    while i < |m.ids|
      invariant 0 <= i <= |m.ids|
      invariant forall d: nat :: BucketIn(groups, d) == Bucket(m.ids[..i], depths, d)
    {
      var x := m.ids[i];
      var d0 := depths[x];
      assert m.ids[..i + 1] == m.ids[..i] + [x];
      ghost var before := groups;
      groups := groups[d0 := BucketIn(groups, d0) + [x]];
      forall d: nat ensures BucketIn(groups, d) == Bucket(m.ids[..i + 1], depths, d) {
        BucketSnoc(m.ids[..i], x, depths, d);
        assert BucketIn(before, d) == Bucket(m.ids[..i], depths, d);
      }
      i := i + 1;
    }
    assert m.ids[..i] == m.ids;
  }

  function BucketIn(groups: map<nat, seq<Id>>, d: nat): seq<Id> {
    if d in groups then groups[d] else []
  }

  /** The parallel component of x: the nodes of its own depth connected to it
      through pairs of which neither blocks the other. */
  ghost function ParallelWith(m: Molecule, depths: map<Id, nat>, blocks: Adjacency, blockedBy: Adjacency, x: Id): set<Id>
    requires x in depths
  {
    Component(Bucket(m.ids, depths, depths[x]), blocks, blockedBy, x)
  }

  /** The nodes below a depth are grouped, and no other node is. */
  ghost predicate GroupedBelow(m: Molecule, depths: map<Id, nat>, blocks: Adjacency, blockedBy: Adjacency,
                               groups: map<nat, seq<Id>>, groupOf: map<Id, nat>, canParallel: map<Id, set<Id>>, depth: nat)
  {
    && (forall x :: x in depths && depths[x] < depth ==>
                      GroupedIn(groups, groupOf, canParallel, x, ParallelWith(m, depths, blocks, blockedBy, x), 0))
    && (forall x :: !(x in depths && depths[x] < depth) ==> x !in groupOf && x !in canParallel)
    && (forall g :: g in groups ==> SomeStep(m.ids, groupOf, g))
  }

  lemma NothingGrouped(m: Molecule, depths: map<Id, nat>, blocks: Adjacency, blockedBy: Adjacency)
    ensures GroupedBelow(m, depths, blocks, blockedBy, map[], map[], map[], 0)
  {
  }

  /** What grouping the steps of one depth leaves behind, given what was there
      before. */
  ghost predicate GroupedDepth(steps: seq<Id>, blocks: Adjacency, blockedBy: Adjacency, low: nat,
                               g0: map<nat, seq<Id>>, o0: map<Id, nat>, c0: map<Id, set<Id>>,
                               g1: map<nat, seq<Id>>, o1: map<Id, nat>, c1: map<Id, set<Id>>)
  {
    && (forall g :: g in g0 ==> g in g1 && g1[g] == g0[g])
    && (forall x :: x in steps ==> GroupedIn(g1, o1, c1, x, Component(steps, blocks, blockedBy, x), low))
    && (forall x :: x !in steps ==> SameAt(o0, o1, x) && SameAt(c0, c1, x))
    && (forall g :: g in g1 && g !in g0 ==> SomeStep(steps, o1, g))
  }

  lemma KeptGroup(g0: map<nat, seq<Id>>, o0: map<Id, nat>, c0: map<Id, set<Id>>,
                  g1: map<nat, seq<Id>>, o1: map<Id, nat>, c1: map<Id, set<Id>>, x: Id, c: set<Id>)
    requires forall g :: g in g0 ==> g in g1 && g1[g] == g0[g]
    requires SameAt(o0, o1, x) && SameAt(c0, c1, x) && GroupedIn(g0, o0, c0, x, c, 0)
    ensures GroupedIn(g1, o1, c1, x, c, 0)
  {
  }

  lemma LowerGroup(g: map<nat, seq<Id>>, o: map<Id, nat>, can: map<Id, set<Id>>, x: Id, c: set<Id>, low: nat)
    requires GroupedIn(g, o, can, x, c, low)
    ensures GroupedIn(g, o, can, x, c, 0)
  {
  }

  /** Grouping one depth keeps the groups of the depths below. */
  lemma NextDepth(m: Molecule, depths: map<Id, nat>, blocks: Adjacency, blockedBy: Adjacency, low: nat,
                  g0: map<nat, seq<Id>>, o0: map<Id, nat>, c0: map<Id, set<Id>>,
                  g1: map<nat, seq<Id>>, o1: map<Id, nat>, c1: map<Id, set<Id>>, depth: nat)
    requires depths.Keys == m.status.Keys && m.WellFormed()
    requires GroupedBelow(m, depths, blocks, blockedBy, g0, o0, c0, depth)
    requires GroupedDepth(Bucket(m.ids, depths, depth), blocks, blockedBy, low, g0, o0, c0, g1, o1, c1)
    ensures GroupedBelow(m, depths, blocks, blockedBy, g1, o1, c1, depth + 1)
  {
    hide Component, GroupedIn, GroupedDepth, GroupedBelow;
    forall x | x in depths && depths[x] < depth + 1
      ensures GroupedIn(g1, o1, c1, x, ParallelWith(m, depths, blocks, blockedBy, x), 0)
    {
      NextDepthAt(m, depths, blocks, blockedBy, low, g0, o0, c0, g1, o1, c1, depth, x);
    }
    forall x | !(x in depths && depths[x] < depth + 1) ensures x !in o1 && x !in c1 {
      NextDepthOff(m, depths, blocks, blockedBy, low, g0, o0, c0, g1, o1, c1, depth, x);
    }
    forall g | g in g1 ensures SomeStep(m.ids, o1, g) {
      NextDepthGroup(m, depths, blocks, blockedBy, low, g0, o0, c0, g1, o1, c1, depth, g);
    }
    AllBelow(m, depths, blocks, blockedBy, g1, o1, c1, depth + 1);
  }

  /** Every group is some node's, the earlier ones still. */
  lemma NextDepthGroup(m: Molecule, depths: map<Id, nat>, blocks: Adjacency, blockedBy: Adjacency, low: nat,
                       g0: map<nat, seq<Id>>, o0: map<Id, nat>, c0: map<Id, set<Id>>,
                       g1: map<nat, seq<Id>>, o1: map<Id, nat>, c1: map<Id, set<Id>>, depth: nat, g: nat)
    requires GroupedBelow(m, depths, blocks, blockedBy, g0, o0, c0, depth) && g in g1
    requires GroupedDepth(Bucket(m.ids, depths, depth), blocks, blockedBy, low, g0, o0, c0, g1, o1, c1)
    ensures SomeStep(m.ids, o1, g)
  {
    hide Component, GroupedIn;
    var steps := Bucket(m.ids, depths, depth);
    if g in g0 {
      assert SomeStep(m.ids, o0, g);
      var x :| x in m.ids && x in o0 && o0[x] == g;
      assert x !in steps;
      assert SameAt(o0, o1, x);
    } else {
      assert SomeStep(steps, o1, g);
    }
  }

  lemma AllBelow(m: Molecule, depths: map<Id, nat>, blocks: Adjacency, blockedBy: Adjacency,
                 groups: map<nat, seq<Id>>, groupOf: map<Id, nat>, canParallel: map<Id, set<Id>>, depth: nat)
    requires forall x :: x in depths && depths[x] < depth ==>
                           GroupedIn(groups, groupOf, canParallel, x, ParallelWith(m, depths, blocks, blockedBy, x), 0)
    requires forall x :: !(x in depths && depths[x] < depth) ==> x !in groupOf && x !in canParallel
    requires forall g :: g in groups ==> SomeStep(m.ids, groupOf, g)
    ensures GroupedBelow(m, depths, blocks, blockedBy, groups, groupOf, canParallel, depth)
  {
  }

  lemma NextDepthAt(m: Molecule, depths: map<Id, nat>, blocks: Adjacency, blockedBy: Adjacency, low: nat,
                    g0: map<nat, seq<Id>>, o0: map<Id, nat>, c0: map<Id, set<Id>>,
                    g1: map<nat, seq<Id>>, o1: map<Id, nat>, c1: map<Id, set<Id>>, depth: nat, x: Id)
    requires depths.Keys == m.status.Keys && m.WellFormed()
    requires GroupedBelow(m, depths, blocks, blockedBy, g0, o0, c0, depth)
    requires GroupedDepth(Bucket(m.ids, depths, depth), blocks, blockedBy, low, g0, o0, c0, g1, o1, c1)
    requires x in depths && depths[x] <= depth
    ensures GroupedIn(g1, o1, c1, x, ParallelWith(m, depths, blocks, blockedBy, x), 0)
  {
    hide Component, GroupedIn;
    var steps := Bucket(m.ids, depths, depth);
    if depths[x] < depth {
      assert x !in steps;
      KeptGroup(g0, o0, c0, g1, o1, c1, x, ParallelWith(m, depths, blocks, blockedBy, x));
    } else {
      assert x in steps;
      LowerGroup(g1, o1, c1, x, Component(steps, blocks, blockedBy, x), low);
    }
  }

  lemma NextDepthOff(m: Molecule, depths: map<Id, nat>, blocks: Adjacency, blockedBy: Adjacency, low: nat,
                     g0: map<nat, seq<Id>>, o0: map<Id, nat>, c0: map<Id, set<Id>>,
                     g1: map<nat, seq<Id>>, o1: map<Id, nat>, c1: map<Id, set<Id>>, depth: nat, x: Id)
    requires GroupedBelow(m, depths, blocks, blockedBy, g0, o0, c0, depth)
    requires GroupedDepth(Bucket(m.ids, depths, depth), blocks, blockedBy, low, g0, o0, c0, g1, o1, c1)
    requires !(x in depths && depths[x] <= depth)
    ensures x !in o1 && x !in c1
  {
    hide Component, GroupedIn;
    assert x !in Bucket(m.ids, depths, depth);
  }

  method GroupSteps(a: Analysis, steps: seq<Id>, blocks: Adjacency, blockedBy: Adjacency, low: nat) returns (counter: nat)
    requires Distinct(steps) && a.NumberedTo(low)
    requires forall x :: x in steps ==> x !in a.groupOf && x !in a.canParallel
    modifies a
    ensures a.NumberedTo(counter)
    ensures GroupedDepth(steps, blocks, blockedBy, low, old(a.groups), old(a.groupOf), old(a.canParallel),
                         a.groups, a.groupOf, a.canParallel)
  {
    hide Component, GroupedIn, Distinct;
    counter := GroupParallelSteps(a, steps, blocks, blockedBy, low);
  }

  /** The loop of groupParallelSteps calls, one depth at a time. */
  method GroupDepth(a: Analysis, m: Molecule, depths: map<Id, nat>, blocks: Adjacency, blockedBy: Adjacency,
                    steps: seq<Id>, depth: nat, low: nat) returns (counter: nat)
    requires m.WellFormed() && depths.Keys == m.status.Keys && a.NumberedTo(low)
    requires steps == Bucket(m.ids, depths, depth)
    requires GroupedBelow(m, depths, blocks, blockedBy, a.groups, a.groupOf, a.canParallel, depth)
    modifies a
    ensures a.NumberedTo(counter)
    ensures GroupedBelow(m, depths, blocks, blockedBy, a.groups, a.groupOf, a.canParallel, depth + 1)
  {
    hide Component, GroupedIn, GroupedBelow, Bucket, Distinct;
    BucketDistinct(m.ids, depths, depth);
    UngroupedAt(m, depths, blocks, blockedBy, a.groups, a.groupOf, a.canParallel, depth);
    ghost var g0, o0, c0 := a.groups, a.groupOf, a.canParallel;
    counter := GroupSteps(a, steps, blocks, blockedBy, low);
    NextDepth(m, depths, blocks, blockedBy, low, g0, o0, c0, a.groups, a.groupOf, a.canParallel, depth);
  }

  /** The loop over the depths 0 to n. */
  method GroupAllDepths(a: Analysis, m: Molecule, depths: map<Id, nat>, blocks: Adjacency, blockedBy: Adjacency,
                        groups: map<nat, seq<Id>>)
    requires m.WellFormed() && depths.Keys == m.status.Keys && a.NumberedTo(0)
    requires forall d: nat :: BucketIn(groups, d) == Bucket(m.ids, depths, d)
    requires GroupedBelow(m, depths, blocks, blockedBy, a.groups, a.groupOf, a.canParallel, 0)
    modifies a
    ensures GroupedBelow(m, depths, blocks, blockedBy, a.groups, a.groupOf, a.canParallel, |m.ids| + 1)
  {
    hide Component, GroupedBelow, GroupedIn, Bucket, Distinct, ParallelWith;
    var counter, depth := 0, 0;
    while depth <= |m.ids|
      invariant 0 <= depth <= |m.ids| + 1 && a.NumberedTo(counter)
      invariant GroupedBelow(m, depths, blocks, blockedBy, a.groups, a.groupOf, a.canParallel, depth)
    {
      counter := GroupDepth(a, m, depths, blocks, blockedBy, BucketIn(groups, depth), depth, counter);
      depth := depth + 1;
    }
  }

  method GroupByDepth(m: Molecule, depths: map<Id, nat>, blocks: Adjacency, blockedBy: Adjacency) returns (a: Analysis)
    requires m.WellFormed() && depths.Keys == m.status.Keys
    requires forall x :: x in depths ==> depths[x] <= |m.ids|
    ensures fresh(a)
    ensures forall x :: x in m.status ==> GroupedAs(a, x, ParallelWith(m, depths, blocks, blockedBy, x), 0)
    ensures forall x :: x !in m.status ==> a.Unplaced(x)
    ensures forall g :: g in a.groups ==> SomeStep(m.ids, a.groupOf, g)
  {
    hide Component, GroupedBelow, GroupedIn, Bucket, Distinct, ParallelWith;
    var groups := DepthGroups(m, depths);
    a := new Analysis();
    NothingGrouped(m, depths, blocks, blockedBy);
    GroupAllDepths(a, m, depths, blocks, blockedBy, groups);
    AllGrouped(m, depths, blocks, blockedBy, a.groups, a.groupOf, a.canParallel);
  }

  lemma AllGrouped(m: Molecule, depths: map<Id, nat>, blocks: Adjacency, blockedBy: Adjacency,
                   groups: map<nat, seq<Id>>, groupOf: map<Id, nat>, canParallel: map<Id, set<Id>>)
    requires depths.Keys == m.status.Keys && forall x :: x in depths ==> depths[x] <= |m.ids|
    requires GroupedBelow(m, depths, blocks, blockedBy, groups, groupOf, canParallel, |m.ids| + 1)
    ensures forall x :: x in m.status ==>
                          GroupedIn(groups, groupOf, canParallel, x, ParallelWith(m, depths, blocks, blockedBy, x), 0)
    ensures forall x :: x !in m.status ==> x !in groupOf && x !in canParallel
    ensures forall g :: g in groups ==> SomeStep(m.ids, groupOf, g)
  {
  }

  lemma UngroupedAt(m: Molecule, depths: map<Id, nat>, blocks: Adjacency, blockedBy: Adjacency,
                    groups: map<nat, seq<Id>>, groupOf: map<Id, nat>, canParallel: map<Id, set<Id>>, depth: nat)
    requires GroupedBelow(m, depths, blocks, blockedBy, groups, groupOf, canParallel, depth)
    ensures forall x :: x in Bucket(m.ids, depths, depth) ==> x !in groupOf && x !in canParallel
  {
  }

  // ---- the whole analysis ----

  /** Blocking seen from the two ends is one relation. */
  lemma BlocksInverse(m: Molecule, x: Id, b: Id)
    ensures x in Blocks(m, b) <==> b in BlockedBy(m, x)
  {
    hide BlockersOf;
  }

  function BlockedByMap(m: Molecule): Adjacency { map x | x in m.status :: BlockedBy(m, x) }

  function BlocksMap(m: Molecule): Adjacency { map x | x in m.status :: Blocks(m, x) }

  /** The pair test is that neither waits on the other, closed or not. */
  lemma IndependentMeans(m: Molecule, x: Id, y: Id)
    requires x in m.status && y in m.status
    ensures Independent(BlocksMap(m), BlockedByMap(m), x, y) <==> x !in BlockedBy(m, y) && y !in BlockedBy(m, x)
  {
    BlocksInverse(m, x, y);
    BlocksInverse(m, y, x);
  }

  /** The parallel partners of x at its depth, x included. */
  ghost function Partners(m: Molecule, depths: map<Id, nat>, x: Id): set<Id>
    requires x in depths
  {
    ParallelWith(m, depths, BlocksMap(m), BlockedByMap(m), x)
  }

  /** Pairs of nodes neither of which is recorded as blocking the other. */
  ghost function Unordered(m: Molecule, nodes: seq<Id>): Relation {
    set x, y | x in nodes && y in nodes && x != y && x !in BlockedBy(m, y) && y !in BlockedBy(m, x) :: (x, y)
  }

  /** Partners in the molecule's own terms: nodes of one depth connected through
      such pairs. */
  lemma PartnersAre(m: Molecule, depths: map<Id, nat>, x: Id)
    requires m.WellFormed() && depths.Keys == m.status.Keys && x in depths
    ensures var nodes := Bucket(m.ids, depths, depths[x]);
            Partners(m, depths, x) == set y | y in nodes && Reaches(Unordered(m, nodes), x, y)
  {
    hide BlockedBy, Blocks, Independent, BlocksMap, BlockedByMap;
    var nodes := Bucket(m.ids, depths, depths[x]);
    forall a, b | a in nodes && b in nodes
      ensures Independent(BlocksMap(m), BlockedByMap(m), a, b) <==> a !in BlockedBy(m, b) && b !in BlockedBy(m, a)
    {
      IndependentMeans(m, a, b);
    }
    assert Independence(nodes, BlocksMap(m), BlockedByMap(m)) == Unordered(m, nodes);
  }

  method AnalyzeMolecule(m: Molecule)
      returns (a: Analysis, waitsOn: map<Id, set<Id>>, ready: set<Id>, count: nat, depths: map<Id, nat>)
    requires m.WellFormed()
    ensures waitsOn.Keys == m.status.Keys && forall x :: x in waitsOn ==> waitsOn[x] == OpenBlockers(m, x)
    ensures forall x, b :: x in waitsOn ==> (b in waitsOn[x] <==> m.Live(b) && Recorded(m, x, b))
    ensures (forall x :: x in ready <==> Ready(m, x)) && count == |ready|
    ensures forall x :: x in ready <==> CanStart(m, x)
    ensures Possible(m, depths)
    ensures depths.Keys == m.status.Keys && forall x :: x in depths ==> depths[x] <= |m.ids|
    ensures forall x, b :: x in depths && b in OpenBlockers(m, x) && b != x ==> b in depths && depths[b] != depths[x]
    ensures Acyclic(Waiting(m)) ==> IsDepth(m, depths)
    ensures fresh(a) && forall x :: x in m.status ==> GroupedAs(a, x, Partners(m, depths, x), 0)
    ensures forall g :: g in a.groups ==> SomeStep(m.ids, a.groupOf, g)
  {
    hide BlockedBy, Blocks, OpenBlockers, Ready, IsDepth, Waiting, GroupedAs, ParallelWith, Distinct, Lists, InOrder, Recorded, CanStart;
    var blockedBy, blocks := BlockingMaps(m);
    waitsOn, ready, count := ReadySteps(m, blockedBy);
    var order := SomeOrder(m, blockedBy);
    depths := BlockingDepths(m, order);
    assert blockedBy == BlockedByMap(m) && blocks == BlocksMap(m);
    a := GroupByDepth(m, depths, blocks, blockedBy);
    InTheirOwnTerms(m);
  }

  /** Readiness and open blockers in terms of statuses and edges. */
  lemma InTheirOwnTerms(m: Molecule)
    ensures forall x, b :: b in OpenBlockers(m, x) <==> m.Live(b) && Recorded(m, x, b)
    ensures forall x :: Ready(m, x) <==> CanStart(m, x)
  {
    hide BlockedBy, Recorded, CanStart, Ready;
    forall x, b ensures b in OpenBlockers(m, x) <==> m.Live(b) && Recorded(m, x, b) { BlockedByMeans(m, x, b); }
    forall x ensures Ready(m, x) <==> CanStart(m, x) { ReadyMeans(m, x); }
  }

  /** Nodes of one depth never wait on each other, directly or through a chain
      of open blockers; so in an acyclic molecule the members of a parallel
      group can all run at once. */
  lemma PartnersDoNotWait(m: Molecule, depths: map<Id, nat>, x: Id, y: Id)
    requires IsDepth(m, depths) && x in depths && y in Partners(m, depths, x) && y != x
    ensures !Reaches(Waiting(m), x, y)
  {
    assert depths[y] == depths[x];
    forall p ensures !PathFrom(Waiting(m), p, x, y) {
      if PathFrom(Waiting(m), p, x, y) { DepthFalls(m, depths, p); }
    }
  }

  /** Every node is in exactly one of the buckets the grouping loop visits,
      cyclic or not. */
  lemma BucketsPartition(m: Molecule, depths: map<Id, nat>, x: Id)
    requires m.WellFormed() && depths.Keys == m.status.Keys && x in m.ids
    requires forall y :: y in depths ==> depths[y] <= |m.ids|
    ensures 0 <= depths[x] <= |m.ids| && x in Bucket(m.ids, depths, depths[x])
    ensures forall d: nat :: x in Bucket(m.ids, depths, d) ==> d == depths[x]
  {
  }
}
