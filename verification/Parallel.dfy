/** Parallel groups: the steps of one blocking depth, united when neither
    blocks the other. */
module Parallel {
  import opened Graphs
  import opened Seqs
  import opened UnionFind

  type Adjacency = map<Id, set<Id>>

  function At(adj: Adjacency, x: Id): set<Id> {
    if x in adj then adj[x] else {}
  }

  /** Neither step is recorded as blocking the other. */
  predicate Independent(blocks: Adjacency, blockedBy: Adjacency, a: Id, b: Id) {
    b !in At(blocks, a) && a !in At(blocks, b) && b !in At(blockedBy, a) && a !in At(blockedBy, b)
  }

  /** The graph whose connected components are the parallel groups. */
  ghost function Independence(steps: seq<Id>, blocks: Adjacency, blockedBy: Adjacency): Relation {
    set a, b | a in steps && b in steps && a != b && Independent(blocks, blockedBy, a, b) :: (a, b)
  }

  ghost predicate Together(steps: seq<Id>, blocks: Adjacency, blockedBy: Adjacency, a: Id, b: Id) {
    Reaches(Independence(steps, blocks, blockedBy), a, b)
  }

  // ---- uniting independent pairs ----

  /** Nodes of one tree are connected. */
  ghost predicate Sound(e: Relation, rep: map<Id, Id>) {
    forall a, b :: a in rep && b in rep && rep[a] == rep[b] ==> Reaches(e, a, b)
  }

  ghost predicate SameTree(rep: map<Id, Id>, a: Id, b: Id) {
    a in rep && b in rep && rep[a] == rep[b]
  }

  /** Every edge between one of the first i steps and a later one, or between
      step i and a step before j, lies inside one tree. */
  ghost predicate United(steps: seq<Id>, blocks: Adjacency, blockedBy: Adjacency, rep: map<Id, Id>, i: nat, j: nat) {
    forall k, l :: 0 <= k < l < |steps| && (k < i || (k == i && l < j)) && Independent(blocks, blockedBy, steps[k], steps[l])
                   ==> SameTree(rep, steps[k], steps[l])
  }

  lemma UnitedStart(steps: seq<Id>, blocks: Adjacency, blockedBy: Adjacency, rep: map<Id, Id>)
    ensures United(steps, blocks, blockedBy, rep, 0, 0)
  {
  }

  lemma UnitedRow(steps: seq<Id>, blocks: Adjacency, blockedBy: Adjacency, rep: map<Id, Id>, i: nat)
    ensures United(steps, blocks, blockedBy, rep, i, 0) ==> United(steps, blocks, blockedBy, rep, i, i + 1)
    ensures United(steps, blocks, blockedBy, rep, i, |steps|) ==> United(steps, blocks, blockedBy, rep, i + 1, 0)
  {
  }

  lemma UnitedNext(steps: seq<Id>, blocks: Adjacency, blockedBy: Adjacency, rep: map<Id, Id>, i: nat, j: nat)
    requires i < j < |steps| && United(steps, blocks, blockedBy, rep, i, j)
    requires Independent(blocks, blockedBy, steps[i], steps[j]) ==> SameTree(rep, steps[i], steps[j])
    ensures United(steps, blocks, blockedBy, rep, i, j + 1)
  {
  }

  lemma MergeSound(e: Relation, rep: map<Id, Id>, a: Id, b: Id)
    requires Sound(e, rep) && a in rep && b in rep
    requires Reaches(e, a, b) && Reaches(e, b, a)
    ensures Sound(e, Merged(rep, rep[a], rep[b]))
  {
    var r := Merged(rep, rep[a], rep[b]);
    forall x, y | x in r && y in r && r[x] == r[y] ensures Reaches(e, x, y) {
      if rep[x] == rep[a] && rep[y] == rep[b] {
        ReachesTransitive(e, x, a, b);
        ReachesTransitive(e, x, b, y);
      } else if rep[x] == rep[b] && rep[y] == rep[a] {
        ReachesTransitive(e, x, b, a);
        ReachesTransitive(e, x, a, y);
      }
    }
  }

  lemma MergeUnited(steps: seq<Id>, blocks: Adjacency, blockedBy: Adjacency, rep: map<Id, Id>, i: nat, j: nat, pa: Id, pb: Id)
    requires United(steps, blocks, blockedBy, rep, i, j)
    ensures United(steps, blocks, blockedBy, Merged(rep, pa, pb), i, j)
  {
  }

  lemma SingletonsSound(e: Relation, rep: map<Id, Id>)
    requires forall x :: x in rep ==> rep[x] == x
    ensures Sound(e, rep)
  {
    forall a ensures Reaches(e, a, a) { ReachesSelf(e, a); }
  }

  ghost predicate Over(rep: map<Id, Id>, steps: seq<Id>) {
    forall x :: x in rep <==> x in steps
  }

  method UniteSteps(steps: seq<Id>, blocks: Adjacency, blockedBy: Adjacency) returns (f: Forest)
    requires Distinct(steps)
    ensures fresh(f) && f.Valid() && Over(f.rep, steps)
    ensures forall a, b :: a in steps && b in steps ==>
                             (f.rep[a] == f.rep[b] <==> Together(steps, blocks, blockedBy, a, b))
  {
    hide AllOk, Sound, United, Independence, Independent, Together;
    ghost var e := Independence(steps, blocks, blockedBy);
    f := new Forest(steps);
    SingletonsSound(e, f.rep);
    UnitedStart(steps, blocks, blockedBy, f.rep);
    var i := 0;
    while i < |steps|
      invariant 0 <= i <= |steps| && f.Valid() && fresh(f) && Over(f.rep, steps)
      invariant Sound(e, f.rep) && United(steps, blocks, blockedBy, f.rep, i, 0)
    {
      UniteRow(f, steps, blocks, blockedBy, i);
      i := i + 1;
    }
    Components(steps, blocks, blockedBy, f.rep);
  }

  /** Unite one step with the later steps it is independent of. */
  method UniteRow(f: Forest, steps: seq<Id>, blocks: Adjacency, blockedBy: Adjacency, i: nat)
    requires f.Valid() && Over(f.rep, steps) && i < |steps| && Distinct(steps)
    requires Sound(Independence(steps, blocks, blockedBy), f.rep) && United(steps, blocks, blockedBy, f.rep, i, 0)
    modifies f
    ensures f.Valid() && Over(f.rep, steps)
    ensures Sound(Independence(steps, blocks, blockedBy), f.rep) && United(steps, blocks, blockedBy, f.rep, i + 1, 0)
  {
    hide AllOk, Sound, United, Independence, Independent;
    UnitedRow(steps, blocks, blockedBy, f.rep, i);
    var j := i + 1;
    while j < |steps|
      invariant i < j <= |steps| && f.Valid() && Over(f.rep, steps)
      invariant Sound(Independence(steps, blocks, blockedBy), f.rep) && United(steps, blocks, blockedBy, f.rep, i, j)
    {
      if Independent(blocks, blockedBy, steps[i], steps[j]) {
        UnitePair(f, steps, blocks, blockedBy, i, j);
      }
      UnitedNext(steps, blocks, blockedBy, f.rep, i, j);
      j := j + 1;
    }
    UnitedRow(steps, blocks, blockedBy, f.rep, i);
  }

  /** Unite one independent pair. */
  method UnitePair(f: Forest, steps: seq<Id>, blocks: Adjacency, blockedBy: Adjacency, i: nat, j: nat)
    requires f.Valid() && Over(f.rep, steps) && i < j < |steps| && Distinct(steps)
    requires Independent(blocks, blockedBy, steps[i], steps[j])
    requires Sound(Independence(steps, blocks, blockedBy), f.rep) && United(steps, blocks, blockedBy, f.rep, i, j)
    modifies f
    ensures f.Valid() && Over(f.rep, steps)
    ensures Sound(Independence(steps, blocks, blockedBy), f.rep) && United(steps, blocks, blockedBy, f.rep, i, j)
    ensures SameTree(f.rep, steps[i], steps[j])
  {
    var a, b := steps[i], steps[j];
    assert a != b;
    hide AllOk, Sound, United, Independence, Independent, Distinct, Merged;
    ghost var before := f.rep;
    var pa := f.Find(a);
    var pb := f.Find(b);
    if pa != pb {
      IndependentEdges(steps, blocks, blockedBy, a, b);
      MergeSound(Independence(steps, blocks, blockedBy), before, a, b);
      MergeUnited(steps, blocks, blockedBy, before, i, j, pa, pb);
      MergeOver(steps, before, a, b);
      f.RootOf(a);
      f.Union(pa, pb);
    }
  }

  lemma MergeOver(steps: seq<Id>, rep: map<Id, Id>, a: Id, b: Id)
    requires Over(rep, steps) && a in rep && b in rep
    ensures Over(Merged(rep, rep[a], rep[b]), steps) && SameTree(Merged(rep, rep[a], rep[b]), a, b)
  {
  }

  lemma IndependentEdges(steps: seq<Id>, blocks: Adjacency, blockedBy: Adjacency, a: Id, b: Id)
    requires a in steps && b in steps && a != b && Independent(blocks, blockedBy, a, b)
    ensures Reaches(Independence(steps, blocks, blockedBy), a, b)
    ensures Reaches(Independence(steps, blocks, blockedBy), b, a)
  {
    ReachesEdge(Independence(steps, blocks, blockedBy), a, b);
    ReachesEdge(Independence(steps, blocks, blockedBy), b, a);
  }

  /** When every edge is united and trees are connected, trees are exactly the
      connected components. */
  lemma Components(steps: seq<Id>, blocks: Adjacency, blockedBy: Adjacency, rep: map<Id, Id>)
    requires Distinct(steps) && Over(rep, steps)
    requires Sound(Independence(steps, blocks, blockedBy), rep)
    requires United(steps, blocks, blockedBy, rep, |steps|, 0)
    ensures forall a, b :: a in steps && b in steps ==> (rep[a] == rep[b] <==> Together(steps, blocks, blockedBy, a, b))
  {
    var e := Independence(steps, blocks, blockedBy);
    forall a, b | a in steps && b in steps && Together(steps, blocks, blockedBy, a, b) ensures rep[a] == rep[b] {
      var tree := set x | x in steps && rep[x] == rep[a];
      forall x, y | x in tree && (x, y) in e ensures y in tree {
        EdgeUnited(steps, blocks, blockedBy, rep, x, y);
      }
      ReachesInto(e, tree, a, b);
    }
  }

  lemma EdgeUnited(steps: seq<Id>, blocks: Adjacency, blockedBy: Adjacency, rep: map<Id, Id>, x: Id, y: Id)
    requires Over(rep, steps)
    requires United(steps, blocks, blockedBy, rep, |steps|, 0)
    requires (x, y) in Independence(steps, blocks, blockedBy)
    ensures rep[x] == rep[y]
  {
    var k :| 0 <= k < |steps| && steps[k] == x;
    var l :| 0 <= l < |steps| && steps[l] == y;
    if l < k { assert Independent(blocks, blockedBy, steps[l], steps[k]); }
  }

  // ---- naming the groups ----

  /** The steps of one tree, in step order. */
  function Members(steps: seq<Id>, rep: map<Id, Id>, root: Id): (ms: seq<Id>)
    ensures forall x :: x in ms <==> x in steps && x in rep && rep[x] == root
  {
    if steps == [] then []
    else if steps[0] in rep && rep[steps[0]] == root then [steps[0]] + Members(steps[1..], rep, root)
    else Members(steps[1..], rep, root)
  }

  lemma {:induction false} MembersSnoc(steps: seq<Id>, x: Id, rep: map<Id, Id>, root: Id)
    ensures Members(steps + [x], rep, root) ==
            if x in rep && rep[x] == root then Members(steps, rep, root) + [x] else Members(steps, rep, root)
  {
    if steps == [] {
      assert steps + [x] == [x];
    } else {
      MembersSnoc(steps[1..], x, rep, root);
      assert (steps + [x])[1..] == steps[1..] + [x];
    }
  }

  /** Collect the trees of a forest: each tree's steps, and the roots in order
      of their first step. */
  method Collect(f: Forest, steps: seq<Id>) returns (groups: map<Id, seq<Id>>, order: seq<Id>)
    requires f.Valid() && Over(f.rep, steps)
    modifies f`parent
    ensures f.Valid() && Distinct(order)
    ensures forall r :: r in groups <==> r in order
    ensures forall r :: r in groups ==> groups[r] == Members(steps, f.rep, r)
    ensures forall x :: x in steps ==> f.rep[x] in groups
  {
    hide AllOk, Collected;
    groups, order := map[], [];
    CollectedNone(f.rep, steps);
    var i := 0;
    while i < |steps|
      invariant 0 <= i <= |steps| && f.Valid() && Distinct(order)
      invariant forall r :: r in groups <==> r in order
      invariant Collected(groups, f.rep, steps[..i])
    {
      var root := f.Find(steps[i]);
      CollectedNext(groups, f.rep, steps, i);
      if root !in groups {
        assert [] + [steps[i]] == [steps[i]];
        order := order + [root];
        groups := groups[root := [steps[i]]];
      } else {
        groups := groups[root := groups[root] + [steps[i]]];
      }
      i := i + 1;
    }
    assert steps[..i] == steps;
    CollectedAll(groups, f.rep, steps);
  }

  /** The groups of a prefix of the steps. */
  ghost predicate Collected(groups: map<Id, seq<Id>>, rep: map<Id, Id>, steps: seq<Id>) {
    && (forall r :: r in groups ==> groups[r] == Members(steps, rep, r))
    && (forall r :: r !in groups ==> Members(steps, rep, r) == [])
  }

  lemma CollectedNext(groups: map<Id, seq<Id>>, rep: map<Id, Id>, steps: seq<Id>, i: nat)
    requires i < |steps| && steps[i] in rep && Collected(groups, rep, steps[..i])
    ensures var root := rep[steps[i]];
            var sofar := if root in groups then groups[root] else [];
            Collected(groups[root := sofar + [steps[i]]], rep, steps[..i + 1])
  {
    hide Members;
    forall r ensures Members(steps[..i + 1], rep, r) ==
                     if rep[steps[i]] == r then Members(steps[..i], rep, r) + [steps[i]] else Members(steps[..i], rep, r)
    {
      assert steps[..i + 1] == steps[..i] + [steps[i]];
      MembersSnoc(steps[..i], steps[i], rep, r);
    }
  }

  lemma CollectedNone(rep: map<Id, Id>, steps: seq<Id>)
    ensures Collected(map[], rep, steps[..0])
  {
  }

  lemma CollectedAll(groups: map<Id, seq<Id>>, rep: map<Id, Id>, steps: seq<Id>)
    requires Collected(groups, rep, steps) && Over(rep, steps)
    ensures forall r :: r in groups ==> groups[r] == Members(steps, rep, r)
    ensures forall x :: x in steps ==> rep[x] in groups
  {
    forall x | x in steps ensures rep[x] in groups {
      assert x in Members(steps, rep, rep[x]);
    }
  }

  /** The part of a molecule analysis that grouping fills in. Groups are
      numbered; the source spells number k as "group-k". */
  class Analysis {
    var groups: map<nat, seq<Id>>
    var groupOf: map<Id, nat>
    var canParallel: map<Id, set<Id>>

    constructor ()
      ensures groups == map[] && groupOf == map[] && canParallel == map[]
    {
      groups, groupOf, canParallel := map[], map[], map[];
    }

    /** Step x is in group `number`, with these members. */
    ghost predicate Grouped(x: Id, members: seq<Id>, number: nat)
      reads this
    {
      && x in groupOf && groupOf[x] == number
      && x in canParallel && canParallel[x] == Others(members, x)
    }

    /** Step x is in a group numbered above `low`, whose members are these. */
    ghost predicate Placed(x: Id, members: seq<Id>, low: nat)
      reads this
    {
      PlacedIn(groups, groupOf, canParallel, x, members, low)
    }

    ghost predicate Unplaced(x: Id)
      reads this
    {
      x !in groupOf && x !in canParallel
    }

    /** No group has a number above `high`. */
    ghost predicate NumberedTo(high: nat)
      reads this
    {
      forall g :: g in groups ==> g <= high
    }

    /** Step x is grouped as it was. */
    twostate predicate Kept(x: Id)
      reads this
    {
      SameAt(old(groupOf), groupOf, x) && SameAt(old(canParallel), canParallel, x)
    }

    /** Give one group of two or more its number. */
    method Name(members: seq<Id>, number: nat)
      modifies this
      ensures groups == old(groups)[number := members]
      ensures forall x :: x in members ==> Grouped(x, members, number)
      ensures forall x :: x !in members ==> Kept(x)
    {
      groups := groups[number := members];
      var i := 0;
      while i < |members|
        invariant 0 <= i <= |members| && groups == old(groups)[number := members]
        invariant forall x :: x in members[..i] ==> Grouped(x, members, number)
        invariant forall x :: x !in members[..i] ==> Kept(x)
      {
        groupOf := groupOf[members[i] := number];
        canParallel := canParallel[members[i] := Others(members, members[i])];
        assert members[..i + 1] == members[..i] + [members[i]];
        i := i + 1;
      }
      assert members[..i] == members;
    }
  }

  predicate SameAt<T(==)>(a: map<Id, T>, b: map<Id, T>, x: Id) {
    (x in a <==> x in b) && (x in a ==> a[x] == b[x])
  }

  function Others(members: seq<Id>, x: Id): set<Id> {
    set y | y in members && y != x
  }

  ghost predicate Disjoint(groups: map<Id, seq<Id>>) {
    forall r, s, x :: r in groups && s in groups && x in groups[r] && x in groups[s] ==> r == s
  }

  /** x is in none of the groups of two or more among these roots. */
  ghost predicate Ungrouped(groups: map<Id, seq<Id>>, order: seq<Id>, x: Id) {
    forall r :: r in order && r in groups && |groups[r]| >= 2 ==> x !in groups[r]
  }

  /** Group g is the group of some step of these trees. */
  ghost predicate Held(groups: map<Id, seq<Id>>, roots: seq<Id>, groupOf: map<Id, nat>, g: nat) {
    exists r, x :: r in roots && r in groups && x in groups[r] && x in groupOf && groupOf[x] == g
  }

  /** Naming one more tree leaves the earlier groups to their steps. */
  lemma HeldNext(groups: map<Id, seq<Id>>, order: seq<Id>, k: nat, before: map<Id, nat>, after: map<Id, nat>, g: nat)
    requires Distinct(order) && Disjoint(groups) && k < |order| && order[k] in groups && Held(groups, order[..k], before, g)
    requires forall x :: x !in groups[order[k]] ==> SameAt(before, after, x)
    ensures Held(groups, order[..k + 1], after, g)
  {
    var r, x :| r in order[..k] && r in groups && x in groups[r] && x in before && before[x] == g;
    var i :| 0 <= i < k && order[i] == r;
    assert r != order[k];
    assert x !in groups[order[k]];
    assert order[..k + 1][i] == r;
  }

  lemma HeldNow(groups: map<Id, seq<Id>>, order: seq<Id>, k: nat, groupOf: map<Id, nat>, g: nat)
    requires k < |order| && order[k] in groups && groups[order[k]] != []
    requires forall x :: x in groups[order[k]] ==> x in groupOf && groupOf[x] == g
    ensures Held(groups, order[..k + 1], groupOf, g)
  {
    assert order[..k + 1][k] == order[k];
    assert groups[order[k]][0] in groups[order[k]];
  }

  lemma HeldMore(groups: map<Id, seq<Id>>, order: seq<Id>, k: nat, groupOf: map<Id, nat>, g: nat)
    requires k < |order| && Held(groups, order[..k], groupOf, g)
    ensures Held(groups, order[..k + 1], groupOf, g)
  {
    assert order[..k + 1] == order[..k] + [order[k]];
  }

  ghost predicate PlacedIn(groups: map<nat, seq<Id>>, groupOf: map<Id, nat>, canParallel: map<Id, set<Id>>,
                           x: Id, members: seq<Id>, low: nat)
  {
    && x in groupOf && groupOf[x] in groups && groupOf[x] > low
    && groups[groupOf[x]] == members
    && x in canParallel && canParallel[x] == Others(members, x)
  }

  /** The trees of two or more among these roots have their groups. */
  ghost predicate AllPlaced(trees: map<Id, seq<Id>>, roots: seq<Id>, low: nat,
                            groups: map<nat, seq<Id>>, groupOf: map<Id, nat>, canParallel: map<Id, set<Id>>)
  {
    forall r, x :: r in roots && r in trees && x in trees[r] && |trees[r]| >= 2 ==>
                     PlacedIn(groups, groupOf, canParallel, x, trees[r], low)
  }

  /** What naming one tree does to the tables. */
  ghost predicate NamedOne(members: seq<Id>, number: nat, g0: map<nat, seq<Id>>, o0: map<Id, nat>, c0: map<Id, set<Id>>,
                           g1: map<nat, seq<Id>>, o1: map<Id, nat>, c1: map<Id, set<Id>>)
  {
    && number !in g0 && g1 == g0[number := members]
    && (forall x :: x in members ==> x in o1 && o1[x] == number && x in c1 && c1[x] == Others(members, x))
    && (forall x :: x !in members ==> SameAt(o0, o1, x) && SameAt(c0, c1, x))
  }

  lemma PlacedMore(trees: map<Id, seq<Id>>, order: seq<Id>, k: nat, low: nat, number: nat,
                   g0: map<nat, seq<Id>>, o0: map<Id, nat>, c0: map<Id, set<Id>>,
                   g1: map<nat, seq<Id>>, o1: map<Id, nat>, c1: map<Id, set<Id>>)
    requires Distinct(order) && Disjoint(trees) && k < |order| && order[k] in trees && low < number
    requires AllPlaced(trees, order[..k], low, g0, o0, c0) && NamedOne(trees[order[k]], number, g0, o0, c0, g1, o1, c1)
    ensures AllPlaced(trees, order[..k + 1], low, g1, o1, c1)
  {
    forall r, x | r in order[..k + 1] && r in trees && x in trees[r] && |trees[r]| >= 2
      ensures PlacedIn(g1, o1, c1, x, trees[r], low)
    {
      if r != order[k] {
        assert r in order[..k];
        assert PlacedIn(g0, o0, c0, x, trees[r], low);
        assert x !in trees[order[k]];
      }
    }
  }

  lemma PlacedSkip(trees: map<Id, seq<Id>>, order: seq<Id>, k: nat, low: nat,
                   g: map<nat, seq<Id>>, o: map<Id, nat>, c: map<Id, set<Id>>)
    requires k < |order| && order[k] in trees && |trees[order[k]]| < 2 && AllPlaced(trees, order[..k], low, g, o, c)
    ensures AllPlaced(trees, order[..k + 1], low, g, o, c)
  {
    hide PlacedIn;
    TakeNext(order, k);
  }

  /** Ids outside every named tree are as they were. */
  ghost predicate RestKept(trees: map<Id, seq<Id>>, roots: seq<Id>, o0: map<Id, nat>, c0: map<Id, set<Id>>,
                           o1: map<Id, nat>, c1: map<Id, set<Id>>)
  {
    forall x :: Ungrouped(trees, roots, x) ==> SameAt(o0, o1, x) && SameAt(c0, c1, x)
  }

  lemma UngroupedLess(trees: map<Id, seq<Id>>, order: seq<Id>, k: nat, x: Id)
    requires k < |order| && order[k] in trees && Ungrouped(trees, order[..k + 1], x)
    ensures Ungrouped(trees, order[..k], x) && (|trees[order[k]]| >= 2 ==> x !in trees[order[k]])
  {
    TakeNext(order, k);
  }

  lemma RestKeptMore(trees: map<Id, seq<Id>>, order: seq<Id>, k: nat, o: map<Id, nat>, c: map<Id, set<Id>>,
                     o0: map<Id, nat>, c0: map<Id, set<Id>>, o1: map<Id, nat>, c1: map<Id, set<Id>>)
    requires k < |order| && order[k] in trees && RestKept(trees, order[..k], o, c, o0, c0)
    requires forall x :: |trees[order[k]]| < 2 || x !in trees[order[k]] ==> SameAt(o0, o1, x) && SameAt(c0, c1, x)
    ensures RestKept(trees, order[..k + 1], o, c, o1, c1)
  {
    hide Ungrouped;
    forall x | Ungrouped(trees, order[..k + 1], x) ensures SameAt(o, o1, x) && SameAt(c, c1, x) {
      UngroupedLess(trees, order, k, x);
    }
  }

  /** Every new group is held. */
  ghost predicate NewHeld(trees: map<Id, seq<Id>>, roots: seq<Id>, before: map<nat, seq<Id>>, groups: map<nat, seq<Id>>, groupOf: map<Id, nat>) {
    forall g :: g in groups && g !in before ==> Held(trees, roots, groupOf, g)
  }

  lemma NewHeldMore(trees: map<Id, seq<Id>>, order: seq<Id>, k: nat, number: nat, before: map<nat, seq<Id>>,
                    g0: map<nat, seq<Id>>, o0: map<Id, nat>, c0: map<Id, set<Id>>,
                    g1: map<nat, seq<Id>>, o1: map<Id, nat>, c1: map<Id, set<Id>>)
    requires Distinct(order) && Disjoint(trees) && k < |order| && order[k] in trees && trees[order[k]] != []
    requires NewHeld(trees, order[..k], before, g0, o0) && NamedOne(trees[order[k]], number, g0, o0, c0, g1, o1, c1)
    ensures NewHeld(trees, order[..k + 1], before, g1, o1)
  {
    hide Held, Disjoint, Distinct;
    forall g | g in g1 && g !in before ensures Held(trees, order[..k + 1], o1, g) {
      if g == number {
        HeldNow(trees, order, k, o1, g);
      } else {
        HeldNext(trees, order, k, o0, o1, g);
      }
    }
  }

  lemma NewHeldSkip(trees: map<Id, seq<Id>>, order: seq<Id>, k: nat, before: map<nat, seq<Id>>, g: map<nat, seq<Id>>, o: map<Id, nat>)
    requires k < |order| && NewHeld(trees, order[..k], before, g, o)
    ensures NewHeld(trees, order[..k + 1], before, g, o)
  {
    hide Held;
    forall n | n in g && n !in before ensures Held(trees, order[..k + 1], o, n) { HeldMore(trees, order, k, o, n); }
  }

  method NameGroups(a: Analysis, groups: map<Id, seq<Id>>, order: seq<Id>, low: nat) returns (counter: nat)
    requires Distinct(order) && Disjoint(groups) && (forall r :: r in order ==> r in groups) && a.NumberedTo(low)
    modifies a
    ensures low <= counter && a.NumberedTo(counter)
    ensures forall g :: g in old(a.groups) ==> g in a.groups && a.groups[g] == old(a.groups)[g]
    ensures AllPlaced(groups, order, low, a.groups, a.groupOf, a.canParallel)
    ensures RestKept(groups, order, old(a.groupOf), old(a.canParallel), a.groupOf, a.canParallel)
    ensures NewHeld(groups, order, old(a.groups), a.groups, a.groupOf)
  {
    hide AllPlaced, RestKept, NewHeld, Disjoint, Distinct;
    counter := low;
    NothingNamed(groups, order, low, a.groups, a.groupOf, a.canParallel);
    for k := 0 to |order|
      invariant low <= counter && a.NumberedTo(counter)
      invariant forall g :: g in old(a.groups) ==> g in a.groups && a.groups[g] == old(a.groups)[g]
      invariant AllPlaced(groups, order[..k], low, a.groups, a.groupOf, a.canParallel)
      invariant RestKept(groups, order[..k], old(a.groupOf), old(a.canParallel), a.groupOf, a.canParallel)
      invariant NewHeld(groups, order[..k], old(a.groups), a.groups, a.groupOf)
    {
      var members := groups[order[k]];
      ghost var g0, o0, c0 := a.groups, a.groupOf, a.canParallel;
      if |members| >= 2 {
        counter := counter + 1;
        a.Name(members, counter);
        assert NamedOne(members, counter, g0, o0, c0, a.groups, a.groupOf, a.canParallel);
        PlacedMore(groups, order, k, low, counter, g0, o0, c0, a.groups, a.groupOf, a.canParallel);
        NewHeldMore(groups, order, k, counter, old(a.groups), g0, o0, c0, a.groups, a.groupOf, a.canParallel);
      } else {
        PlacedSkip(groups, order, k, low, g0, o0, c0);
        NewHeldSkip(groups, order, k, old(a.groups), g0, o0);
      }
      RestKeptMore(groups, order, k, old(a.groupOf), old(a.canParallel), o0, c0, a.groupOf, a.canParallel);
    }
    assert order[..|order|] == order;
  }

  lemma NothingNamed(trees: map<Id, seq<Id>>, order: seq<Id>, low: nat,
                     g: map<nat, seq<Id>>, o: map<Id, nat>, c: map<Id, set<Id>>)
    ensures AllPlaced(trees, order[..0], low, g, o, c) && RestKept(trees, order[..0], o, c, o, c)
    ensures NewHeld(trees, order[..0], g, g, o)
  {
  }

  // ---- the whole of groupParallelSteps ----

  /** The steps connected to x through independent pairs, x included. */
  ghost function Component(steps: seq<Id>, blocks: Adjacency, blockedBy: Adjacency, x: Id): set<Id> {
    set y | y in steps && Together(steps, blocks, blockedBy, x, y)
  }

  /** What grouping leaves for a step whose component is c: a group of exactly
      c and every other member as a partner, or, alone, nothing. */
  ghost predicate GroupedAs(a: Analysis, x: Id, c: set<Id>, low: nat)
    reads a
  {
    GroupedIn(a.groups, a.groupOf, a.canParallel, x, c, low)
  }

  ghost predicate GroupedIn(groups: map<nat, seq<Id>>, groupOf: map<Id, nat>, canParallel: map<Id, set<Id>>,
                            x: Id, c: set<Id>, low: nat)
  {
    if c == {x} then x !in groupOf && x !in canParallel
    else
      && x in groupOf && groupOf[x] in groups && groupOf[x] > low
      && (forall y :: y in groups[groupOf[x]] <==> y in c)
      && x in canParallel && canParallel[x] == c - {x}
  }

  /** Group g is the group of one of these steps. */
  ghost predicate SomeStep(steps: seq<Id>, groupOf: map<Id, nat>, g: nat) {
    exists x :: x in steps && x in groupOf && groupOf[x] == g
  }

  lemma HeldByStep(groups: map<Id, seq<Id>>, order: seq<Id>, steps: seq<Id>, rep: map<Id, Id>, groupOf: map<Id, nat>, g: nat)
    requires forall r, x :: r in groups && x in groups[r] ==> x in steps && x in rep && rep[x] == r
    requires Held(groups, order, groupOf, g)
    ensures SomeStep(steps, groupOf, g)
  {
  }

  method GroupParallelSteps(a: Analysis, steps: seq<Id>, blocks: Adjacency, blockedBy: Adjacency, low: nat)
      returns (counter: nat)
    requires Distinct(steps) && a.NumberedTo(low) && forall x :: x in steps ==> a.Unplaced(x)
    modifies a
    ensures low <= counter && a.NumberedTo(counter)
    ensures forall g :: g in old(a.groups) ==> g in a.groups && a.groups[g] == old(a.groups)[g]
    ensures forall x :: x in steps ==> GroupedAs(a, x, Component(steps, blocks, blockedBy, x), low)
    ensures forall x :: x !in steps ==> a.Kept(x)
    ensures forall g :: g in a.groups && g !in old(a.groups) ==> SomeStep(steps, a.groupOf, g)
  {
    if |steps| == 0 {
      return low;
    }
    var f := UniteSteps(steps, blocks, blockedBy);
    var groups, order := Collect(f, steps);
    ghost var rep := f.rep;
    counter := NameTrees(a, groups, order, steps, rep, low);
    hide Together, GroupedAs, PlacedIn, Members, Distinct, SomeStep;
    GroupedSteps(a, steps, blocks, blockedBy, rep, low);
  }

  /** Naming the groups of the trees: a step of a tree of two or more is placed,
      any other id is left as it was, and every new group is some step's. */
  method NameTrees(a: Analysis, groups: map<Id, seq<Id>>, order: seq<Id>, steps: seq<Id>, ghost rep: map<Id, Id>, low: nat)
      returns (counter: nat)
    requires Distinct(order) && a.NumberedTo(low) && Over(rep, steps) && forall r :: r in groups <==> r in order
    requires forall r :: r in groups ==> groups[r] == Members(steps, rep, r)
    requires forall x :: x in steps ==> rep[x] in groups
    modifies a
    ensures low <= counter && a.NumberedTo(counter)
    ensures forall g :: g in old(a.groups) ==> g in a.groups && a.groups[g] == old(a.groups)[g]
    ensures forall x :: x in steps && |Members(steps, rep, rep[x])| >= 2 ==> a.Placed(x, Members(steps, rep, rep[x]), low)
    ensures forall x :: x !in steps || |Members(steps, rep, rep[x])| < 2 ==> a.Kept(x)
    ensures forall g :: g in a.groups && g !in old(a.groups) ==> SomeStep(steps, a.groupOf, g)
  {
    hide PlacedIn, Distinct, Ungrouped, Held, SomeStep;
    GroupsPartition(groups, steps, rep);
    counter := NameGroups(a, groups, order, low);
    LonelyKept(groups, order, steps, rep);
    forall g | g in a.groups && g !in old(a.groups) ensures SomeStep(steps, a.groupOf, g) {
      HeldByStep(groups, order, steps, rep, a.groupOf, g);
    }
  }

  /** Steps placed or left by their trees are grouped by their components. */
  lemma GroupedSteps(a: Analysis, steps: seq<Id>, blocks: Adjacency, blockedBy: Adjacency, rep: map<Id, Id>, low: nat)
    requires Distinct(steps) && Over(rep, steps)
    requires forall x, y :: x in steps && y in steps ==> (rep[x] == rep[y] <==> Together(steps, blocks, blockedBy, x, y))
    requires forall x :: x in steps ==> var ms := Members(steps, rep, rep[x]);
                                        if |ms| >= 2 then a.Placed(x, ms, low) else a.Unplaced(x)
    ensures forall x :: x in steps ==> GroupedAs(a, x, Component(steps, blocks, blockedBy, x), low)
  {
    hide Together, GroupedAs, PlacedIn, Members, Distinct;
    forall x | x in steps ensures GroupedAs(a, x, Component(steps, blocks, blockedBy, x), low) {
      GroupIsComponent(steps, blocks, blockedBy, rep, x);
      ComponentSize(steps, rep, x);
      Conclude(a, x, Members(steps, rep, rep[x]), Component(steps, blocks, blockedBy, x), low);
    }
  }

  lemma LonelyKept(groups: map<Id, seq<Id>>, order: seq<Id>, steps: seq<Id>, rep: map<Id, Id>)
    requires forall r, x :: r in groups && x in groups[r] ==> x in steps && x in rep && rep[x] == r
    requires forall r :: r in groups ==> groups[r] == Members(steps, rep, r)
    ensures forall x :: x !in steps ==> Ungrouped(groups, order, x)
    ensures forall x :: x in steps && x in rep && |Members(steps, rep, rep[x])| < 2 ==> Ungrouped(groups, order, x)
  {
  }

  lemma GroupsPartition(groups: map<Id, seq<Id>>, steps: seq<Id>, rep: map<Id, Id>)
    requires forall r :: r in groups ==> groups[r] == Members(steps, rep, r)
    ensures Disjoint(groups)
    ensures forall r, x :: r in groups && x in groups[r] ==> x in steps && x in rep && rep[x] == r
  {
  }

  lemma Conclude(a: Analysis, x: Id, ms: seq<Id>, c: set<Id>, low: nat)
    requires x in c && forall y :: y in ms <==> y in c
    requires |ms| >= 2 <==> exists y :: y in ms && y != x
    requires if |ms| >= 2 then a.Placed(x, ms, low) else a.Unplaced(x)
    ensures GroupedAs(a, x, c, low)
  {
    if |ms| < 2 { assert c == {x}; }
  }

  /** One tree's steps are one component. */
  lemma GroupIsComponent(steps: seq<Id>, blocks: Adjacency, blockedBy: Adjacency, rep: map<Id, Id>, x: Id)
    requires Over(rep, steps) && x in steps
    requires forall a, b :: a in steps && b in steps ==> (rep[a] == rep[b] <==> Together(steps, blocks, blockedBy, a, b))
    ensures forall y :: y in Members(steps, rep, rep[x]) <==> y in Component(steps, blocks, blockedBy, x)
    ensures x in Component(steps, blocks, blockedBy, x)
  {
  }

  lemma {:induction false} MembersDistinct(steps: seq<Id>, rep: map<Id, Id>, root: Id)
    requires Distinct(steps)
    ensures Distinct(Members(steps, rep, root))
  {
    if steps != [] {
      MembersDistinct(steps[1..], rep, root);
      assert forall y :: y in steps[1..] ==> y != steps[0];
    }
  }

  /** A tree of one step is that step alone. */
  lemma ComponentSize(steps: seq<Id>, rep: map<Id, Id>, x: Id)
    requires Distinct(steps) && Over(rep, steps) && x in steps
    ensures var ms := Members(steps, rep, rep[x]);
            |ms| >= 2 <==> exists y :: y in ms && y != x
  {
    var ms := Members(steps, rep, rep[x]);
    MembersDistinct(steps, rep, rep[x]);
    assert x in ms;
    if |ms| >= 2 {
      assert ms[0] in ms && ms[1] in ms && ms[0] != ms[1];
    }
  }

  /** Two distinct steps, neither of which blocks the other. */
  ghost predicate IndependentSteps(steps: seq<Id>, blocks: Adjacency, blockedBy: Adjacency, a: Id, b: Id) {
    a in steps && b in steps && a != b && Independent(blocks, blockedBy, a, b)
  }

  /** The members of every group are independent in pairs. */
  ghost predicate Cliques(steps: seq<Id>, blocks: Adjacency, blockedBy: Adjacency) {
    forall x, y :: x in steps && y in steps && x != y && Together(steps, blocks, blockedBy, x, y) ==>
                     Independent(blocks, blockedBy, x, y)
  }

  /** Some step z is independent of x and of y, of which one blocks the other. */
  ghost predicate Bridged(steps: seq<Id>, blocks: Adjacency, blockedBy: Adjacency) {
    exists x, z, y :: IndependentSteps(steps, blocks, blockedBy, x, z) && IndependentSteps(steps, blocks, blockedBy, z, y) &&
                      x != y && !Independent(blocks, blockedBy, x, y)
  }

  /** A group is a connected component, and a clique exactly when no step
      bridges two others that block one another. */
  lemma CliqueExactly(steps: seq<Id>, blocks: Adjacency, blockedBy: Adjacency)
    ensures Cliques(steps, blocks, blockedBy) <==> !Bridged(steps, blocks, blockedBy)
  {
    hide Independent;
    var e := Independence(steps, blocks, blockedBy);
    OneStepExactly(e);
    if Cliques(steps, blocks, blockedBy) {
      forall x, y | x != y && Reaches(e, x, y) ensures (x, y) in e {
        TogetherAreSteps(steps, blocks, blockedBy, x, y);
      }
      forall x, z, y | IndependentSteps(steps, blocks, blockedBy, x, z) && IndependentSteps(steps, blocks, blockedBy, z, y) && x != y
        ensures Independent(blocks, blockedBy, x, y)
      {
        assert (x, z) in e && (z, y) in e;
        assert (x, y) in e;
      }
    }
    if !Bridged(steps, blocks, blockedBy) {
      forall x, z, y | (x, z) in e && (z, y) in e && x != y ensures (x, y) in e {
        assert IndependentSteps(steps, blocks, blockedBy, x, z) && IndependentSteps(steps, blocks, blockedBy, z, y);
      }
    }
  }

  lemma TogetherAreSteps(steps: seq<Id>, blocks: Adjacency, blockedBy: Adjacency, x: Id, y: Id)
    requires x != y && Together(steps, blocks, blockedBy, x, y)
    ensures x in steps && y in steps
  {
    var e := Independence(steps, blocks, blockedBy);
    var p :| PathFrom(e, p, x, y);
    assert (p[0], p[1]) in e && (p[|p| - 2], p[|p| - 2 + 1]) in e;
  }
}
