/** Loading a molecule: the root and every parent-child descendant, depth
    first, over one snapshot of the workspace. Parent-child edges may form
    cycles. */
module Loading {
  import opened Graphs
  import opened Molecules
  import opened Seqs

  datatype IssueType = TypeEpic | TypeMolecule | TypeOther(name: string)

  datatype Issue = Issue(id: Id, status: Status, kind: IssueType, ephemeral: bool, labels: seq<string>)

  /** One neighbor a Related read answers: a row and the type of its edge, or a
      nil entry. */
  datatype Related = Nil | Related(issue: Issue, dep: DependencyType)

  /** One graph snapshot. `inbound` answers Related for every id that names a
      row; `outbound` answers ReadEdges. */
  datatype Snapshot = Snapshot(issues: map<Id, Issue>, inbound: map<Id, seq<Related>>, outbound: map<Id, seq<Dependency>>)
  {
    /** Every read of a row sees the same row. */
    ghost predicate Consistent() {
      && (forall x :: x in issues ==> issues[x].id == x)
      && (forall p, r :: p in inbound && r in inbound[p] && r.Related? ==> r.issue.id in issues && issues[r.issue.id] == r.issue)
    }
  }

  predicate IsStep(r: Related) { r.Related? && r.dep == DepParentChild }

  function StepsOf(rs: seq<Related>): (r: seq<Issue>)
    ensures forall x :: x in r ==> exists i :: 0 <= i < |rs| && IsStep(rs[i]) && rs[i].issue == x
  {
    if rs == [] then []
    else if IsStep(rs[0]) then [rs[0].issue] + StepsOf(rs[1..])
    else StepsOf(rs[1..])
  }

  /** The steps of a node, none for an id that names nothing. */
  function Steps(s: Snapshot, p: Id): seq<Issue> {
    if p in s.inbound then StepsOf(s.inbound[p]) else []
  }

  function Ids(xs: seq<Issue>): set<Id> { set x | x in xs :: x.id }

  /** Every id some node has as a step. */
  function StepIds(s: Snapshot): set<Id> {
    set p, x | p in s.inbound && x in Steps(s, p) :: x.id
  }

  /** The parent-child relation, from parent to step. */
  function Parenthood(s: Snapshot): Relation {
    set p, x | p in s.inbound && x in Steps(s, p) :: (p, x.id)
  }

  lemma StepEdge(s: Snapshot, p: Id)
    ensures forall x :: x in Steps(s, p) ==> (p, x.id) in Parenthood(s) && x.id in StepIds(s)
    ensures forall y :: (p, y) in Parenthood(s) ==> y in Ids(Steps(s, p))
  {
  }

  /** The steps of a node are the rows its parent-child edges name. */
  lemma {:induction false} StepsOfMeans(rs: seq<Related>, x: Issue)
    ensures x in StepsOf(rs) <==> exists i :: 0 <= i < |rs| && rs[i] == Related(x, DepParentChild)
  {
    if rs != [] {
      StepsOfMeans(rs[1..], x);
      if i :| 0 <= i < |rs| && rs[i] == Related(x, DepParentChild) && i > 0 { assert rs[1..][i - 1] == rs[i]; }
      if i :| 0 <= i < |rs[1..]| && rs[1..][i] == Related(x, DepParentChild) { assert rs[i + 1] == rs[1..][i]; }
    }
  }

  /** p is y's parent exactly when p's edges name y as a parent-child row. */
  lemma ParenthoodMeans(s: Snapshot, p: Id, y: Id)
    ensures (p, y) in Parenthood(s)
       <==> p in s.inbound && exists i, x :: 0 <= i < |s.inbound[p]| && s.inbound[p][i] == Related(x, DepParentChild) && x.id == y
  {
    hide StepsOf;
    if p in s.inbound {
      forall x ensures x in StepsOf(s.inbound[p]) <==> exists i :: 0 <= i < |s.inbound[p]| && s.inbound[p][i] == Related(x, DepParentChild) {
        StepsOfMeans(s.inbound[p], x);
      }
    }
  }

  /** The nodes of a work list visited depth first, each when first met. */
  function Visit(s: Snapshot, seen: set<Id>, todo: seq<Issue>): (r: seq<Issue>)
    requires Ids(todo) <= StepIds(s)
    decreases StepIds(s) - seen, |todo|
  {
    if todo == [] then []
    else
      var x := todo[0];
      assert x.id in Ids(todo) && Ids(todo[1..]) <= Ids(todo);
      if x.id in seen then Visit(s, seen, todo[1..])
      else
        StepEdge(s, x.id);
        var under := Visit(s, seen + {x.id}, Steps(s, x.id));
        [x] + under + Visit(s, seen + {x.id} + Ids(under), todo[1..])
  }

  lemma IdsConcat(xs: seq<Issue>, ys: seq<Issue>)
    ensures Ids(xs + ys) == Ids(xs) + Ids(ys)
  {
  }

  /** What Visit makes of its first unseen entry. */
  lemma VisitFirst(s: Snapshot, seen: set<Id>, todo: seq<Issue>)
    requires Ids(todo) <= StepIds(s) && todo != [] && todo[0].id !in seen
    ensures Ids(Steps(s, todo[0].id)) <= StepIds(s) && Ids(todo[1..]) <= StepIds(s)
    ensures var under := Visit(s, seen + {todo[0].id}, Steps(s, todo[0].id));
            var rest := Visit(s, seen + {todo[0].id} + Ids(under), todo[1..]);
            && Visit(s, seen, todo) == [todo[0]] + under + rest
            && Ids(Visit(s, seen, todo)) == {todo[0].id} + Ids(under) + Ids(rest)
  {
    VisitRoom(s, todo);
    hide Ids, Steps, StepIds;
    var under := Visit(s, seen + {todo[0].id}, Steps(s, todo[0].id));
    var rest := Visit(s, seen + {todo[0].id} + Ids(under), todo[1..]);
    hide Visit;
    IdsOfVisit(todo[0], under, rest);
  }

  lemma VisitRoom(s: Snapshot, todo: seq<Issue>)
    requires Ids(todo) <= StepIds(s) && todo != []
    ensures Ids(Steps(s, todo[0].id)) <= StepIds(s) && Ids(todo[1..]) <= StepIds(s)
  {
    StepEdge(s, todo[0].id);
    assert Ids(todo[1..]) <= Ids(todo);
  }

  lemma IdsOfVisit(x: Issue, under: seq<Issue>, rest: seq<Issue>)
    ensures Ids([x] + under + rest) == {x.id} + Ids(under) + Ids(rest)
  {
    IdsConcat([x], under);
    IdsConcat([x] + under, rest);
    assert Ids([x]) == {x.id};
  }

  ghost predicate DistinctIds(xs: seq<Issue>) {
    forall i, j :: 0 <= i < j < |xs| ==> xs[i].id != xs[j].id
  }

  lemma DistinctConcat(xs: seq<Issue>, ys: seq<Issue>)
    requires DistinctIds(xs) && DistinctIds(ys) && Ids(xs) !! Ids(ys)
    ensures DistinctIds(xs + ys)
  {
    forall i, j | 0 <= i < j < |xs + ys| ensures (xs + ys)[i].id != (xs + ys)[j].id {
      if i < |xs| <= j { assert xs[i].id in Ids(xs) && ys[j - |xs|].id in Ids(ys); }
    }
  }

  /** Each node is listed once, and never one already seen. */
  lemma {:induction false} VisitDistinct(s: Snapshot, seen: set<Id>, todo: seq<Issue>)
    requires Ids(todo) <= StepIds(s)
    ensures DistinctIds(Visit(s, seen, todo)) && Ids(Visit(s, seen, todo)) !! seen
    decreases StepIds(s) - seen, |todo|
  {
    if todo != [] {
      var x := todo[0];
      assert x.id in Ids(todo) && Ids(todo[1..]) <= Ids(todo);
      if x.id in seen {
        VisitDistinct(s, seen, todo[1..]);
      } else {
        VisitFirst(s, seen, todo);
        var under := Visit(s, seen + {x.id}, Steps(s, x.id));
        var rest := Visit(s, seen + {x.id} + Ids(under), todo[1..]);
        VisitDistinct(s, seen + {x.id}, Steps(s, x.id));
        VisitDistinct(s, seen + {x.id} + Ids(under), todo[1..]);
        DistinctConcat([x], under);
        IdsConcat([x], under);
        DistinctConcat([x] + under, rest);
      }
    }
  }

  /** Everything on the work list, and every step of a visited node, is visited
      or was seen before. */
  lemma {:induction false} VisitClosed(s: Snapshot, seen: set<Id>, todo: seq<Issue>)
    requires Ids(todo) <= StepIds(s)
    ensures Ids(todo) <= seen + Ids(Visit(s, seen, todo))
    ensures forall x, y :: x in Ids(Visit(s, seen, todo)) && (x, y) in Parenthood(s) ==> y in seen + Ids(Visit(s, seen, todo))
    decreases StepIds(s) - seen, |todo|
  {
    hide Parenthood;
    if todo != [] {
      var x := todo[0];
      assert x.id in Ids(todo) && Ids(todo) == {x.id} + Ids(todo[1..]);
      if x.id in seen {
        VisitClosed(s, seen, todo[1..]);
      } else {
        VisitFirst(s, seen, todo);
        StepEdge(s, x.id);
        var under := Visit(s, seen + {x.id}, Steps(s, x.id));
        VisitClosed(s, seen + {x.id}, Steps(s, x.id));
        VisitClosed(s, seen + {x.id} + Ids(under), todo[1..]);
      }
    }
  }

  /** Steps to nodes not yet seen. */
  ghost function Fresh(s: Snapshot, seen: set<Id>): Relation {
    set e | e in Parenthood(s) && e.1 !in seen
  }

  lemma FreshShrinks(s: Snapshot, seen: set<Id>, more: set<Id>, a: Id, b: Id)
    requires seen <= more && Reaches(Fresh(s, more), a, b)
    ensures Reaches(Fresh(s, seen), a, b)
  {
    var p :| PathFrom(Fresh(s, more), p, a, b);
    assert PathFrom(Fresh(s, seen), p, a, b);
  }

  /** y is met from an unseen entry of the work list through unseen nodes. */
  ghost predicate Found(s: Snapshot, seen: set<Id>, todo: seq<Issue>, y: Id) {
    exists x :: x in todo && x.id !in seen && Reaches(Fresh(s, seen), x.id, y)
  }

  lemma {:induction false} VisitFinds(s: Snapshot, seen: set<Id>, todo: seq<Issue>, y: Id)
    requires Ids(todo) <= StepIds(s) && y in Ids(Visit(s, seen, todo))
    ensures Found(s, seen, todo, y)
    decreases StepIds(s) - seen, |todo|
  {
    var x := todo[0];
    assert x.id in Ids(todo) && Ids(todo[1..]) <= Ids(todo);
    if x.id in seen {
      VisitFinds(s, seen, todo[1..], y);
    } else {
      VisitFirst(s, seen, todo);
      var under := Visit(s, seen + {x.id}, Steps(s, x.id));
      if y == x.id {
        ReachesSelf(Fresh(s, seen), y);
      } else if y in Ids(under) {
        VisitFinds(s, seen + {x.id}, Steps(s, x.id), y);
        var z :| z in Steps(s, x.id) && z.id !in seen + {x.id} && Reaches(Fresh(s, seen + {x.id}), z.id, y);
        StepEdge(s, x.id);
        ReachesEdge(Fresh(s, seen), x.id, z.id);
        FreshShrinks(s, seen, seen + {x.id}, z.id, y);
        ReachesTransitive(Fresh(s, seen), x.id, z.id, y);
      } else {
        var later := seen + {x.id} + Ids(under);
        VisitFinds(s, later, todo[1..], y);
        var z :| z in todo[1..] && z.id !in later && Reaches(Fresh(s, later), z.id, y);
        FreshShrinks(s, seen, later, z.id, y);
      }
    }
  }

  /** The depth-first law: a visit lists exactly the nodes reachable, from
      unseen entries of the work list, through nodes not seen before. */
  lemma VisitExact(s: Snapshot, seen: set<Id>, todo: seq<Issue>)
    requires Ids(todo) <= StepIds(s)
    ensures forall y :: y in Ids(Visit(s, seen, todo)) <==> Found(s, seen, todo, y)
  {
    var r := Ids(Visit(s, seen, todo));
    forall y | y in r ensures Found(s, seen, todo, y) {
      VisitFinds(s, seen, todo, y);
    }
    forall y | Found(s, seen, todo, y) ensures y in r {
      var x :| x in todo && x.id !in seen && Reaches(Fresh(s, seen), x.id, y);
      VisitClosed(s, seen, todo);
      assert x.id in Ids(todo);
      ReachesInto(Fresh(s, seen), r, x.id, y);
    }
  }

  // ---- depth-first pre-order ----

  /** The nodes from position i up to j are exactly node i and what can be
      reached from it without passing through anything listed earlier. */
  ghost predicate Block(s: Snapshot, seen: set<Id>, r: seq<Issue>, i: nat, j: nat) {
    i < j <= |r| && forall y :: y in Ids(r[i..j]) <==> Reaches(Fresh(s, seen + Ids(r[..i])), r[i].id, y)
  }

  lemma FirstBlock(s: Snapshot, seen: set<Id>, x: Issue)
    requires x.id in StepIds(s) && x.id !in seen
    ensures Ids(Steps(s, x.id)) <= StepIds(s)
    ensures forall y :: y in Ids([x] + Visit(s, seen + {x.id}, Steps(s, x.id))) <==> Reaches(Fresh(s, seen), x.id, y)
  {
    assert Ids([x]) == {x.id};
    VisitFirst(s, seen, [x]);
    VisitExact(s, seen, [x]);
    var under := Visit(s, seen + {x.id}, Steps(s, x.id));
    assert [x][1..] == [];
    assert [x] + under + [] == [x] + under;
    forall y ensures Found(s, seen, [x], y) <==> Reaches(Fresh(s, seen), x.id, y) {
      assert x in [x];
    }
  }

  /** A block of a part is a block of the whole. */
  lemma BlockInside(s: Snapshot, seen: set<Id>, before: seq<Issue>, part: seq<Issue>, after: seq<Issue>, i: nat, j: nat)
    requires Block(s, seen + Ids(before), part, i, j)
    ensures Block(s, seen, before + part + after, |before| + i, |before| + j)
  {
    var r := before + part + after;
    assert r[|before| + i..|before| + j] == part[i..j];
    assert r[..|before| + i] == before + part[..i];
    IdsConcat(before, part[..i]);
    assert seen + Ids(r[..|before| + i]) == seen + Ids(before) + Ids(part[..i]);
  }

  /** A visit lists nodes in depth-first pre-order: each node is followed
      directly by everything first reached through it. */
  lemma {:induction false} VisitPreOrder(s: Snapshot, seen: set<Id>, todo: seq<Issue>, i: nat) returns (j: nat)
    requires Ids(todo) <= StepIds(s) && i < |Visit(s, seen, todo)|
    ensures Block(s, seen, Visit(s, seen, todo), i, j)
    decreases StepIds(s) - seen, |todo|, 1
  {
    assert todo != [];
    hide Block;
    var x := todo[0];
    assert x.id in Ids(todo) && Ids(todo[1..]) <= Ids(todo);
    if x.id in seen {
      j := VisitPreOrder(s, seen, todo[1..], i);
    } else if i == 0 {
      hide Visit;
      VisitFirst(s, seen, todo);
      var under := Visit(s, seen + {x.id}, Steps(s, x.id));
      WholeBlock(s, seen, x, Visit(s, seen + {x.id} + Ids(under), todo[1..]));
      j := 1 + |under|;
    } else {
      j := PreOrderLater(s, seen, todo, i);
    }
  }

  lemma {:induction false} PreOrderLater(s: Snapshot, seen: set<Id>, todo: seq<Issue>, i: nat) returns (j: nat)
    requires Ids(todo) <= StepIds(s) && 0 < i < |Visit(s, seen, todo)|
    requires todo != [] && todo[0].id !in seen && todo[0].id in StepIds(s)
    ensures Block(s, seen, Visit(s, seen, todo), i, j)
    decreases StepIds(s) - seen, |todo|, 0
  {
    hide Block, Visit, Steps;
    var x := todo[0];
    VisitFirst(s, seen, todo);
    var under := Visit(s, seen + {x.id}, Steps(s, x.id));
    var rest := Visit(s, seen + {x.id} + Ids(under), todo[1..]);
    if i <= |under| {
      var k := VisitPreOrder(s, seen + {x.id}, Steps(s, x.id), i - 1);
      j := 1 + k;
      BlockUnder(s, seen, x, under, rest, i - 1, k);
    } else {
      var k := VisitPreOrder(s, seen + {x.id} + Ids(under), todo[1..], i - 1 - |under|);
      j := 1 + |under| + k;
      BlockAfter(s, seen, x, under, rest, i - 1 - |under|, k);
    }
  }

  lemma BlockUnder(s: Snapshot, seen: set<Id>, x: Issue, under: seq<Issue>, rest: seq<Issue>, i: nat, j: nat)
    requires Block(s, seen + {x.id}, under, i, j)
    ensures Block(s, seen, [x] + under + rest, 1 + i, 1 + j)
  {
    assert Ids([x]) == {x.id};
    hide Block;
    BlockInside(s, seen, [x], under, rest, i, j);
  }

  lemma BlockAfter(s: Snapshot, seen: set<Id>, x: Issue, under: seq<Issue>, rest: seq<Issue>, i: nat, j: nat)
    requires Block(s, seen + {x.id} + Ids(under), rest, i, j)
    ensures Block(s, seen, [x] + under + rest, 1 + |under| + i, 1 + |under| + j)
  {
    assert Ids([x]) == {x.id};
    IdsConcat([x], under);
    hide Block;
    assert seen + Ids([x] + under) == seen + {x.id} + Ids(under);
    BlockInside(s, seen, [x] + under, rest, [], i, j);
    assert ([x] + under) + rest + [] == ([x] + under) + rest;
  }

  lemma WholeBlock(s: Snapshot, seen: set<Id>, x: Issue, rest: seq<Issue>)
    requires x.id in StepIds(s) && x.id !in seen
    ensures Ids(Steps(s, x.id)) <= StepIds(s)
    ensures var under := Visit(s, seen + {x.id}, Steps(s, x.id));
            Block(s, seen, [x] + under + rest, 0, 1 + |under|)
  {
    FirstBlock(s, seen, x);
    var under := Visit(s, seen + {x.id}, Steps(s, x.id));
    var r := [x] + under + rest;
    assert r[0..1 + |under|] == [x] + under;
    assert r[..0] == [] && seen + Ids([]) == seen;
  }

  // ---- loading ----

  /** A molecule being loaded. */
  class MoleculeGraph {
    const root: Issue
    var issues: seq<Issue>
    var index: map<Id, Issue>

    constructor (root: Issue)
      ensures this.root == root && issues == [root] && index == map[root.id := root]
    {
      this.root := root;
      issues, index := [root], map[root.id := root];
    }

    ghost predicate Valid()
      reads this
    {
      && index.Keys == Ids(issues)
      && forall x :: x in issues ==> x.id in index && index[x.id] == x
    }

    /** Append a node not yet indexed. */
    method Add(x: Issue)
      requires Valid() && x.id !in index
      modifies this
      ensures Valid() && issues == old(issues) + [x] && index.Keys == old(index).Keys + {x.id}
    {
      IdsConcat(issues, [x]);
      issues := issues + [x];
      index := index[x.id := x];
    }
  }

  /** Append every step under a node that is not in the graph yet, each
      directly followed by its own. */
  method LoadChildren(g: MoleculeGraph, s: Snapshot, p: Id)
    requires g.Valid() && Ids(Steps(s, p)) <= StepIds(s)
    modifies g
    ensures g.Valid() && g.issues == old(g.issues) + Visit(s, old(g.index).Keys, Steps(s, p))
    decreases StepIds(s) - g.index.Keys
  {
    if p !in s.inbound {
      assert g.issues == g.issues + [];
      return;
    }
    var children := s.inbound[p];
    ghost var all := g.issues + Visit(s, g.index.Keys, Steps(s, p));
    var i := 0;
    while i < |children|
      invariant 0 <= i <= |children| && g.Valid() && old(g.index).Keys <= g.index.Keys
      invariant Ids(StepsOf(children[i..])) <= StepIds(s)
      invariant g.issues + Visit(s, g.index.Keys, StepsOf(children[i..])) == all
    {
      var child := children[i];
      ghost var todo := StepsOf(children[i..]);
      assert children[i..][1..] == children[i + 1..];
      i := i + 1;
      if !IsStep(child) {
        continue;
      }
      assert todo == [child.issue] + StepsOf(children[i..]);
      assert todo[1..] == StepsOf(children[i..]);
      assert child.issue.id in Ids(todo) && Ids(todo[1..]) <= Ids(todo);
      if child.issue.id in g.index {
        continue;
      }
      VisitFirst(s, g.index.Keys, todo);
      ghost var issues0, keys0 := g.issues, g.index.Keys;
      g.Add(child.issue);
      LoadChildren(g, s, child.issue.id);
      LoadedOne(s, issues0, keys0, todo, g.issues);
    }
    assert children[i..] == [];
    assert g.issues + [] == g.issues;
  }

  /** Loading the first entry of a work list leaves the rest of the visit. */
  lemma LoadedOne(s: Snapshot, issues: seq<Issue>, keys: set<Id>, todo: seq<Issue>, after: seq<Issue>)
    requires Ids(todo) <= StepIds(s) && todo != [] && todo[0].id !in keys && keys == Ids(issues)
    requires Ids(Steps(s, todo[0].id)) <= StepIds(s) && Ids(todo[1..]) <= StepIds(s)
    requires after == issues + [todo[0]] + Visit(s, keys + {todo[0].id}, Steps(s, todo[0].id))
    ensures Ids(after) == keys + {todo[0].id} + Ids(Visit(s, keys + {todo[0].id}, Steps(s, todo[0].id)))
    ensures after + Visit(s, Ids(after), todo[1..]) == issues + Visit(s, keys, todo)
  {
    VisitFirst(s, keys, todo);
    var under := Visit(s, keys + {todo[0].id}, Steps(s, todo[0].id));
    var rest := Visit(s, keys + {todo[0].id} + Ids(under), todo[1..]);
    hide Visit;
    IdsConcat(issues, [todo[0]]);
    IdsConcat(issues + [todo[0]], under);
    assert Ids([todo[0]]) == {todo[0].id};
    Assoc(issues, [todo[0]], under);
    Assoc(issues, [todo[0]] + under, rest);
  }

  /** The edges of the listed nodes, in order, that stay among them. */
  function EdgesWithin(s: Snapshot, nodes: seq<Issue>, keys: set<Id>): seq<Dependency> {
    if nodes == [] then []
    else Inside(if nodes[0].id in s.outbound then s.outbound[nodes[0].id] else [], keys) + EdgesWithin(s, nodes[1..], keys)
  }

  function Inside(ds: seq<Dependency>, keys: set<Id>): (r: seq<Dependency>)
    ensures forall d :: d in r <==> d in ds && d.dependsOn in keys
  {
    if ds == [] then []
    else if ds[0].dependsOn in keys then [ds[0]] + Inside(ds[1..], keys)
    else Inside(ds[1..], keys)
  }

  /** The edges within a molecule are those its nodes record whose targets are
      nodes too. */
  lemma {:induction false} EdgesExactly(s: Snapshot, nodes: seq<Issue>, keys: set<Id>, d: Dependency)
    ensures d in EdgesWithin(s, nodes, keys)
       <==> d.dependsOn in keys && exists x :: x in nodes && x.id in s.outbound && d in s.outbound[x.id]
  {
    if nodes != [] {
      EdgesExactly(s, nodes[1..], keys, d);
      assert forall x :: x in nodes <==> x == nodes[0] || x in nodes[1..];
    }
  }

  lemma {:induction false} EdgesWithinSnoc(s: Snapshot, nodes: seq<Issue>, x: Issue, keys: set<Id>)
    ensures EdgesWithin(s, nodes + [x], keys) ==
            EdgesWithin(s, nodes, keys) + Inside(if x.id in s.outbound then s.outbound[x.id] else [], keys)
  {
    var last := Inside(if x.id in s.outbound then s.outbound[x.id] else [], keys);
    if nodes == [] {
      assert nodes + [x] == [x];
      assert EdgesWithin(s, [x][1..], keys) == [];
    } else {
      hide Inside;
      EdgesWithinSnoc(s, nodes[1..], x, keys);
      SnocTail(nodes, x);
      Assoc(Inside(if nodes[0].id in s.outbound then s.outbound[nodes[0].id] else [], keys), EdgesWithin(s, nodes[1..], keys), last);
    }
  }

  lemma {:induction false} InsideSnoc(ds: seq<Dependency>, d: Dependency, keys: set<Id>)
    ensures Inside(ds + [d], keys) == if d.dependsOn in keys then Inside(ds, keys) + [d] else Inside(ds, keys)
  {
    if ds == [] {
      assert ds + [d] == [d];
    } else {
      InsideSnoc(ds[1..], d, keys);
      SnocTail(ds, d);
      Assoc([ds[0]], Inside(ds[1..], keys), if d.dependsOn in keys then [d] else []);
    }
  }

  /** Load the molecule rooted at an id; a root that names nothing is the one
      refusal. */
  method LoadMolecule(s: Snapshot, rootId: Id) returns (g: MoleculeGraph?, deps: seq<Dependency>)
    requires s.Consistent()
    ensures g == null <==> rootId !in s.issues
    ensures g != null ==>
              && fresh(g) && g.Valid() && g.root == s.issues[rootId]
              && Ids(Steps(s, rootId)) <= StepIds(s)
              && g.issues == [g.root] + Visit(s, {rootId}, Steps(s, rootId))
              && deps == EdgesWithin(s, g.issues, Ids(g.issues))
  {
    if rootId !in s.issues {
      return null, [];
    }
    g := new MoleculeGraph(s.issues[rootId]);
    StepEdge(s, rootId);
    assert Ids([g.root]) == {rootId};
    LoadChildren(g, s, rootId);
    deps := LoadEdges(s, g.issues, g.index);
  }

  method LoadEdges(s: Snapshot, issues: seq<Issue>, index: map<Id, Issue>) returns (deps: seq<Dependency>)
    ensures deps == EdgesWithin(s, issues, index.Keys)
  {
    deps := [];
    var i := 0;
    while i < |issues|
      invariant 0 <= i <= |issues| && deps == EdgesWithin(s, issues[..i], index.Keys)
    {
      var x := issues[i];
      EdgesWithinSnoc(s, issues[..i], x, index.Keys);
      assert issues[..i + 1] == issues[..i] + [x];
      var kept := KeepInside(if x.id in s.outbound then s.outbound[x.id] else [], index);
      deps := deps + kept;
      i := i + 1;
    }
    assert issues[..i] == issues;
  }

  lemma InsideNothing(ds: seq<Dependency>, keys: set<Id>)
    ensures Inside(ds[..0], keys) == []
  {
  }

  method KeepInside(edges: seq<Dependency>, index: map<Id, Issue>) returns (kept: seq<Dependency>)
    ensures kept == Inside(edges, index.Keys)
  {
    hide Inside;
    kept := [];
    InsideNothing(edges, index.Keys);
    var j := 0;
    while j < |edges|
      invariant 0 <= j <= |edges| && kept == Inside(edges[..j], index.Keys)
    {
      InsideSnoc(edges[..j], edges[j], index.Keys);
      assert edges[..j + 1] == edges[..j] + [edges[j]];
      if edges[j].dependsOn in index {
        kept := kept + [edges[j]];
      }
      j := j + 1;
    }
    assert edges[..j] == edges;
  }

  /** The whole list a load answers. */
  ghost function Loaded(s: Snapshot, rootId: Id): seq<Issue>
    requires rootId in s.issues && Ids(Steps(s, rootId)) <= StepIds(s)
  {
    [s.issues[rootId]] + Visit(s, {rootId}, Steps(s, rootId))
  }

  /** A load answers exactly the root and its descendants, each once. */
  lemma LoadedExactly(s: Snapshot, rootId: Id)
    requires s.Consistent() && rootId in s.issues
    ensures Ids(Steps(s, rootId)) <= StepIds(s)
    ensures DistinctIds(Loaded(s, rootId))
    ensures forall y :: y in Ids(Loaded(s, rootId)) <==> Reaches(Parenthood(s), rootId, y)
  {
    StepEdge(s, rootId);
    var rest := Visit(s, {rootId}, Steps(s, rootId));
    VisitDistinct(s, {rootId}, Steps(s, rootId));
    assert Ids([s.issues[rootId]]) == {rootId};
    DistinctConcat([s.issues[rootId]], rest);
    IdsConcat([s.issues[rootId]], rest);
    LoadedReachable(s, rootId);
  }

  lemma LoadedReachable(s: Snapshot, rootId: Id)
    requires Ids(Steps(s, rootId)) <= StepIds(s)
    ensures forall y :: y in {rootId} + Ids(Visit(s, {rootId}, Steps(s, rootId))) <==> Reaches(Parenthood(s), rootId, y)
  {
    forall y ensures y in {rootId} + Ids(Visit(s, {rootId}, Steps(s, rootId))) <==> Reaches(Parenthood(s), rootId, y) {
      if y in Ids(Visit(s, {rootId}, Steps(s, rootId))) {
        LoadedIsReached(s, rootId, y);
      } else if y == rootId {
        ReachesSelf(Parenthood(s), rootId);
      } else if Reaches(Parenthood(s), rootId, y) {
        ReachedIsLoaded(s, rootId, y);
      }
    }
  }

  lemma ReachedIsLoaded(s: Snapshot, rootId: Id, y: Id)
    requires Ids(Steps(s, rootId)) <= StepIds(s) && Reaches(Parenthood(s), rootId, y)
    ensures y in {rootId} + Ids(Visit(s, {rootId}, Steps(s, rootId)))
  {
    StepEdge(s, rootId);
    hide Parenthood, Visit, Steps;
    VisitClosed(s, {rootId}, Steps(s, rootId));
    ReachesInto(Parenthood(s), {rootId} + Ids(Visit(s, {rootId}, Steps(s, rootId))), rootId, y);
  }

  lemma LoadedIsReached(s: Snapshot, rootId: Id, y: Id)
    requires Ids(Steps(s, rootId)) <= StepIds(s) && y in Ids(Visit(s, {rootId}, Steps(s, rootId)))
    ensures Reaches(Parenthood(s), rootId, y)
  {
    var e := Parenthood(s);
    hide Parenthood, Visit, Steps;
    VisitFinds(s, {rootId}, Steps(s, rootId), y);
    var x :| x in Steps(s, rootId) && x.id !in {rootId} && Reaches(Fresh(s, {rootId}), x.id, y);
    var p :| PathFrom(Fresh(s, {rootId}), p, x.id, y);
    assert PathFrom(e, p, x.id, y);
    StepEdge(s, rootId);
    ReachesEdge(e, rootId, x.id);
    ReachesTransitive(e, rootId, x.id, y);
  }

  /** The whole list, root included, is in depth-first pre-order. */
  lemma LoadedPreOrder(s: Snapshot, rootId: Id, i: nat) returns (j: nat)
    requires s.Consistent() && rootId in s.issues && Ids(Steps(s, rootId)) <= StepIds(s)
    requires 0 < i < |Loaded(s, rootId)|
    ensures Block(s, {}, Loaded(s, rootId), i, j)
  {
    var root, rest := s.issues[rootId], Visit(s, {rootId}, Steps(s, rootId));
    var k := VisitPreOrder(s, {rootId}, Steps(s, rootId), i - 1);
    j := 1 + k;
    assert {} + {root.id} == {rootId};
    BlockUnder(s, {}, root, rest, [], i - 1, k);
    assert [root] + rest + [] == Loaded(s, rootId);
  }

  // ---- completeness without loading ----

  /** Every descendant of the root is closed. */
  ghost predicate AllClosed(s: Snapshot, rootId: Id) {
    forall y :: Reaches(Parenthood(s), rootId, y) && y != rootId ==> y in s.issues && s.issues[y].status == Closed
  }


  /** The state of the walk: everything seen is reached and, but for the root,
      closed; every step of a node that is not pending has been seen. */
  ghost predicate Walk(s: Snapshot, rootId: Id, seen: set<Id>, pending: seq<Id>) {
    && rootId in seen && seen <= StepIds(s) + {rootId}
    && (forall y :: y in pending ==> y in seen)
    && (forall y :: y in seen ==> Reaches(Parenthood(s), rootId, y))
    && (forall y :: y in seen && y != rootId ==> y in s.issues && s.issues[y].status == Closed)
    && (forall x, y :: x in seen && x !in pending && (x, y) in Parenthood(s) ==> y in seen)
  }

  lemma WalkStart(s: Snapshot, rootId: Id)
    ensures Walk(s, rootId, {rootId}, [rootId])
  {
    ReachesSelf(Parenthood(s), rootId);
  }

  lemma WalkPush(s: Snapshot, rootId: Id, seen: set<Id>, pending: seq<Id>, parent: Id, y: Id)
    requires Walk(s, rootId, seen, pending + [parent]) && (parent, y) in Parenthood(s)
    requires y in s.issues && s.issues[y].status == Closed && y in StepIds(s)
    ensures Walk(s, rootId, seen + {y}, (pending + [y]) + [parent])
  {
    hide Parenthood, StepIds;
    assert parent in pending + [parent];
    ReachesEdge(Parenthood(s), parent, y);
    ReachesTransitive(Parenthood(s), rootId, parent, y);
    assert forall x :: x in (pending + [y]) + [parent] <==> x in pending + [parent] || x == y;
  }

  lemma WalkPop(s: Snapshot, rootId: Id, seen: set<Id>, pending: seq<Id>, parent: Id)
    requires Walk(s, rootId, seen, pending + [parent])
    requires forall y :: (parent, y) in Parenthood(s) ==> y in seen
    ensures Walk(s, rootId, seen, pending)
  {
    hide Parenthood, StepIds;
    assert forall x :: x in pending + [parent] <==> x in pending || x == parent;
  }

  lemma WalkDone(s: Snapshot, rootId: Id, seen: set<Id>)
    requires Walk(s, rootId, seen, [])
    ensures AllClosed(s, rootId)
  {
    hide Parenthood, StepIds;
    forall y | Reaches(Parenthood(s), rootId, y) && y != rootId ensures y in s.issues && s.issues[y].status == Closed {
      ReachesInto(Parenthood(s), seen, rootId, y);
    }
  }

  lemma WalkRefuted(s: Snapshot, rootId: Id, seen: set<Id>, pending: seq<Id>, parent: Id, y: Id)
    requires Walk(s, rootId, seen, pending + [parent]) && (parent, y) in Parenthood(s)
    requires y !in seen && y in s.issues && s.issues[y].status != Closed
    ensures !AllClosed(s, rootId)
  {
    hide Parenthood, StepIds;
    assert parent in pending + [parent];
    ReachesEdge(Parenthood(s), parent, y);
    ReachesTransitive(Parenthood(s), rootId, parent, y);
  }

  lemma StepsPrefix(s: Snapshot, p: Id, i: nat)
    requires p in s.inbound && i < |s.inbound[p]|
    ensures IsStep(s.inbound[p][i]) ==> (p, s.inbound[p][i].issue.id) in Parenthood(s) && s.inbound[p][i].issue.id in StepIds(s)
  {
    if IsStep(s.inbound[p][i]) {
      StepListed(s.inbound[p], i);
      StepEdge(s, p);
    }
  }

  lemma {:induction false} StepListed(rs: seq<Related>, i: nat)
    requires i < |rs| && IsStep(rs[i])
    ensures rs[i].issue in StepsOf(rs)
  {
    if i > 0 { StepListed(rs[1..], i - 1); }
  }

  lemma EdgeListed(s: Snapshot, p: Id, y: Id) returns (i: nat)
    requires (p, y) in Parenthood(s)
    ensures p in s.inbound && i < |s.inbound[p]| && IsStep(s.inbound[p][i]) && s.inbound[p][i].issue.id == y
  {
    var x :| x in Steps(s, p) && x.id == y;
    i :| 0 <= i < |s.inbound[p]| && IsStep(s.inbound[p][i]) && s.inbound[p][i].issue == x;
  }

  lemma NoSteps(s: Snapshot, p: Id)
    requires p !in s.inbound
    ensures forall y :: (p, y) !in Parenthood(s)
  {
  }

  /** Expand one node: note its unseen steps, or stop at one that is open. */
  method Expand(s: Snapshot, rootId: Id, parent: Id, seen0: set<Id>, pending0: seq<Id>)
      returns (ok: bool, seen: set<Id>, pending: seq<Id>)
    requires s.Consistent() && Walk(s, rootId, seen0, pending0 + [parent])
    ensures !ok ==> !AllClosed(s, rootId)
    ensures ok ==> Walk(s, rootId, seen, pending) && seen0 <= seen && (seen == seen0 ==> pending == pending0)
  {
    hide Walk, Parenthood, AllClosed, StepIds;
    ok, seen, pending := true, seen0, pending0;
    if parent !in s.inbound {
      NoSteps(s, parent);
      WalkPop(s, rootId, seen, pending, parent);
      return;
    }
    var children := s.inbound[parent];
    var i := 0;
    while i < |children|
      invariant 0 <= i <= |children| && seen0 <= seen && (seen == seen0 ==> pending == pending0)
      invariant Walk(s, rootId, seen, pending + [parent])
      invariant forall j :: 0 <= j < i && IsStep(children[j]) ==> children[j].issue.id in seen
    {
      var child := children[i];
      StepsPrefix(s, parent, i);
      if IsStep(child) && child.issue.id !in seen {
        assert child in children;
        if child.issue.status != Closed {
          WalkRefuted(s, rootId, seen, pending, parent, child.issue.id);
          return false, seen, pending;
        }
        WalkPush(s, rootId, seen, pending, parent, child.issue.id);
        seen := seen + {child.issue.id};
        pending := pending + [child.issue.id];
      }
      i := i + 1;
    }
    forall y | (parent, y) in Parenthood(s) ensures y in seen {
      var j := EdgeListed(s, parent, y);
    }
    WalkPop(s, rootId, seen, pending, parent);
  }

  /** A work list of nodes whose steps are still to be looked at. An unclosed
      step settles the answer; no node enters the list twice, so cycles end. */
  method MoleculeStepsClosed(s: Snapshot, rootId: Id) returns (r: bool)
    requires s.Consistent()
    ensures r == AllClosed(s, rootId)
  {
    hide AllClosed, Parenthood, StepIds;
    var seen := {rootId};
    var pending := [rootId];
    WalkStart(s, rootId);
    while |pending| > 0
      invariant Walk(s, rootId, seen, pending)
      decreases (StepIds(s) + {rootId}) - seen, |pending|
    {
      var parent := pending[|pending| - 1];
      var rest := pending[..|pending| - 1];
      assert pending == rest + [parent];
      var ok, seen', pending' := Expand(s, rootId, parent, seen, rest);
      if !ok {
        return false;
      }
      WalkSize(s, rootId, seen, seen', pending');
      seen, pending := seen', pending';
    }
    assert pending == [];
    WalkDone(s, rootId, seen);
    return true;
  }

  lemma WalkSize(s: Snapshot, rootId: Id, seen: set<Id>, seen': set<Id>, pending: seq<Id>)
    requires Walk(s, rootId, seen', pending) && seen <= seen'
    ensures seen != seen' ==> (StepIds(s) + {rootId}) - seen > (StepIds(s) + {rootId}) - seen'
  {
  }

  /** Closing at the first open step answers what loading everything and
      counting would. */
  lemma CompleteAgrees(s: Snapshot, rootId: Id)
    requires s.Consistent() && rootId in s.issues && Ids(Steps(s, rootId)) <= StepIds(s)
    ensures AllClosed(s, rootId) <==> forall x :: x in Loaded(s, rootId) && x.id != rootId ==> x.status == Closed
  {
    LoadedExactly(s, rootId);
    LoadedRows(s, rootId);
    var all := Loaded(s, rootId);
    hide Loaded, Parenthood;
    if forall x :: x in all && x.id != rootId ==> x.status == Closed {
      forall y | Reaches(Parenthood(s), rootId, y) && y != rootId ensures y in s.issues && s.issues[y].status == Closed {
        assert y in Ids(all);
        var x :| x in all && x.id == y;
      }
    }
    if AllClosed(s, rootId) {
      forall x | x in all && x.id != rootId ensures x.status == Closed {
        assert x.id in Ids(all);
      }
    }
  }

  /** Loaded rows are the stored rows. */
  lemma LoadedRows(s: Snapshot, rootId: Id)
    requires s.Consistent() && rootId in s.issues && Ids(Steps(s, rootId)) <= StepIds(s)
    ensures forall x :: x in Loaded(s, rootId) ==> x.id in s.issues && s.issues[x.id] == x
  {
    StepsStored(s, rootId);
    VisitStored(s, {rootId}, Steps(s, rootId));
  }

  lemma StepsStored(s: Snapshot, p: Id)
    requires s.Consistent()
    ensures forall x :: x in Steps(s, p) ==> x.id in s.issues && s.issues[x.id] == x
  {
    if p in s.inbound {
      forall x | x in Steps(s, p) ensures x.id in s.issues && s.issues[x.id] == x {
        var i :| 0 <= i < |s.inbound[p]| && IsStep(s.inbound[p][i]) && s.inbound[p][i].issue == x;
        assert s.inbound[p][i] in s.inbound[p];
      }
    }
  }

  lemma {:induction false} VisitStored(s: Snapshot, seen: set<Id>, todo: seq<Issue>)
    requires s.Consistent() && Ids(todo) <= StepIds(s)
    requires forall x :: x in todo ==> x.id in s.issues && s.issues[x.id] == x
    ensures forall x :: x in Visit(s, seen, todo) ==> x.id in s.issues && s.issues[x.id] == x
    decreases StepIds(s) - seen, |todo|
  {
    if todo != [] {
      var x := todo[0];
      assert x.id in Ids(todo) && Ids(todo[1..]) <= Ids(todo);
      if x.id in seen {
        VisitStored(s, seen, todo[1..]);
      } else {
        VisitFirst(s, seen, todo);
        StepsStored(s, x.id);
        var under := Visit(s, seen + {x.id}, Steps(s, x.id));
        VisitStored(s, seen + {x.id}, Steps(s, x.id));
        VisitStored(s, seen + {x.id} + Ids(under), todo[1..]);
      }
    }
  }

  // ---- what the analysis is given ----

  function IdList(issues: seq<Issue>): (ids: seq<Id>)
    ensures |ids| == |issues| && forall i :: 0 <= i < |ids| ==> ids[i] == issues[i].id
  {
    seq(|issues|, i requires 0 <= i < |issues| => issues[i].id)
  }

  /** The loaded graph as the analysis sees it. */
  ghost function AsMolecule(s: Snapshot, rootId: Id): Molecule
    requires s.Consistent() && rootId in s.issues && Ids(Steps(s, rootId)) <= StepIds(s)
  {
    var nodes := Loaded(s, rootId);
    Molecule(rootId, IdList(nodes), map x | x in Ids(nodes) && x in s.issues :: s.issues[x].status,
             EdgesWithin(s, nodes, Ids(nodes)))
  }

  lemma IdListMembers(issues: seq<Issue>)
    ensures forall x :: x in IdList(issues) <==> x in Ids(issues)
  {
    forall x ensures x in IdList(issues) <==> x in Ids(issues) {
      if x in Ids(issues) {
        var i :| 0 <= i < |issues| && issues[i].id == x;
        assert IdList(issues)[i] == x;
      }
    }
  }

  /** Every loaded molecule is one the analysis accepts: its root first, its
      nodes distinct, a status for each. */
  lemma LoadedIsMolecule(s: Snapshot, rootId: Id)
    requires s.Consistent() && rootId in s.issues && Ids(Steps(s, rootId)) <= StepIds(s)
    ensures AsMolecule(s, rootId).WellFormed() && AsMolecule(s, rootId).ids[0] == rootId
    ensures forall x :: x in AsMolecule(s, rootId).ids <==> Reaches(Parenthood(s), rootId, x)
  {
    hide Visit, Parenthood, Loaded, Ids, IdList, Steps, StepIds, EdgesWithin, DistinctIds, Distinct;
    var nodes := Loaded(s, rootId);
    LoadedRoot(s, rootId);
    LoadedExactly(s, rootId);
    IdListMembers(nodes);
    IdListDistinct(nodes);
    LoadedStored(s, rootId);
    assert IdList(nodes)[0] == rootId;
  }

  lemma IdListDistinct(issues: seq<Issue>)
    requires DistinctIds(issues)
    ensures Distinct(IdList(issues))
  {
  }

  lemma LoadedRoot(s: Snapshot, rootId: Id)
    requires s.Consistent() && rootId in s.issues && Ids(Steps(s, rootId)) <= StepIds(s)
    ensures var nodes := Loaded(s, rootId); nodes != [] && nodes[0].id == rootId
  {
    hide Visit;
  }

  lemma LoadedStored(s: Snapshot, rootId: Id)
    requires s.Consistent() && rootId in s.issues && Ids(Steps(s, rootId)) <= StepIds(s)
    ensures forall x :: x in Ids(Loaded(s, rootId)) ==> x in s.issues
  {
    hide Loaded;
    LoadedRows(s, rootId);
  }
}
