/** A loaded molecule: its nodes, their statuses and the edges between them,
    and what the readiness rules make of one. */
module Molecules {
  import opened Graphs

  datatype Status = Open | InProgress | Blocked | Closed | Other(name: string)

  datatype DependencyType = DepBlocks | DepConditionalBlocks | DepWaitsFor | DepParentChild | DepOther(name: string)

  /** When a waits-for gate opens. */
  datatype Gate = AllChildren | AnyChildren

  /** The issue depends on dependsOn; the gate matters only for waits-for. */
  datatype Dependency = Dependency(issue: Id, dependsOn: Id, kind: DependencyType, gate: Gate)

  datatype Molecule = Molecule(root: Id, ids: seq<Id>, status: map<Id, Status>, deps: seq<Dependency>)
  {
    ghost predicate WellFormed() {
      && root in ids
      && Distinct(ids)
      && forall x :: x in status <==> x in ids
    }

    /** A node of this molecule that is not closed. */
    predicate Live(x: Id) { x in status && status[x] != Closed }

    function Unclosed(): set<Id> { set x | x in status && status[x] != Closed }
  }

  /** The parent-child children of a node, as the molecule's edges give them. */
  function ChildrenOf(m: Molecule, parent: Id): set<Id> {
    set d | d in m.deps && d.kind == DepParentChild && d.dependsOn == parent :: d.issue
  }

  /** The nodes one edge makes its issue wait on. A waits-for gate waits on the
      live children of its target, unless it needs only one closed child and
      has one. */
  function BlockersOf(m: Molecule, d: Dependency): set<Id> {
    match d.kind
    case DepBlocks => {d.dependsOn}
    case DepConditionalBlocks => {d.dependsOn}
    case DepWaitsFor =>
      if d.gate == AnyChildren && AnyClosed(m, ChildrenOf(m, d.dependsOn)) then {}
      else set c | c in ChildrenOf(m, d.dependsOn) && m.Live(c)
    case _ => {}
  }

  predicate AnyClosed(m: Molecule, ids: set<Id>) {
    exists c :: c in ids && c in m.status && m.status[c] == Closed
  }

  /** Everything x waits on, closed blockers included. */
  function BlockedBy(m: Molecule, x: Id): set<Id> {
    set d, b | d in m.deps && d.issue == x && b in BlockersOf(m, d) :: b
  }

  /** Everything that waits on b. */
  function Blocks(m: Molecule, b: Id): set<Id> {
    set d | d in m.deps && b in BlockersOf(m, d) :: d.issue
  }

  function OpenBlockers(m: Molecule, x: Id): set<Id> {
    set b | b in BlockedBy(m, x) && m.Live(b)
  }

  predicate Ready(m: Molecule, x: Id) {
    x in m.status && (m.status[x] == Open || m.status[x] == InProgress) && OpenBlockers(m, x) == {}
  }

  // ---- readiness in terms of statuses and edges ----

  /** The edges make c a child of p. */
  ghost predicate IsChild(m: Molecule, p: Id, c: Id) {
    exists e :: e in m.deps && e.kind == DepParentChild && e.issue == c && e.dependsOn == p
  }

  ghost predicate LiveChild(m: Molecule, p: Id) { exists c :: IsChild(m, p, c) && c in m.status && m.status[c] != Closed }

  ghost predicate ClosedChild(m: Molecule, p: Id) { exists c :: IsChild(m, p, c) && c in m.status && m.status[c] == Closed }

  /** The edge holds its issue back: a blocking edge while its target is not
      closed, an all-children gate while some child is not closed, an
      any-children gate while some child is not closed and none is. */
  ghost predicate HoldsBack(m: Molecule, d: Dependency) {
    match d.kind
    case DepBlocks => d.dependsOn in m.status && m.status[d.dependsOn] != Closed
    case DepConditionalBlocks => d.dependsOn in m.status && m.status[d.dependsOn] != Closed
    case DepWaitsFor =>
      (match d.gate
       case AllChildren => LiveChild(m, d.dependsOn)
       case AnyChildren => LiveChild(m, d.dependsOn) && !ClosedChild(m, d.dependsOn))
    case DepParentChild => false
    case DepOther(_) => false
  }

  lemma ChildrenAre(m: Molecule, p: Id)
    ensures forall c :: c in ChildrenOf(m, p) <==> IsChild(m, p, c)
  {
  }

  /** The nodes an edge names as blockers: the target of a blocking edge, closed
      or not; the live children behind a gate that holds back. */
  ghost predicate Names(m: Molecule, d: Dependency, b: Id) {
    match d.kind
    case DepBlocks => b == d.dependsOn
    case DepConditionalBlocks => b == d.dependsOn
    case DepWaitsFor => HoldsBack(m, d) && IsChild(m, d.dependsOn, b) && m.Live(b)
    case DepParentChild => false
    case DepOther(_) => false
  }

  lemma BlockersAre(m: Molecule, d: Dependency, b: Id)
    ensures b in BlockersOf(m, d) <==> Names(m, d, b)
  {
    hide ChildrenOf, IsChild;
    ChildrenAre(m, d.dependsOn);
  }

  /** Some edge of x names b. */
  ghost predicate Recorded(m: Molecule, x: Id, b: Id) { exists d :: d in m.deps && d.issue == x && Names(m, d, b) }

  /** The recorded blockers of a node are those its edges name. */
  lemma BlockedByMeans(m: Molecule, x: Id, b: Id)
    ensures b in BlockedBy(m, x) <==> Recorded(m, x, b)
  {
    hide BlockersOf, Names;
    forall d ensures b in BlockersOf(m, d) <==> Names(m, d, b) { BlockersAre(m, d, b); }
  }

  /** An edge holds its issue back exactly when it names a live node. */
  lemma HoldsBackMeans(m: Molecule, d: Dependency)
    ensures HoldsBack(m, d) <==> exists b :: Names(m, d, b) && m.Live(b)
  {
    hide IsChild;
    if HoldsBack(m, d) {
      if d.kind == DepWaitsFor {
        var c :| IsChild(m, d.dependsOn, c) && c in m.status && m.status[c] != Closed;
        assert Names(m, d, c) && m.Live(c);
      } else {
        assert Names(m, d, d.dependsOn) && m.Live(d.dependsOn);
      }
    }
  }

  /** A node that is open or in progress and that no edge of its own holds back. */
  ghost predicate CanStart(m: Molecule, x: Id) {
    && x in m.status && (m.status[x] == Open || m.status[x] == InProgress)
    && forall d :: d in m.deps && d.issue == x ==> !HoldsBack(m, d)
  }

  lemma ReadyMeans(m: Molecule, x: Id)
    ensures Ready(m, x) <==> CanStart(m, x)
  {
    hide BlockedBy, HoldsBack, Names;
    if OpenBlockers(m, x) != {} {
      var b :| b in OpenBlockers(m, x);
      BlockedByMeans(m, x, b);
      var d :| d in m.deps && d.issue == x && Names(m, d, b);
      HoldsBackMeans(m, d);
    }
    forall d | d in m.deps && d.issue == x && HoldsBack(m, d) ensures OpenBlockers(m, x) != {} {
      HoldsBackMeans(m, d);
      var b :| Names(m, d, b) && m.Live(b);
      BlockedByMeans(m, x, b);
      assert b in OpenBlockers(m, x);
    }
  }

  /** The open-blocker relation: x waits on b, and b is not closed. */
  function Waiting(m: Molecule): Relation {
    set x, b | x in m.status && b in OpenBlockers(m, x) :: (x, b)
  }

  /** The molecule of these open nodes in which the first of each pair waits on
      the second. */
  function Plain(ids: seq<Id>, edges: seq<(Id, Id)>): Molecule
    requires ids != []
  {
    Molecule(ids[0], ids, map x | x in ids :: Open,
             seq(|edges|, i requires 0 <= i < |edges| => Dependency(edges[i].0, edges[i].1, DepBlocks, AllChildren)))
  }

  lemma PlainBlockers(ids: seq<Id>, edges: seq<(Id, Id)>, x: Id, b: Id)
    requires ids != []
    ensures b in BlockedBy(Plain(ids, edges), x) <==> (x, b) in edges
  {
    var m := Plain(ids, edges);
    if (x, b) in edges {
      var i :| 0 <= i < |edges| && edges[i] == (x, b);
      assert m.deps[i] in m.deps && b in BlockersOf(m, m.deps[i]);
    }
  }

  // ---- closing steps ----

  function Close(m: Molecule, x: Id): Molecule {
    m.(status := m.status[x := Closed])
  }

  function CloseAll(m: Molecule, xs: seq<Id>): Molecule
    decreases xs
  {
    if xs == [] then m else CloseAll(Close(m, xs[0]), xs[1..])
  }

  /** A run: every step is ready when it is closed. */
  predicate Run(m: Molecule, xs: seq<Id>)
    decreases xs
  {
    xs == [] || (Ready(m, xs[0]) && Run(Close(m, xs[0]), xs[1..]))
  }

  lemma CloseWellFormed(m: Molecule, x: Id)
    requires m.WellFormed() && x in m.status
    ensures Close(m, x).WellFormed()
  {
  }

  /** Closing a node adds no blocker anywhere: a closed child can open an
      any-children gate and never shut one. */
  lemma CloseKeepsBlockers(m: Molecule, x: Id, d: Dependency)
    requires x in m.status
    ensures BlockersOf(Close(m, x), d) <= BlockersOf(m, d)
  {
    var n := Close(m, x);
    assert ChildrenOf(n, d.dependsOn) == ChildrenOf(m, d.dependsOn);
    if d.kind == DepWaitsFor && AnyClosed(m, ChildrenOf(m, d.dependsOn)) {
      var c :| c in ChildrenOf(m, d.dependsOn) && c in m.status && m.status[c] == Closed;
      assert c in n.status && n.status[c] == Closed;
    }
  }

  lemma CloseShrinksOpenBlockers(m: Molecule, x: Id, y: Id)
    requires x in m.status
    ensures OpenBlockers(Close(m, x), y) <= OpenBlockers(m, y)
  {
    forall b | b in OpenBlockers(Close(m, x), y) ensures b in OpenBlockers(m, y) {
      var d :| d in m.deps && d.issue == y && b in BlockersOf(Close(m, x), d);
      CloseKeepsBlockers(m, x, d);
    }
  }

  /** Closing any step never makes another ready step unready. */
  lemma CloseKeepsReady(m: Molecule, x: Id, y: Id)
    requires x in m.status && x != y && Ready(m, y)
    ensures Ready(Close(m, x), y)
  {
    CloseShrinksOpenBlockers(m, x, y);
  }

  lemma CloseShrinksWaiting(m: Molecule, x: Id)
    requires x in m.status
    ensures Waiting(Close(m, x)) <= Waiting(m)
  {
    forall y, b | (y, b) in Waiting(Close(m, x)) ensures (y, b) in Waiting(m) {
      CloseShrinksOpenBlockers(m, x, y);
    }
  }

  /** Every unclosed node is open or in progress. */
  predicate Startable(m: Molecule) {
    forall x :: x in m.Unclosed() ==> m.status[x] == Open || m.status[x] == InProgress
  }

  /** While anything is unclosed, something is ready. */
  lemma SomethingIsReady(m: Molecule) returns (x: Id)
    requires Startable(m) && Acyclic(Waiting(m)) && m.Unclosed() != {}
    ensures Ready(m, x)
  {
    x := HasSink(Waiting(m), m.Unclosed());
    assert forall b :: b in OpenBlockers(m, x) ==> (x, b) in Waiting(m) && b in m.Unclosed();
  }

  lemma CloseCounts(m: Molecule, x: Id)
    requires x in m.Unclosed()
    ensures |Close(m, x).Unclosed()| == |m.Unclosed()| - 1
    ensures Startable(m) ==> Startable(Close(m, x))
  {
    assert Close(m, x).Unclosed() == m.Unclosed() - {x};
  }

  /** Each step of a run closes exactly one more node. */
  lemma {:induction false} RunCounts(m: Molecule, xs: seq<Id>)
    requires Run(m, xs)
    ensures |xs| + |CloseAll(m, xs).Unclosed()| == |m.Unclosed()|
    decreases |xs|
  {
    if xs != [] {
      CloseCounts(m, xs[0]);
      RunCounts(Close(m, xs[0]), xs[1..]);
    }
  }

  lemma {:induction false} RunKeepsRules(m: Molecule, xs: seq<Id>)
    requires Run(m, xs) && Startable(m) && Acyclic(Waiting(m))
    ensures Startable(CloseAll(m, xs)) && Acyclic(Waiting(CloseAll(m, xs)))
    decreases |xs|
  {
    if xs != [] {
      CloseCounts(m, xs[0]);
      CloseShrinksWaiting(m, xs[0]);
      SmallerAcyclic(Waiting(m), Waiting(Close(m, xs[0])));
      RunKeepsRules(Close(m, xs[0]), xs[1..]);
    }
  }

  /** Every state of a run is again a molecule the analysis accepts. */
  lemma {:induction false} RunWellFormed(m: Molecule, xs: seq<Id>)
    requires Run(m, xs) && m.WellFormed()
    ensures CloseAll(m, xs).WellFormed()
    decreases |xs|
  {
    if xs != [] {
      CloseWellFormed(m, xs[0]);
      RunWellFormed(Close(m, xs[0]), xs[1..]);
    }
  }

  lemma {:induction false} RunExtends(m: Molecule, xs: seq<Id>, x: Id)
    requires Run(m, xs) && Ready(CloseAll(m, xs), x)
    ensures Run(m, xs + [x])
    decreases |xs|
  {
    if xs == [] {
      assert xs + [x] == [x];
    } else {
      RunExtends(Close(m, xs[0]), xs[1..], x);
      assert (xs + [x])[1..] == xs[1..] + [x];
    }
  }

  /** However a run has gone, it can go on until everything is closed, and a
      run that cannot go on has exactly as many steps as there were unclosed
      nodes. */
  lemma RunsComplete(m: Molecule, xs: seq<Id>)
    requires Run(m, xs) && Startable(m) && Acyclic(Waiting(m))
    ensures |xs| <= |m.Unclosed()|
    ensures |xs| == |m.Unclosed()| <==> CloseAll(m, xs).Unclosed() == {}
    ensures |xs| < |m.Unclosed()| <==> exists x :: Run(m, xs + [x])
  {
    RunCounts(m, xs);
    RunKeepsRules(m, xs);
    var end := CloseAll(m, xs);
    if |xs| < |m.Unclosed()| {
      assert end.Unclosed() != {};
      var x := SomethingIsReady(end);
      RunExtends(m, xs, x);
    }
    if x :| Run(m, xs + [x]) {
      RunCounts(m, xs + [x]);
    }
  }
}
