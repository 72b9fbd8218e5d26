/** Blocking depth: how deep the chain of open blockers under a node goes. The
    source memoises a recursion over maps it iterates in no fixed order; here
    the order is a parameter. */
module Depths {
  import opened DepthRuns
  import opened Graphs
  import opened Molecules

  /** The promise, as two conditions on each node: it lies above all its open
      blockers, and right above one of them unless its depth is zero. */
  ghost predicate IsDepth(m: Molecule, depths: map<Id, nat>) {
    && depths.Keys == m.status.Keys
    && forall x :: x in depths ==> IsDepthAt(m, depths, x)
  }

  ghost predicate IsDepthAt(m: Molecule, depths: map<Id, nat>, x: Id)
    requires x in depths
  {
    && (forall b :: b in OpenBlockers(m, x) ==> b in depths && depths[b] < depths[x])
    && (depths[x] > 0 ==> exists b :: b in OpenBlockers(m, x) && b in depths && depths[b] == depths[x] - 1)
  }

  /** The memo tables of one blockingDepths call. */
  class DepthTable {
    const m: Molecule
    const order: Order
    var depths: map<Id, nat>
    var visiting: set<Id>

    constructor (m: Molecule, order: Order)
      ensures this.m == m && this.order == order && Now() == EMPTY
    {
      this.m, this.order := m, order;
      depths, visiting := map[], {};
    }

    ghost function Now(): Memo
      reads this
    {
      Memo(depths, visiting)
    }

    method DepthOf(x: Id) returns (d: nat)
      requires x in m.status && order.Keys == m.status.Keys
      modifies this
      ensures (Now(), d) == Visit(m, order, old(Now()), x)
      decreases m.status.Keys - visiting, 0
    {
      hide Scan;
      if x in depths {
        return depths[x];
      }
      if x in visiting {
        return 0;
      }
      ghost var before := Now();
      visiting := visiting + {x};
      var deepest := DeepestBlocker(x);
      VisitNew(m, order, before, x, Now(), deepest);
      depths := depths[x := deepest + 1];
      d := depths[x];
    }

    /** The depth of the deepest open blocker. */
    method DeepestBlocker(x: Id) returns (deepest: int)
      requires x in order && order.Keys == m.status.Keys
      modifies this
      ensures (Now(), deepest) == Scan(m, order, old(Now()), order[x], -1)
      decreases m.status.Keys - visiting, 1
    {
      hide Scan, Visit;
      var bs, i := order[x], 0;
      deepest := -1;
      assert bs[i..] == bs;
      while i < |bs|
        invariant 0 <= i <= |bs| && deepest >= -1 && old(visiting) <= visiting
        invariant Scan(m, order, Now(), bs[i..], deepest) == Scan(m, order, old(Now()), bs, -1)
      {
        var b := bs[i];
        ScanNext(m, order, Now(), bs, i, deepest);
        if b in m.status && m.status[b] != Closed {
          var e := DepthOf(b);
          if e > deepest {
            deepest := e;
          }
        }
        i := i + 1;
      }
      NothingLeft(m, order, Now(), bs, deepest);
    }
  }

  /** deepest is the largest depth among the live nodes of bs, -1 if there are
      none. */
  ghost predicate DeepestOf(m: Molecule, depths: map<Id, nat>, bs: set<Id>, deepest: int) {
    && (forall b :: b in bs && m.Live(b) ==> b in depths && depths[b] <= deepest)
    && (deepest >= 0 ==> exists b :: b in bs && m.Live(b) && b in depths && depths[b] == deepest)
  }

  lemma DeepestNext(m: Molecule, before: map<Id, nat>, after: map<Id, nat>, bs: set<Id>, b: Id, deepest: int, e: nat)
    requires DeepestOf(m, before, bs, deepest) && deepest >= -1
    requires forall y :: y in before ==> y in after && after[y] == before[y]
    requires m.Live(b) && b in after && after[b] == e
    ensures DeepestOf(m, after, bs + {b}, if e > deepest then e else deepest)
  {
  }

  /** If every node of the stack waits on x, and x on b, then the stack waits
      on b; on an acyclic graph b is then not on it. */
  lemma StackExtends(m: Molecule, stack: set<Id>, x: Id, b: Id)
    requires (x, b) in Waiting(m)
    requires forall y :: y in stack ==> Reaches(Waiting(m), y, x)
    ensures forall y :: y in stack ==> Reaches(Waiting(m), y, b)
    ensures Acyclic(Waiting(m)) ==> b !in stack
  {
    var e := Waiting(m);
    ReachesEdge(e, x, b);
    forall y | y in stack ensures Reaches(e, y, b) {
      ReachesTransitive(e, y, x, b);
    }
    if b in stack { CycleThrough(e, x, b); }
  }

  /** Completing a node above its completed blockers gives it its depth and
      disturbs no other. */
  lemma NewDepth(m: Molecule, depths: map<Id, nat>, x: Id, deepest: int)
    requires x !in depths && deepest >= -1
    requires DeepestOf(m, depths, BlockedBy(m, x), deepest)
    requires forall y :: y in depths ==> IsDepthAt(m, depths, y)
    ensures var after := depths[x := deepest + 1];
            forall y :: y in after ==> IsDepthAt(m, after, y)
  {
    hide BlockedBy, IsDepthAt, DeepestOf;
    var after := depths[x := deepest + 1];
    OwnDepth(m, depths, x, deepest);
    forall y | y in after ensures IsDepthAt(m, after, y) {
      if y != x { DepthKept(m, depths, x, deepest + 1, y); }
    }
  }

  lemma OwnDepth(m: Molecule, depths: map<Id, nat>, x: Id, deepest: int)
    requires x !in depths && deepest >= -1 && DeepestOf(m, depths, BlockedBy(m, x), deepest)
    ensures IsDepthAt(m, depths[x := deepest + 1], x)
  {
    hide BlockedBy, OpenBlockers;
    OpenBlockersAre(m, x);
  }

  lemma DepthKept(m: Molecule, depths: map<Id, nat>, x: Id, d: nat, y: Id)
    requires x !in depths && y in depths && IsDepthAt(m, depths, y)
    ensures IsDepthAt(m, depths[x := d], y)
  {
    hide OpenBlockers;
  }

  lemma NothingLeft(m: Molecule, order: Order, s: Memo, bs: seq<Id>, deepest: int)
    requires deepest >= -1
    ensures Scan(m, order, s, bs[|bs|..], deepest) == (s, deepest)
  {
  }

  lemma OpenBlockersAre(m: Molecule, x: Id)
    ensures forall b :: b in OpenBlockers(m, x) <==> b in BlockedBy(m, x) && m.Live(b)
  {
  }

  /** A map's keys in some order, as iterating over it gives them. */
  method Listing(s: set<Id>) returns (xs: seq<Id>)
    ensures forall x :: x in xs <==> x in s
  {
    xs := [];
    var todo := s;
    while todo != {}
      invariant todo <= s
      invariant forall x :: x in xs <==> x in s - todo
    {
      var x :| x in todo;
      xs, todo := xs + [x], todo - {x};
    }
  }

  method SomeOrder(m: Molecule, blockedBy: map<Id, set<Id>>) returns (order: Order)
    requires blockedBy.Keys == m.status.Keys && forall x :: x in blockedBy ==> blockedBy[x] == BlockedBy(m, x)
    ensures Lists(m, order)
  {
    hide BlockedBy;
    order := map[];
    var todo := blockedBy.Keys;
    while todo != {}
      invariant todo <= blockedBy.Keys && order.Keys == blockedBy.Keys - todo
      invariant forall x :: x in order ==> ListsAt(m, order, x)
    {
      var x :| x in todo;
      var bs := Listing(blockedBy[x]);
      ghost var before := order;
      order, todo := order[x := bs], todo - {x};
      assert forall y :: y in before ==> ListsAt(m, before, y);
    }
  }

  // ---- the run is exact on acyclic graphs ----

  ghost predicate Exact(m: Molecule, s: Memo) {
    forall x :: x in s.depths ==> IsDepthAt(m, s.depths, x)
  }

  /** Every node on the stack waits, through open blockers, on x. */
  ghost predicate StackWaitsOn(m: Molecule, s: Memo, x: Id) {
    forall y :: y in s.Stack() ==> Reaches(Waiting(m), y, x)
  }

  ghost function Elements(bs: seq<Id>): set<Id> { set b | b in bs }

  lemma EnteredWaits(m: Molecule, s: Memo, x: Id)
    requires StackWaitsOn(m, s, x)
    ensures StackWaitsOn(m, Memo(s.depths, s.visiting + {x}), x)
  {
    hide Waiting;
    ReachesSelf(Waiting(m), x);
  }

  /** The blockers of a node on the stack are not on it, and the stack waits on
      them too. */
  lemma BlockerOffStack(m: Molecule, order: Order, s: Memo, x: Id, b: Id)
    requires Acyclic(Waiting(m)) && Lists(m, order) && x in order && b in order[x] && m.Live(b) && StackWaitsOn(m, s, x)
    ensures b !in s.Stack() && StackWaitsOn(m, s, b)
  {
    hide BlockedBy, Acyclic;
    assert ListsAt(m, order, x);
    assert (x, b) in Waiting(m);
    StackExtends(m, s.Stack(), x, b);
  }

  lemma NoneDeepest(m: Molecule, depths: map<Id, nat>)
    ensures DeepestOf(m, depths, {}, -1)
  {
  }

  lemma {:induction false} VisitExact(m: Molecule, order: Order, s: Memo, x: Id)
    requires Acyclic(Waiting(m)) && Lists(m, order) && x in m.status
    requires Sound(m, s) && Exact(m, s) && StackWaitsOn(m, s, x)
    ensures Exact(m, Visit(m, order, s, x).0)
    decreases m.status.Keys - s.visiting, 0, 0
  {
    hide Acyclic, Waiting, Exact, Visit, Scan, DeepestOf, BlockedBy, Continues, Sound, StackWaitsOn;
    if x in s.depths || x in s.visiting {
      VisitOld(m, order, s, x);
    } else {
      var s1 := Memo(s.depths, s.visiting + {x});
      Entered(m, s, x);
      EnteredWaits(m, s, x);
      ExactEntered(m, s, x);
      ScanSound(m, order, s1, order[x], -1);
      NoneDeepest(m, s1.depths);
      ScanExact(m, order, s1, x, order[x], {}, -1);
      var t := Scan(m, order, s1, order[x], -1);
      SoundKeys(m, s);
      EnteredStays(s, x, t.0, t.1);
      AllListed(m, order, x);
      VisitNew(m, order, s, x, t.0, t.1);
      ExactCompleted(m, t.0, x, t.1);
    }
  }

  lemma ExactEntered(m: Molecule, s: Memo, x: Id)
    requires Exact(m, s)
    ensures Exact(m, Memo(s.depths, s.visiting + {x}))
  {
    hide IsDepthAt;
  }

  lemma ExactCompleted(m: Molecule, s: Memo, x: Id, deepest: int)
    requires Exact(m, s) && x !in s.depths && deepest >= -1 && DeepestOf(m, s.depths, BlockedBy(m, x), deepest)
    ensures Exact(m, Memo(s.depths[x := deepest + 1], s.visiting))
  {
    hide IsDepthAt, DeepestOf, BlockedBy;
    NewDepth(m, s.depths, x, deepest);
  }

  lemma SoundKeys(m: Molecule, s: Memo)
    requires Sound(m, s)
    ensures s.depths.Keys <= s.visiting
  {
  }

  lemma AllListed(m: Molecule, order: Order, x: Id)
    requires Lists(m, order) && x in order
    ensures {} + Elements(order[x]) == BlockedBy(m, x)
  {
    hide BlockedBy;
    assert ListsAt(m, order, x);
  }

  lemma {:induction false} ScanExact(m: Molecule, order: Order, s: Memo, x: Id, bs: seq<Id>, done: set<Id>, deepest: int)
    requires Acyclic(Waiting(m)) && Lists(m, order) && x in order && forall b :: b in bs ==> b in order[x]
    requires Sound(m, s) && Exact(m, s) && StackWaitsOn(m, s, x)
    requires deepest >= -1 && DeepestOf(m, s.depths, done, deepest)
    ensures var r := Scan(m, order, s, bs, deepest);
            Exact(m, r.0) && DeepestOf(m, r.0.depths, done + Elements(bs), r.1)
    decreases m.status.Keys - s.visiting, 1, |bs|
  {
    if bs == [] {
      assert done + Elements(bs) == done;
    } else {
      hide Acyclic, Waiting, Exact, Visit, BlockedBy, Sound, Lists, StackWaitsOn, DeepestOf, Continues;
      var b := bs[0];
      FirstElement(bs, done);
      if m.Live(b) {
        var v := Visit(m, order, s, b);
        BlockerOffStack(m, order, s, x, b);
        VisitSound(m, order, s, b);
        VisitExact(m, order, s, b);
        BlockerCompleted(m, s, v.0, v.1, x, b, done, deepest);
        ScanExact(m, order, v.0, x, bs[1..], done + {b}, if v.1 > deepest then v.1 else deepest);
      } else {
        NotLive(m, s.depths, done, b, deepest);
        ScanExact(m, order, s, x, bs[1..], done + {b}, deepest);
      }
    }
  }

  lemma FirstElement(bs: seq<Id>, done: set<Id>)
    requires bs != []
    ensures done + Elements(bs) == (done + {bs[0]}) + Elements(bs[1..])
  {
    FirstOrRest(bs);
  }

  lemma NotLive(m: Molecule, depths: map<Id, nat>, done: set<Id>, b: Id, deepest: int)
    requires !m.Live(b) && DeepestOf(m, depths, done, deepest)
    ensures DeepestOf(m, depths, done + {b}, deepest)
  {
  }

  /** What visiting a live blocker leaves for the blockers still to come. */
  lemma BlockerCompleted(m: Molecule, s: Memo, t: Memo, d: nat, x: Id, b: Id, done: set<Id>, deepest: int)
    requires m.Live(b) && b !in s.Stack() && Continues(s, t, d) && b in t.visiting && (b in t.depths ==> t.depths[b] == d)
    requires deepest >= -1 && DeepestOf(m, s.depths, done, deepest) && StackWaitsOn(m, s, x)
    ensures DeepestOf(m, t.depths, done + {b}, if d > deepest then d else deepest) && StackWaitsOn(m, t, x)
  {
    hide Waiting, DeepestOf, Reaches;
    assert b !in t.Stack();
    DeepestNext(m, s.depths, t.depths, done, b, deepest, d);
  }

  lemma NoneWaiting(m: Molecule, s: Memo, i: nat, x: Id)
    requires i <= |m.ids| && Settled(m, s, i)
    ensures Sound(m, s) && StackWaitsOn(m, s, x)
  {
    hide Sound, Bounded;
  }

  lemma {:induction false} VisitFromExact(m: Molecule, order: Order, s: Memo, i: nat)
    requires Acyclic(Waiting(m)) && m.WellFormed() && Lists(m, order) && i <= |m.ids| && Settled(m, s, i) && Exact(m, s)
    ensures Exact(m, VisitFrom(m, order, s, i))
    decreases |m.ids| - i
  {
    if i < |m.ids| {
      hide Acyclic, Waiting, Exact, Visit, Lists, Distinct, Sound, Settled, StackWaitsOn;
      SettledNext(m, order, s, i);
      NoneWaiting(m, s, i, m.ids[i]);
      VisitExact(m, order, s, m.ids[i]);
      VisitFromExact(m, order, Visit(m, order, s, m.ids[i]).0, i + 1);
    }
  }

  /** On an acyclic graph every order gives the promised depths. */
  lemma InOrderExact(m: Molecule, order: Order)
    requires Acyclic(Waiting(m)) && m.WellFormed() && Lists(m, order)
    ensures IsDepth(m, InOrder(m, order))
  {
    hide Acyclic, Waiting, Lists, Distinct, Settled, VisitFrom, IsDepthAt;
    EmptySettled(m);
    VisitFromExact(m, order, EMPTY, 0);
    AllNodes(m, order);
  }

  method BlockingDepths(m: Molecule, order: Order) returns (depths: map<Id, nat>)
    requires m.WellFormed() && Lists(m, order)
    ensures depths == InOrder(m, order)
    ensures depths.Keys == m.status.Keys
    ensures forall x :: x in depths ==> depths[x] <= |m.ids|
    ensures forall x, b :: x in depths && b in OpenBlockers(m, x) && b != x ==> b in depths && depths[b] != depths[x]
    ensures Acyclic(Waiting(m)) ==> IsDepth(m, depths)
  {
    assert order.Keys == m.status.Keys;
    hide Lists, OpenBlockers, Waiting, IsDepth, IsCycle, Distinct, Visit;
    var table := new DepthTable(m, order);
    var i := 0;
    while i < |m.ids|
      invariant 0 <= i <= |m.ids| && table.m == m && table.order == order && fresh(table)
      invariant VisitFrom(m, order, table.Now(), i) == VisitFrom(m, order, EMPTY, 0)
    {
      var _ := table.DepthOf(m.ids[i]);
      i := i + 1;
    }
    depths := table.depths;
    RunPromises(m, order);
  }

  lemma RunPromises(m: Molecule, order: Order)
    requires m.WellFormed() && Lists(m, order)
    ensures var depths := InOrder(m, order);
            && depths.Keys == m.status.Keys
            && (forall x :: x in depths ==> depths[x] <= |m.ids|)
            && (forall x, b :: x in depths && b in OpenBlockers(m, x) && b != x ==> b in depths && depths[b] != depths[x])
            && (Acyclic(Waiting(m)) ==> IsDepth(m, depths))
  {
    hide OpenBlockers, InOrder, Lists, Waiting, IsDepth, IsCycle, Distinct;
    var depths := InOrder(m, order);
    AllNodes(m, order);
    forall x | x in depths ensures depths[x] <= |m.ids| { DepthsBounded(m, order, x); }
    forall x, b | x in depths && b in OpenBlockers(m, x) && b != x ensures b in depths && depths[b] != depths[x] {
      NeverLevel(m, order, x, b);
    }
    if Acyclic(Waiting(m)) { InOrderExact(m, order); }
  }

  // ---- what depth is for ----

  /** Along a chain of open blockers depth falls. */
  lemma {:induction false} DepthFalls(m: Molecule, depths: map<Id, nat>, p: seq<Id>)
    requires IsDepth(m, depths) && IsPath(Waiting(m), p) && |p| > 1
    ensures p[0] in depths && p[|p| - 1] in depths && depths[p[|p| - 1]] < depths[p[0]]
    decreases |p|
  {
    hide IsDepth, IsPath, Waiting;
    PathSteps(Waiting(m), p);
    DepthDrops(m, depths, p[0], p[1]);
    if |p| > 2 { DepthFalls(m, depths, p[1..]); }
  }

  lemma PathSteps(e: Relation, p: seq<Id>)
    requires IsPath(e, p) && |p| > 1
    ensures (p[0], p[1]) in e && IsPath(e, p[1..])
  {
    var q := p[1..];
    forall i | 0 <= i < |q| - 1 ensures (q[i], q[i + 1]) in e { assert (p[i + 1], p[i + 2]) in e; }
  }

  lemma DepthDrops(m: Molecule, depths: map<Id, nat>, x: Id, b: Id)
    requires IsDepth(m, depths) && (x, b) in Waiting(m)
    ensures x in depths && b in depths && depths[b] < depths[x]
  {
    hide OpenBlockers;
    assert IsDepthAt(m, depths, x);
  }

  /** Depths are determined: on any graph at most one assignment meets the
      promise. */
  lemma {:induction false} DepthUnique(m: Molecule, a: map<Id, nat>, b: map<Id, nat>, x: Id)
    requires IsDepth(m, a) && IsDepth(m, b) && x in m.status
    ensures a[x] == b[x]
    decreases a[x]
  {
    assert IsDepthAt(m, a, x) && IsDepthAt(m, b, x);
    forall y | y in OpenBlockers(m, x) ensures y in a && y in b && a[y] == b[y] {
      DepthUnique(m, a, b, y);
    }
  }

  // ---- when depths exist ----

  /** Depths for some of the nodes, with all their open blockers among them. */
  ghost predicate PartialDepth(m: Molecule, depths: map<Id, nat>) {
    depths.Keys <= m.status.Keys && forall x :: x in depths ==> IsDepthAt(m, depths, x)
  }

  lemma {:induction false} DeepestExists(m: Molecule, depths: map<Id, nat>, bs: set<Id>) returns (deepest: int)
    requires forall b :: b in bs && m.Live(b) ==> b in depths
    ensures deepest >= -1 && DeepestOf(m, depths, bs, deepest)
    decreases |bs|
  {
    if bs == {} {
      deepest := -1;
    } else {
      var b :| b in bs;
      var rest := bs - {b};
      assert bs == rest + {b};
      deepest := DeepestExists(m, depths, rest);
      if m.Live(b) {
        DeepestNext(m, depths, depths, rest, b, deepest, depths[b]);
        deepest := if depths[b] > deepest then depths[b] else deepest;
      }
    }
  }

  /** A node all of whose open blockers have depths can be given one. */
  lemma DepthAdded(m: Molecule, depths: map<Id, nat>, x: Id) returns (more: map<Id, nat>)
    requires PartialDepth(m, depths) && x in m.status && x !in depths
    requires forall b :: b in OpenBlockers(m, x) ==> b in depths
    ensures PartialDepth(m, more) && more.Keys == depths.Keys + {x}
  {
    hide BlockedBy, OpenBlockers, IsDepthAt;
    OpenBlockersAre(m, x);
    var deepest := DeepestExists(m, depths, BlockedBy(m, x));
    NewDepth(m, depths, x, deepest);
    more := depths[x := deepest + 1];
  }

  lemma {:induction false} DepthsFrom(m: Molecule, depths: map<Id, nat>) returns (all: map<Id, nat>)
    requires Acyclic(Waiting(m)) && PartialDepth(m, depths)
    ensures IsDepth(m, all)
    decreases |m.status.Keys - depths.Keys|
  {
    hide OpenBlockers, IsDepthAt, Acyclic;
    var left := m.status.Keys - depths.Keys;
    if left == {} {
      all := depths;
    } else {
      var x := HasSink(Waiting(m), left);
      BlockersListed(m, x);
      var more := DepthAdded(m, depths, x);
      assert m.status.Keys - more.Keys < left;
      SmallerSet(m.status.Keys - more.Keys, left);
      all := DepthsFrom(m, more);
    }
  }

  lemma SmallerSet(a: set<Id>, b: set<Id>)
    requires a < b
    ensures |a| < |b|
  {
    var rest := b - a;
    assert b == a + rest;
  }

  lemma BlockersListed(m: Molecule, x: Id)
    requires x in m.status
    ensures forall b :: b in OpenBlockers(m, x) ==> (x, b) in Waiting(m) && b in m.status
  {
    hide BlockedBy;
  }

  /** The promised depths exist exactly when waiting is acyclic. */
  lemma DepthsExist(m: Molecule)
    ensures (exists d :: IsDepth(m, d)) <==> Acyclic(Waiting(m))
  {
    hide IsDepth;
    if d :| IsDepth(m, d) {
      forall p ensures !IsCycle(Waiting(m), p) {
        if IsCycle(Waiting(m), p) { DepthFalls(m, d, p); }
      }
    }
    if Acyclic(Waiting(m)) {
      NothingDeep(m);
      var d := DepthsFrom(m, map[]);
    }
  }

  lemma NothingDeep(m: Molecule)
    ensures PartialDepth(m, map[])
  {
  }

  function TwoCycle(): Molecule {
    Molecule("a", ["a", "b"], map["a" := Open, "b" := Open],
             [Dependency("a", "b", DepBlocks, AllChildren), Dependency("b", "a", DepBlocks, AllChildren)])
  }

  /** Two nodes that block each other have no depths. */
  lemma TwoCycleHasNone()
    ensures TwoCycle().WellFormed() && !exists d :: IsDepth(TwoCycle(), d)
  {
    var m := TwoCycle();
    assert m.deps[0] in m.deps && m.deps[1] in m.deps;
    assert "b" in BlockersOf(m, m.deps[0]) && "a" in BlockersOf(m, m.deps[1]);
    assert "b" in OpenBlockers(m, "a") && "a" in OpenBlockers(m, "b");
    var p := ["a", "b", "a"];
    assert IsCycle(Waiting(m), p);
    DepthsExist(m);
  }
}
