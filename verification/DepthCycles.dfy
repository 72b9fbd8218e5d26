/** What the memoised depths do on cyclic graphs. */
module DepthCycles {
  import opened Graphs
  import opened Molecules
  import opened DepthRuns

  /** A node whose one live blocker is on the stack gets depth one. */
  lemma BackEdge(m: Molecule, order: Order, s: Memo, x: Id, y: Id)
    requires x in m.status && x in order && order[x] == [y] && m.Live(y)
    requires x !in s.depths && x !in s.visiting && y !in s.depths && y in s.visiting
    ensures Visit(m, order, s, x) == (Memo(s.depths[x := 1], s.visiting + {x}), 1)
  {
    var s1 := Memo(s.depths, s.visiting + {x});
    assert Visit(m, order, s1, y) == (s1, 0);
    ScanOne(m, order, s1, y, -1);
    VisitNew(m, order, s, x, Scan(m, order, s1, [y], -1).0, Scan(m, order, s1, [y], -1).1);
  }

  lemma ScanOne(m: Molecule, order: Order, s: Memo, y: Id, deepest: int)
    requires m.Live(y) && deepest >= -1
    ensures var v := Visit(m, order, s, y);
            Scan(m, order, s, [y], deepest) == (v.0, if v.1 > deepest then v.1 else deepest)
  {
    hide Visit;
    ScanNext(m, order, s, [y], 0, deepest);
    assert [y][0..] == [y] && [y][1..] == [];
  }

  lemma ScanTwo(m: Molecule, order: Order, s: Memo, y: Id, z: Id)
    requires m.Live(y) && m.Live(z)
    ensures var v := Visit(m, order, s, y);
            var w := Visit(m, order, v.0, z);
            Scan(m, order, s, [y, z], -1) == (w.0, if w.1 > v.1 then w.1 else v.1)
  {
    hide Visit;
    var bs := [y, z];
    ScanNext(m, order, s, bs, 0, -1);
    assert bs[0..] == bs && bs[1..] == [z];
    var v := Visit(m, order, s, y);
    ScanOne(m, order, v.0, z, v.1);
  }

  /** Two nodes that wait on each other: the one asked first ends up deeper. */
  lemma Pair(m: Molecule, order: Order, s: Memo, x: Id, y: Id)
    requires x in order && order[x] == [y] && y in order && order[y] == [x] && m.Live(x) && m.Live(y) && x != y
    requires x !in s.depths && x !in s.visiting && y !in s.depths && y !in s.visiting
    ensures Visit(m, order, s, x) == (Memo(s.depths[y := 1][x := 2], s.visiting + {x} + {y}), 2)
  {
    hide Visit, Scan;
    var s1 := Memo(s.depths, s.visiting + {x});
    BackEdge(m, order, s1, y, x);
    ScanOne(m, order, s1, y, -1);
    VisitNew(m, order, s, x, Scan(m, order, s1, [y], -1).0, Scan(m, order, s1, [y], -1).1);
  }

  lemma PlainListed(ids: seq<Id>, edges: seq<(Id, Id)>, order: Order)
    requires ids != [] && (forall x :: x in order <==> x in ids)
    requires forall x, b :: x in order ==> (b in order[x] <==> (x, b) in edges)
    ensures Lists(Plain(ids, edges), order)
  {
    var m := Plain(ids, edges);
    forall x, b | x in order ensures b in order[x] <==> b in BlockedBy(m, x) { PlainBlockers(ids, edges, x, b); }
    assert forall x :: x in order ==> ListsAt(m, order, x);
  }

  /** Three nodes, all of them known once the first has been visited. */
  lemma FirstVisitsAll(m: Molecule, order: Order)
    requires m.WellFormed() && |m.ids| == 3
    requires var s := Visit(m, order, EMPTY, m.ids[0]).0; m.ids[1] in s.depths && m.ids[2] in s.depths
    ensures InOrder(m, order) == Visit(m, order, EMPTY, m.ids[0]).0.depths
  {
    hide Scan;
    var s := Visit(m, order, EMPTY, m.ids[0]).0;
    assert VisitFrom(m, order, s, 3) == s;
    assert VisitFrom(m, order, s, 2) == s;
    assert VisitFrom(m, order, s, 1) == s;
  }

  const THREE: seq<Id> := ["a", "b", "c"]

  lemma PlainThree(edges: seq<(Id, Id)>)
    ensures var m := Plain(THREE, edges);
            m.WellFormed() && m.Live("a") && m.Live("b") && m.Live("c") && forall x :: x in m.status <==> x in {"a", "b", "c"}
  {
    assert THREE[0] in THREE && THREE[1] in THREE && THREE[2] in THREE;
    assert "a" != "b" && "b" != "c" && "a" != "c";
  }

  // ---- partners that wait on each other through a chain ----

  const FORK: seq<(Id, Id)> := [("a", "b"), ("a", "c"), ("b", "a"), ("c", "a")]

  /** a waits on b and c, and each of them on a. */
  function Fork(): Molecule { Plain(THREE, FORK) }

  function ForkOrder(): Order { map["a" := ["b", "c"], "b" := ["a"], "c" := ["a"]] }

  lemma ForkListed()
    ensures Lists(Fork(), ForkOrder())
  {
    hide BlockedBy;
    PlainListed(THREE, FORK, ForkOrder());
  }

  /** Visiting a first leaves b and c at one depth. */
  lemma ForkDepths()
    ensures Fork().WellFormed() && InOrder(Fork(), ForkOrder()) == map["a" := 2, "b" := 1, "c" := 1]
  {
    hide Visit, Scan;
    var m, order := Fork(), ForkOrder();
    PlainThree(FORK);
    var s1 := Memo(map[], {} + {"a"});
    BackEdge(m, order, s1, "b", "a");
    BackEdge(m, order, Visit(m, order, s1, "b").0, "c", "a");
    ScanTwo(m, order, s1, "b", "c");
    var t := Scan(m, order, s1, order["a"], -1);
    VisitNew(m, order, EMPTY, "a", t.0, t.1);
    FirstVisitsAll(m, order);
  }

  // ---- the order shows ----

  const LOOP: seq<(Id, Id)> := [("a", "b"), ("a", "c"), ("b", "c"), ("c", "b")]

  /** a waits on b and c, which wait on each other. */
  function Loop(): Molecule { Plain(THREE, LOOP) }

  function LoopOrder(first: Id, second: Id): Order {
    map["a" := [first, second], "b" := ["c"], "c" := ["b"]]
  }

  lemma LoopListed()
    ensures Lists(Loop(), LoopOrder("b", "c")) && Lists(Loop(), LoopOrder("c", "b"))
  {
    hide BlockedBy;
    PlainListed(THREE, LOOP, LoopOrder("b", "c"));
    PlainListed(THREE, LOOP, LoopOrder("c", "b"));
  }

  lemma LoopDepths(x: Id, y: Id)
    requires (x == "b" && y == "c") || (x == "c" && y == "b")
    ensures Loop().WellFormed() && InOrder(Loop(), LoopOrder(x, y)) == map["a" := 3, x := 2, y := 1]
  {
    hide Visit, Scan;
    var m, order := Loop(), LoopOrder(x, y);
    PlainThree(LOOP);
    var s1 := Memo(map[], {} + {"a"});
    Pair(m, order, s1, x, y);
    VisitOld(m, order, Visit(m, order, s1, x).0, y);
    ScanTwo(m, order, s1, x, y);
    var t := Scan(m, order, s1, order["a"], -1);
    VisitNew(m, order, EMPTY, "a", t.0, t.1);
    FirstVisitsAll(m, order);
  }

  /** On a cyclic graph depths depend on the order in which blockers come up. */
  lemma OrderMatters()
    ensures var m := Loop();
            && m.WellFormed() && Lists(m, LoopOrder("b", "c")) && Lists(m, LoopOrder("c", "b"))
            && InOrder(m, LoopOrder("b", "c")) == map["a" := 3, "b" := 2, "c" := 1]
            && InOrder(m, LoopOrder("c", "b")) == map["a" := 3, "b" := 1, "c" := 2]
  {
    hide InOrder, Lists;
    LoopListed();
    LoopDepths("b", "c");
    LoopDepths("c", "b");
    assert map["a" := 3, "c" := 2, "b" := 1] == map["a" := 3, "b" := 1, "c" := 2];
  }
}
