/** What sharing a parallel group does and does not promise. */
module PartnerLaws {
  import opened Graphs
  import opened Molecules
  import opened DepthRuns
  import opened DepthCycles
  import opened Depths
  import opened Analyze

  /** Neither node is recorded as blocking the other, closed blockers included. */
  predicate Unrelated(m: Molecule, x: Id, y: Id) { x !in BlockedBy(m, y) && y !in BlockedBy(m, x) }

  /** Partners are unrelated in pairs. */
  ghost predicate PartnersUnrelated(m: Molecule, depths: map<Id, nat>)
    requires m.WellFormed() && depths.Keys == m.status.Keys
  {
    forall x, y :: x in depths && y in Partners(m, depths, x) && x != y ==> Unrelated(m, x, y)
  }

  /** Three nodes of one depth, the middle one unrelated to the outer two, of
      which one is recorded as blocking the other. */
  ghost predicate Bridge(m: Molecule, depths: map<Id, nat>, x: Id, z: Id, y: Id)
    requires depths.Keys == m.status.Keys
  {
    && x in depths && z in depths && y in depths && depths[x] == depths[z] == depths[y]
    && x != z && z != y && x != y
    && Unrelated(m, x, z) && Unrelated(m, z, y) && !Unrelated(m, x, y)
  }

  /** Partners are unrelated in pairs exactly when there is no bridge. */
  lemma UnrelatedExactly(m: Molecule, depths: map<Id, nat>)
    requires m.WellFormed() && depths.Keys == m.status.Keys
    ensures PartnersUnrelated(m, depths) <==> !exists x, z, y :: Bridge(m, depths, x, z, y)
  {
    hide BlockedBy, Partners;
    if PartnersUnrelated(m, depths) {
      forall x, z, y ensures !Bridge(m, depths, x, z, y) {
        if Bridge(m, depths, x, z, y) { BridgeJoins(m, depths, x, z, y); }
      }
    }
    if !exists x, z, y :: Bridge(m, depths, x, z, y) {
      forall x, y | x in depths && y in Partners(m, depths, x) && x != y ensures Unrelated(m, x, y) {
        NoBridge(m, depths, x, y);
      }
    }
  }

  lemma BridgeJoins(m: Molecule, depths: map<Id, nat>, x: Id, z: Id, y: Id)
    requires m.WellFormed() && depths.Keys == m.status.Keys && Bridge(m, depths, x, z, y)
    ensures y in Partners(m, depths, x)
  {
    hide BlockedBy, Partners;
    var nodes := Bucket(m.ids, depths, depths[x]);
    var e := Unordered(m, nodes);
    assert (x, z) in e && (z, y) in e;
    ReachesEdge(e, x, z);
    ReachesEdge(e, z, y);
    ReachesTransitive(e, x, z, y);
    PartnersAre(m, depths, x);
  }

  lemma NoBridge(m: Molecule, depths: map<Id, nat>, x: Id, y: Id)
    requires m.WellFormed() && depths.Keys == m.status.Keys && x in depths && y in Partners(m, depths, x) && x != y
    requires forall u, w, v :: !Bridge(m, depths, u, w, v)
    ensures Unrelated(m, x, y)
  {
    hide BlockedBy, Partners;
    var nodes := Bucket(m.ids, depths, depths[x]);
    var e := Unordered(m, nodes);
    PartnersAre(m, depths, x);
    forall u, w, v | (u, w) in e && (w, v) in e && u != v ensures (u, v) in e {
      assert !Bridge(m, depths, u, w, v);
    }
    OneStepExactly(e);
    assert (x, y) in e;
  }

  /** A recorded blocker at its node's own depth is closed. */
  lemma LevelBlockerIsClosed(m: Molecule, depths: map<Id, nat>, x: Id, b: Id)
    requires IsDepth(m, depths) && x in depths && b in depths && b in BlockedBy(m, x) && depths[b] == depths[x]
    ensures m.status[b] == Closed
  {
    hide BlockedBy;
    assert IsDepthAt(m, depths, x);
  }

  /** a is recorded as blocked by b, which is closed; c is on its own. */
  function Finished(): Molecule {
    Molecule("a", THREE, map["a" := Open, "b" := Closed, "c" := Open], [Dependency("a", "b", DepBlocks, AllChildren)])
  }

  lemma FinishedBlockers(x: Id)
    ensures BlockedBy(Finished(), x) == if x == "a" then {"b"} else {}
  {
    var m := Finished();
    assert m.deps[0] in m.deps && BlockersOf(m, m.deps[0]) == {"b"};
  }

  /** A group need not be a clique: a step shares one with its closed blocker. */
  lemma NotAClique()
    ensures var m, depths := Finished(), map["a" := 0, "b" := 0, "c" := 0];
            && m.WellFormed() && IsDepth(m, depths)
            && "b" in BlockedBy(m, "a") && "b" in Partners(m, depths, "a")
  {
    hide BlockedBy, Partners;
    var m, depths := Finished(), map["a" := 0, "b" := 0, "c" := 0];
    assert THREE[0] in THREE && THREE[1] in THREE && THREE[2] in THREE;
    assert "a" != "b" && "b" != "c" && "a" != "c";
    FinishedBlockers("a");
    FinishedBlockers("b");
    FinishedBlockers("c");
    assert Bridge(m, depths, "a", "c", "b");
    BridgeJoins(m, depths, "a", "c", "b");
  }

  // ---- on any graph ----

  /** Partners never wait on each other directly, cyclic or not. */
  lemma PartnersNotDirect(m: Molecule, depths: map<Id, nat>, x: Id, y: Id)
    requires m.WellFormed() && Possible(m, depths) && x in depths && y in Partners(m, depths, x) && y != x
    ensures y !in OpenBlockers(m, x) && x !in OpenBlockers(m, y)
  {
    hide OpenBlockers, InOrder, Lists;
    var order :| Lists(m, order) && depths == InOrder(m, order);
    assert y in depths && depths[y] == depths[x];
    if y in OpenBlockers(m, x) { NeverLevel(m, order, x, y); }
    if x in OpenBlockers(m, y) { NeverLevel(m, order, y, x); }
  }

  /** Through a chain they can, on a cycle. */
  lemma PartnersOnCycle()
    ensures var m, depths := Fork(), map["a" := 2, "b" := 1, "c" := 1];
            m.WellFormed() && Possible(m, depths) && "c" in Partners(m, depths, "b") && Reaches(Waiting(m), "b", "c")
  {
    hide BlockedBy, Partners, InOrder, Lists;
    var m, depths := Fork(), map["a" := 2, "b" := 1, "c" := 1];
    ForkListed();
    ForkDepths();
    PlainThree(FORK);
    PlainBlockers(THREE, FORK, "b", "a");
    PlainBlockers(THREE, FORK, "a", "c");
    PlainBlockers(THREE, FORK, "b", "c");
    PlainBlockers(THREE, FORK, "c", "b");
    LevelUnrelated(m, depths, "b", "c");
    var e := Waiting(m);
    assert ("b", "a") in e && ("a", "c") in e;
    ReachesEdge(e, "b", "a");
    ReachesEdge(e, "a", "c");
    ReachesTransitive(e, "b", "a", "c");
  }

  lemma LevelUnrelated(m: Molecule, depths: map<Id, nat>, x: Id, y: Id)
    requires m.WellFormed() && depths.Keys == m.status.Keys && x in depths && y in depths && x != y
    requires depths[x] == depths[y] && Unrelated(m, x, y)
    ensures y in Partners(m, depths, x)
  {
    hide BlockedBy, Partners;
    var nodes := Bucket(m.ids, depths, depths[x]);
    assert (x, y) in Unordered(m, nodes);
    ReachesEdge(Unordered(m, nodes), x, y);
    PartnersAre(m, depths, x);
  }
}
