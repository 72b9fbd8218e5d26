/** The union-find of groupParallelSteps: a parent map, find with path
    halving, and union without ranks. */
module UnionFind {
  import opened Graphs

  class Forest {
    var parent: map<Id, Id>
    ghost var rep: map<Id, Id>    // the root of each node's tree
    ghost var level: map<Id, nat> // falls along every parent edge

    ghost predicate Valid()
      reads this
    {
      && rep.Keys == parent.Keys && level.Keys == parent.Keys
      && AllOk(parent, rep, level)
    }

    constructor (steps: seq<Id>)
      ensures Valid()
      ensures forall x :: x in parent <==> x in steps
      ensures forall x :: x in rep ==> rep[x] == x
    {
      parent := map x | x in steps :: x;
      rep := map x | x in steps :: x;
      level := map x | x in steps :: 0;
    }

    /** Find the root, pointing every other node on the way at its grandparent.
        It ends because levels fall, and no node changes tree. */
    method Find(x0: Id) returns (x: Id)
      requires Valid() && x0 in parent
      modifies this`parent
      ensures Valid() && parent.Keys == old(parent).Keys
      ensures x in parent && x == rep[x0] && parent[x] == x
    {
      x := x0;
      while parent[x] != x
        invariant Valid() && parent.Keys == old(parent).Keys && x in parent && rep[x] == rep[x0]
        decreases level[x]
      {
        assert NodeOk(parent, rep, level, x);
        HalvingKeeps(parent, rep, level, x);
        parent := parent[x := parent[parent[x]]];
        x := parent[x];
        assert NodeOk(parent, rep, level, x);
      }
      assert NodeOk(parent, rep, level, x);
    }

    /** The root of a node's tree is a root. */
    lemma RootOf(x: Id)
      requires Valid() && x in parent
      ensures rep[x] in parent && parent[rep[x]] == rep[x]
    {
      assert NodeOk(parent, rep, level, x);
    }

    /** Hang one root under another: the two trees become one, every other tree
        stays. */
    method Union(pa: Id, pb: Id)
      requires Valid() && pa in parent && pb in parent && pa != pb
      requires parent[pa] == pa && parent[pb] == pb
      modifies this
      ensures Valid() && parent.Keys == old(parent).Keys
      ensures rep == Merged(old(rep), pa, pb)
    {
      UnionKeeps(parent, rep, level, pa, pb);
      level := Lowered(rep, level, pa, pb);
      rep := Merged(rep, pa, pb);
      parent := parent[pa := pb];
    }
  }

  ghost predicate NodeOk(parent: map<Id, Id>, rep: map<Id, Id>, level: map<Id, nat>, x: Id) {
    && x in parent && x in rep && x in level
    && parent[x] in parent && parent[x] in rep && parent[x] in level
    && rep[x] in parent && parent[rep[x]] == rep[x]
    && rep[parent[x]] == rep[x]
    && (parent[x] == x ==> rep[x] == x)
    && (parent[x] != x ==> level[parent[x]] < level[x])
  }

  ghost predicate AllOk(parent: map<Id, Id>, rep: map<Id, Id>, level: map<Id, nat>) {
    forall x {:trigger NodeOk(parent, rep, level, x)} :: x in parent ==> NodeOk(parent, rep, level, x)
  }

  lemma HalvingKeeps(parent: map<Id, Id>, rep: map<Id, Id>, level: map<Id, nat>, x: Id)
    requires AllOk(parent, rep, level)
    requires x in parent && parent[x] != x
    ensures NodeOk(parent, rep, level, x) && NodeOk(parent, rep, level, parent[x])
    ensures parent[parent[x]] != x && level[parent[parent[x]]] < level[x]
    ensures AllOk(parent[x := parent[parent[x]]], rep, level)
  {
    assert NodeOk(parent, rep, level, x) && NodeOk(parent, rep, level, parent[x]);
    var halved := parent[x := parent[parent[x]]];
    forall y | y in halved ensures NodeOk(halved, rep, level, y) {
      assert NodeOk(parent, rep, level, y);
    }
  }

  /** The representatives after hanging pa under pb. */
  ghost function Merged(rep: map<Id, Id>, pa: Id, pb: Id): map<Id, Id> {
    map x | x in rep :: if rep[x] == pa then pb else rep[x]
  }

  /** The moved tree goes below everything in its new one. */
  ghost function Lowered(rep: map<Id, Id>, level: map<Id, nat>, pa: Id, pb: Id): map<Id, nat>
    requires rep.Keys == level.Keys && pb in level
  {
    map x | x in level :: if rep[x] == pa then level[x] + level[pb] + 1 else level[x]
  }

  lemma UnionKeeps(parent: map<Id, Id>, rep: map<Id, Id>, level: map<Id, nat>, pa: Id, pb: Id)
    requires rep.Keys == parent.Keys && level.Keys == parent.Keys
    requires AllOk(parent, rep, level)
    requires pa in parent && pb in parent && pa != pb && parent[pa] == pa && parent[pb] == pb
    ensures AllOk(parent[pa := pb], Merged(rep, pa, pb), Lowered(rep, level, pa, pb))
  {
    var p, r, l := parent[pa := pb], Merged(rep, pa, pb), Lowered(rep, level, pa, pb);
    assert NodeOk(parent, rep, level, pa) && NodeOk(parent, rep, level, pb);
    forall y | y in p ensures NodeOk(p, r, l, y) {
      assert NodeOk(parent, rep, level, y);
    }
  }
}
