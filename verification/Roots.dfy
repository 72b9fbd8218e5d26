/** The parent walk: from each id up its first parent-child edges to the root
    of its molecule, all ids at once, one edge read per level. */
module Roots {
  import opened Wrappers
  import opened Graphs
  import opened Molecules
  import opened Loading

  const MAX_MOLECULE_DEPTH: nat := 50
  const MAX_GET_MANY_IDS: nat := 1000
  const MOLECULE_TEMPLATE_LABEL := "template"

  predicate IsMoleculeRoot(x: Issue) {
    x.kind == TypeEpic || x.kind == TypeMolecule || MOLECULE_TEMPLATE_LABEL in x.labels
  }

  predicate AutoClosesWhenComplete(x: Issue) {
    x.kind == TypeMolecule || x.ephemeral || (x.kind == TypeEpic && MOLECULE_TEMPLATE_LABEL in x.labels)
  }

  // ---- one id's parent chain ----

  function FirstParent(edges: seq<Dependency>): Option<Id> {
    if edges == [] then None
    else if edges[0].kind == DepParentChild then Some(edges[0].dependsOn)
    else FirstParent(edges[1..])
  }

  function Parent(s: Snapshot, x: Id): Option<Id> {
    if x in s.outbound then FirstParent(s.outbound[x]) else None
  }

  /** The node exactly k parents up. */
  function Ancestor(s: Snapshot, x: Id, k: nat): Option<Id>
    decreases k
  {
    if k == 0 then Some(x)
    else
      var p :- Parent(s, x);
      Ancestor(s, p, k - 1)
  }

  /** Up at most n parents, stopping at a node without one. */
  function Climb(s: Snapshot, x: Id, n: nat): Id
    decreases n
  {
    if n == 0 || Parent(s, x).None? then x else Climb(s, Parent(s, x).value, n - 1)
  }

  /** A chain that ends within the bound is climbed to its top. */
  lemma {:induction false} ClimbToTop(s: Snapshot, x: Id, k: nat, n: nat)
    requires k <= n && Ancestor(s, x, k).Some? && Parent(s, Ancestor(s, x, k).value).None?
    ensures Climb(s, x, n) == Ancestor(s, x, k).value
    decreases k
  {
    if k > 0 { ClimbToTop(s, Parent(s, x).value, k - 1, n - 1); }
  }

  /** A longer chain, a cycle included, is climbed exactly n parents. */
  lemma {:induction false} ClimbCutOff(s: Snapshot, x: Id, n: nat)
    requires forall k :: 0 <= k < n ==> Ancestor(s, x, k).Some? && Parent(s, Ancestor(s, x, k).value).Some?
    ensures Ancestor(s, x, n) == Some(Climb(s, x, n))
    decreases n
  {
    if n > 0 {
      assert Ancestor(s, x, 0) == Some(x);
      var p := Parent(s, x).value;
      forall k | 0 <= k < n - 1 ensures Ancestor(s, p, k).Some? && Parent(s, Ancestor(s, p, k).value).Some? {
        assert Ancestor(s, x, k + 1) == Ancestor(s, p, k);
      }
      ClimbCutOff(s, p, n - 1);
    }
  }

  // ---- the batched reads ----

  /** The first parent of every id, by one read of their edges. */
  method ParentChildParents(s: Snapshot, ids: seq<Id>) returns (parentOf: map<Id, Id>)
    ensures forall x :: x in parentOf ==> x in ids && Parent(s, x) == Some(parentOf[x])
    ensures forall x :: x in ids && x !in parentOf ==> Parent(s, x).None?
  {
    parentOf := map[];
    var i := 0;
    while i < |ids|
      invariant 0 <= i <= |ids|
      invariant forall x :: x in parentOf ==> x in ids && Parent(s, x) == Some(parentOf[x])
      invariant forall j :: 0 <= j < i && ids[j] !in parentOf ==> Parent(s, ids[j]).None?
    {
      var edges := if ids[i] in s.outbound then s.outbound[ids[i]] else [];
      var p := FindParent(edges);
      if p.Some? {
        parentOf := parentOf[ids[i] := p.value];
      }
      i := i + 1;
    }
  }

  method FindParent(edges: seq<Dependency>) returns (p: Option<Id>)
    ensures p == FirstParent(edges)
  {
    var j := 0;
    while j < |edges|
      invariant 0 <= j <= |edges| && FirstParent(edges[j..]) == FirstParent(edges)
    {
      if edges[j].kind == DepParentChild {
        return Some(edges[j].dependsOn);
      }
      assert edges[j..][1..] == edges[j + 1..];
      j := j + 1;
    }
    return None;
  }

  /** Each value once. */
  method DistinctValues(m: map<Id, Id>) returns (out: seq<Id>)
    ensures Distinct(out) && forall v :: v in out <==> v in m.Values
  {
    out := [];
    var todo := m.Keys;
    while todo != {}
      invariant todo <= m.Keys && Distinct(out)
      invariant forall v :: v in out <==> exists k :: k in m.Keys - todo && m[k] == v
      decreases todo
    {
      var k :| k in todo;
      if m[k] !in out {
        out := out + [m[k]];
      }
      todo := todo - {k};
    }
    assert m.Keys - todo == m.Keys;
  }

  /** One GetMany call: the rows that exist, for a request the role accepts. */
  method GetMany(s: Snapshot, ids: seq<Id>) returns (rows: seq<Issue>)
    requires s.Consistent() && |ids| <= 1000
    ensures forall x :: x in rows <==> x.id in ids && x.id in s.issues && s.issues[x.id] == x
  {
    rows := [];
    var i := 0;
    while i < |ids|
      invariant 0 <= i <= |ids|
      invariant forall x :: x in rows <==> x.id in ids[..i] && x.id in s.issues && s.issues[x.id] == x
    {
      assert ids[..i + 1] == ids[..i] + [ids[i]];
      if ids[i] in s.issues {
        rows := rows + [s.issues[ids[i]]];
      }
      i := i + 1;
    }
    assert ids[..i] == ids;
  }

  /** Read rows in batches the role accepts; wherever the boundaries fall the
      answer is the same as asking one id at a time. */
  method GetIssues(s: Snapshot, ids: seq<Id>) returns (out: map<Id, Issue>)
    requires s.Consistent()
    ensures out == map x | x in ids && x in s.issues :: s.issues[x]
  {
    out := map[];
    var start := 0;
    while start < |ids|
      invariant 0 <= start <= |ids|
      invariant out == map x | x in ids[..start] && x in s.issues :: s.issues[x]
    {
      var end := if start + MAX_GET_MANY_IDS < |ids| then start + MAX_GET_MANY_IDS else |ids|;
      var rows := GetMany(s, ids[start..end]);
      var batch := IndexRows(rows);
      assert ids[..end] == ids[..start] + ids[start..end];
      assert forall x :: x in batch <==> x in ids[start..end] && x in s.issues by {
        forall x | x in ids[start..end] && x in s.issues ensures x in batch {
          assert s.issues[x] in rows;
        }
      }
      out := out + batch;
      start := end;
    }
    assert ids[..start] == ids;
  }

  method IndexRows(rows: seq<Issue>) returns (m: map<Id, Issue>)
    requires forall x, y :: x in rows && y in rows && x.id == y.id ==> x == y
    ensures forall x :: x in rows ==> x.id in m && m[x.id] == x
    ensures forall k :: k in m ==> m[k] in rows && m[k].id == k
  {
    m := map[];
    var i := 0;
    while i < |rows|
      invariant 0 <= i <= |rows|
      invariant forall j :: 0 <= j < i ==> rows[j].id in m && m[rows[j].id] == rows[j]
      invariant forall k :: k in m ==> m[k] in rows && m[k].id == k
    {
      m := m[rows[i].id := rows[i]];
      i := i + 1;
    }
  }

  // ---- the walk ----

  /** Where every start stands after some levels: settled at its top, or still
      climbing with the levels left. */
  ghost predicate Climbing(s: Snapshot, ids: seq<Id>, topOf: map<Id, Id>, current: map<Id, Id>, left: nat) {
    && (forall x :: x in ids <==> x in topOf || x in current)
    && (forall x :: x in topOf ==> x !in current && topOf[x] == Climb(s, x, MAX_MOLECULE_DEPTH))
    && (forall x :: x in current ==> Climb(s, current[x], left) == Climb(s, x, MAX_MOLECULE_DEPTH))
  }

  method ClimbLevel(s: Snapshot, ids: seq<Id>, topOf: map<Id, Id>, current: map<Id, Id>, ghost left: nat)
      returns (topOf': map<Id, Id>, next: map<Id, Id>)
    requires Climbing(s, ids, topOf, current, left) && left > 0
    ensures Climbing(s, ids, topOf', next, left - 1)
  {
    var level := DistinctValues(current);
    var parentOf := ParentChildParents(s, level);
    next := map x | x in current && current[x] in parentOf :: parentOf[current[x]];
    topOf' := topOf + map x | x in current && current[x] !in parentOf :: current[x];
    forall x | x in current ensures current[x] in level {
      assert current[x] in current.Values;
    }
  }

  method TopOf(s: Snapshot, ids: seq<Id>) returns (topOf: map<Id, Id>)
    ensures topOf == map x | x in ids :: Climb(s, x, 50)
  {
    hide Climbing, Climb;
    topOf := map[];
    var current := map x | x in ids :: x;
    ClimbStart(s, ids);
    var depth := 0;
    while depth < MAX_MOLECULE_DEPTH && |current| > 0
      invariant 0 <= depth <= MAX_MOLECULE_DEPTH
      invariant Climbing(s, ids, topOf, current, MAX_MOLECULE_DEPTH - depth)
    {
      topOf, current := ClimbLevel(s, ids, topOf, current, MAX_MOLECULE_DEPTH - depth);
      depth := depth + 1;
    }
    ClimbEnd(s, ids, topOf, current, MAX_MOLECULE_DEPTH - depth);
    topOf := topOf + current;
  }

  lemma ClimbStart(s: Snapshot, ids: seq<Id>)
    ensures Climbing(s, ids, map[], map x | x in ids :: x, MAX_MOLECULE_DEPTH)
  {
  }

  lemma ClimbZero(s: Snapshot)
    ensures forall x :: Climb(s, x, 0) == x
  {
  }

  lemma ClimbEnd(s: Snapshot, ids: seq<Id>, topOf: map<Id, Id>, current: map<Id, Id>, left: nat)
    requires Climbing(s, ids, topOf, current, left) && (left == 0 || |current| == 0)
    ensures topOf + current == map x | x in ids :: Climb(s, x, MAX_MOLECULE_DEPTH)
  {
    var all := topOf + current;
    ClimbZero(s);
    hide Climb;
    forall x | x in ids ensures x in all && all[x] == Climb(s, x, MAX_MOLECULE_DEPTH) {}
  }

  /** The level-by-level walk answers, for each id, the row at the top of its
      own parent chain, when that row is a molecule root. */
  method MoleculeRootRows(s: Snapshot, ids: seq<Id>) returns (out: map<Id, Issue>)
    requires s.Consistent()
    ensures forall x :: x in out <==>
                        x in ids && var top := Climb(s, x, 50); top in s.issues && IsMoleculeRoot(s.issues[top])
    ensures forall x :: x in out ==> var top := Climb(s, x, 50); top in s.issues && out[x] == s.issues[top]
  {
    hide Climb;
    if |ids| == 0 {
      return map[];
    }
    var topOf := TopOf(s, ids);
    var wanted := DistinctValues(topOf);
    var tops := GetIssues(s, wanted);
    forall x | x in topOf ensures topOf[x] in wanted {
      assert topOf[x] in topOf.Values;
    }
    out := map x | x in topOf && topOf[x] in tops && IsMoleculeRoot(tops[topOf[x]]) :: tops[topOf[x]];
  }

  /** The molecule a step's close completed: an open root that closes itself,
      all of whose steps are closed. */
  method CompletedMolecule(s: Snapshot, stepId: Id) returns (r: Option<Issue>)
    requires s.Consistent()
    ensures var top := Climb(s, stepId, 50);
            var auto := top in s.issues && IsMoleculeRoot(s.issues[top]) && s.issues[top].status != Closed
                        && AutoClosesWhenComplete(s.issues[top]);
            r == if auto && AllClosed(s, top) then Some(s.issues[top]) else None
  {
    hide Climb, AllClosed;
    var rows := MoleculeRootRows(s, [stepId]);
    if stepId !in rows || rows[stepId].status == Closed || !AutoClosesWhenComplete(rows[stepId]) {
      return None;
    }
    var complete := MoleculeStepsClosed(s, rows[stepId].id);
    r := if complete then Some(rows[stepId]) else None;
  }

  /** The molecule roots that stay open when complete: epics without the template
      label, and rows of any other type that are roots by that label alone;
      an ephemeral root and a molecule never do. */
  lemma StaysOpen(x: Issue)
    requires IsMoleculeRoot(x)
    ensures !AutoClosesWhenComplete(x)
       <==> !x.ephemeral && (x.kind == TypeEpic <==> "template" !in x.labels) && x.kind != TypeMolecule
  {
  }

  /** A row is a molecule root by its type or by the template label. */
  lemma RootMeans(x: Issue)
    ensures !IsMoleculeRoot(x) <==> x.kind.TypeOther? && "template" !in x.labels
  {
  }

  /** A parent is the target of the first parent-child edge. */
  lemma {:induction false} FirstParentMeans(edges: seq<Dependency>, p: Id)
    ensures FirstParent(edges) == Some(p)
       <==> exists i :: 0 <= i < |edges| && edges[i].kind == DepParentChild && edges[i].dependsOn == p
                        && forall j :: 0 <= j < i ==> edges[j].kind != DepParentChild
  {
    if edges != [] && edges[0].kind != DepParentChild {
      FirstParentMeans(edges[1..], p);
      if FirstParent(edges[1..]) == Some(p) {
        var i :| 0 <= i < |edges[1..]| && edges[1..][i].kind == DepParentChild && edges[1..][i].dependsOn == p
                 && forall j :: 0 <= j < i ==> edges[1..][j].kind != DepParentChild;
        assert forall j :: 0 < j < i + 1 ==> edges[j] == edges[1..][j - 1];
        assert edges[i + 1].kind == DepParentChild;
      }
      if i :| 0 <= i < |edges| && edges[i].kind == DepParentChild && edges[i].dependsOn == p
              && forall j :: 0 <= j < i ==> edges[j].kind != DepParentChild {
        assert edges[1..][i - 1] == edges[i];
        assert forall j :: 0 <= j < i - 1 ==> edges[1..][j] == edges[j + 1];
      }
    }
  }
}
