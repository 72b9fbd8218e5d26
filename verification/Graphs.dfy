/** Finite directed graphs: paths, reachability, cycles. */
module Graphs {
  type Id = string
  type Relation = set<(Id, Id)>

  predicate Distinct(ids: seq<Id>) {
    forall i, j :: 0 <= i < j < |ids| ==> ids[i] != ids[j]
  }

  /** A nonempty walk along edges. */
  ghost predicate IsPath(e: Relation, p: seq<Id>) {
    p != [] && forall i :: 0 <= i < |p| - 1 ==> (p[i], p[i + 1]) in e
  }

  ghost predicate PathFrom(e: Relation, p: seq<Id>, a: Id, b: Id) {
    IsPath(e, p) && p[0] == a && p[|p| - 1] == b
  }

  /** b can be reached from a in zero or more steps. */
  ghost predicate Reaches(e: Relation, a: Id, b: Id) {
    exists p :: PathFrom(e, p, a, b)
  }

  /** A walk of one or more steps from a node back to itself. */
  ghost predicate IsCycle(e: Relation, p: seq<Id>) {
    |p| > 1 && IsPath(e, p) && p[0] == p[|p| - 1]
  }

  ghost predicate Acyclic(e: Relation) {
    forall p :: !IsCycle(e, p)
  }

  lemma ReachesSelf(e: Relation, a: Id)
    ensures Reaches(e, a, a)
  {
    assert PathFrom(e, [a], a, a);
  }

  lemma ReachesEdge(e: Relation, a: Id, b: Id)
    requires (a, b) in e
    ensures Reaches(e, a, b)
  {
    assert PathFrom(e, [a, b], a, b);
  }

  lemma JoinPaths(e: Relation, p: seq<Id>, q: seq<Id>, a: Id, b: Id, c: Id)
    requires PathFrom(e, p, a, b) && PathFrom(e, q, b, c)
    ensures PathFrom(e, p + q[1..], a, c)
  {
    var r := p + q[1..];
    forall i | 0 <= i < |r| - 1 ensures (r[i], r[i + 1]) in e {
      if i >= |p| - 1 { assert r[i] == q[i - |p| + 1] && r[i + 1] == q[i - |p| + 2]; }
    }
  }

  lemma ReachesTransitive(e: Relation, a: Id, b: Id, c: Id)
    requires Reaches(e, a, b) && Reaches(e, b, c)
    ensures Reaches(e, a, c)
  {
    var p :| PathFrom(e, p, a, b);
    var q :| PathFrom(e, q, b, c);
    JoinPaths(e, p, q, a, b, c);
  }

  /** A property every edge carries forward holds along every path. */
  lemma {:induction false} ClosedUnderPath(e: Relation, s: set<Id>, p: seq<Id>)
    requires IsPath(e, p) && p[0] in s
    requires forall x, y :: x in s && (x, y) in e ==> y in s
    ensures p[|p| - 1] in s
    decreases |p|
  {
    if |p| > 1 {
      assert (p[0], p[1]) in e;
      assert forall i :: 0 <= i < |p[1..]| - 1 ==> (p[1..][i], p[1..][i + 1]) == (p[i + 1], p[i + 2]);
      ClosedUnderPath(e, s, p[1..]);
    }
  }

  lemma ReachesInto(e: Relation, s: set<Id>, a: Id, b: Id)
    requires Reaches(e, a, b) && a in s
    requires forall x, y :: x in s && (x, y) in e ==> y in s
    ensures b in s
  {
    var p :| PathFrom(e, p, a, b);
    ClosedUnderPath(e, s, p);
  }

  function Successors(e: Relation, x: Id): set<Id> { set p | p in e && p.0 == x :: p.1 }

  /** Everything reachable is one step away exactly when two steps to another
      node can always be made one. */
  lemma OneStepExactly(e: Relation)
    ensures (forall x, y :: x != y && Reaches(e, x, y) ==> (x, y) in e) <==>
            (forall x, z, y :: (x, z) in e && (z, y) in e && x != y ==> (x, y) in e)
  {
    if forall x, z, y :: (x, z) in e && (z, y) in e && x != y ==> (x, y) in e {
      forall x, y | x != y && Reaches(e, x, y) ensures (x, y) in e {
        ReachesInto(e, Successors(e, x) + {x}, x, y);
      }
    }
    if forall x, y :: x != y && Reaches(e, x, y) ==> (x, y) in e {
      forall x, z, y | (x, z) in e && (z, y) in e && x != y ensures (x, y) in e {
        ReachesEdge(e, x, z);
        ReachesEdge(e, z, y);
        ReachesTransitive(e, x, z, y);
      }
    }
  }

  lemma SmallerAcyclic(e: Relation, f: Relation)
    requires Acyclic(e) && f <= e
    ensures Acyclic(f)
  {
    forall p ensures !IsCycle(f, p) {
      if IsCycle(f, p) { assert IsCycle(e, p); }
    }
  }

  /** A walk from a back to a predecessor of a closes a cycle. */
  lemma CycleThrough(e: Relation, a: Id, b: Id)
    requires (a, b) in e && Reaches(e, b, a)
    ensures !Acyclic(e)
  {
    var p :| PathFrom(e, p, b, a);
    assert PathFrom(e, [a, b], a, b);
    JoinPaths(e, [a, b], p, a, b, a);
    assert IsCycle(e, [a, b] + p[1..]);
  }

  // ---- in a finite acyclic graph some node has no successor ----

  ghost predicate HasSuccessor(e: Relation, s: set<Id>, x: Id) {
    exists y :: y in s && (x, y) in e
  }

  ghost predicate NoSink(e: Relation, s: set<Id>) {
    forall x {:trigger HasSuccessor(e, s, x)} :: x in s ==> HasSuccessor(e, s, x)
  }

  /** Extend a walk inside s while every node of s has a successor in s. */
  lemma {:induction false} LongWalk(e: Relation, s: set<Id>, n: nat) returns (p: seq<Id>)
    requires s != {} && NoSink(e, s)
    ensures IsPath(e, p) && |p| == n + 1 && forall i :: 0 <= i < |p| ==> p[i] in s
  {
    if n == 0 {
      var x :| x in s;
      p := [x];
    } else {
      var q := LongWalk(e, s, n - 1);
      var last := q[|q| - 1];
      assert HasSuccessor(e, s, last);
      var y :| y in s && (last, y) in e;
      p := q + [y];
      forall i | 0 <= i < |p| - 1 ensures (p[i], p[i + 1]) in e {
        if i < |q| - 1 { assert p[i] == q[i] && p[i + 1] == q[i + 1]; }
      }
    }
  }

  /** A sequence longer than the set it draws from repeats an element. */
  lemma {:induction false} Pigeonhole(s: set<Id>, p: seq<Id>) returns (i: nat, j: nat)
    requires |p| > |s| && forall k :: 0 <= k < |p| ==> p[k] in s
    ensures i < j < |p| && p[i] == p[j]
    decreases |p|
  {
    var last := |p| - 1;
    if k :| 0 <= k < last && p[k] == p[last] {
      i, j := k, last;
    } else {
      assert p[last] in s;
      i, j := Pigeonhole(s - {p[last]}, p[..last]);
    }
  }

  lemma NoSinkHasCycle(e: Relation, s: set<Id>)
    requires s != {} && NoSink(e, s)
    ensures !Acyclic(e)
  {
    var p := LongWalk(e, s, |s|);
    var i, j := Pigeonhole(s, p);
    var c := p[i..j + 1];
    assert forall k :: 0 <= k < |c| - 1 ==> (c[k], c[k + 1]) == (p[i + k], p[i + k + 1]);
    assert IsCycle(e, c);
  }

  lemma HasSink(e: Relation, s: set<Id>) returns (x: Id)
    requires Acyclic(e) && s != {}
    ensures x in s && forall y :: y in s ==> (x, y) !in e
  {
    if NoSink(e, s) { NoSinkHasCycle(e, s); }
    x :| x in s && !HasSuccessor(e, s, x);
  }
}
