/** The memoised depth recursion as a function of the order in which blockers
    are visited, and what holds of its result on every graph, cyclic or not. */
module DepthRuns {
  import opened Graphs
  import opened Molecules

  /** The memo: depths of completed nodes, and every node ever entered. */
  datatype Memo = Memo(depths: map<Id, nat>, visiting: set<Id>) {
    /** The nodes entered and not yet completed. */
    ghost function Stack(): set<Id> { visiting - depths.Keys }
  }

  /** The order in which the blockers of each node come up. */
  type Order = map<Id, seq<Id>>

  ghost predicate Lists(m: Molecule, order: Order) {
    order.Keys == m.status.Keys && forall x :: x in order ==> ListsAt(m, order, x)
  }

  ghost predicate ListsAt(m: Molecule, order: Order, x: Id)
    requires x in order
  {
    forall b :: b in order[x] <==> b in BlockedBy(m, x)
  }

  /** The depth of x, and the memo after asking for it. */
  function Visit(m: Molecule, order: Order, s: Memo, x: Id): (r: (Memo, nat))
    requires x in m.status
    ensures s.visiting <= r.0.visiting
    decreases m.status.Keys - s.visiting, 0, 0
  {
    if x in s.depths then (s, s.depths[x])
    else if x in s.visiting then (s, 0)
    else
      var t := Scan(m, order, Memo(s.depths, s.visiting + {x}), if x in order then order[x] else [], -1);
      (Memo(t.0.depths[x := t.1 + 1], t.0.visiting), t.1 + 1)
  }

  /** The deepest of the live blockers left, and the memo after asking. */
  function Scan(m: Molecule, order: Order, s: Memo, bs: seq<Id>, deepest: int): (r: (Memo, int))
    requires deepest >= -1
    ensures r.1 >= deepest && s.visiting <= r.0.visiting
    decreases m.status.Keys - s.visiting, 1, |bs|
  {
    if bs == [] then (s, deepest)
    else if !m.Live(bs[0]) then Scan(m, order, s, bs[1..], deepest)
    else
      var v := Visit(m, order, s, bs[0]);
      Scan(m, order, v.0, bs[1..], if v.1 > deepest then v.1 else deepest)
  }

  /** All nodes from the i-th on, in turn. */
  function VisitFrom(m: Molecule, order: Order, s: Memo, i: nat): Memo
    requires m.WellFormed() && i <= |m.ids|
    decreases |m.ids| - i
  {
    if i == |m.ids| then s else VisitFrom(m, order, Visit(m, order, s, m.ids[i]).0, i + 1)
  }

  const EMPTY: Memo := Memo(map[], {})

  /** The depths of a molecule whose blockers come up in this order. */
  function InOrder(m: Molecule, order: Order): map<Id, nat>
    requires m.WellFormed()
  {
    VisitFrom(m, order, EMPTY, 0).depths
  }

  /** The depths that some order gives. */
  ghost predicate Possible(m: Molecule, depths: map<Id, nat>)
    requires m.WellFormed()
  {
    exists order :: Lists(m, order) && depths == InOrder(m, order)
  }

  // ---- one step of each loop ----

  lemma VisitOld(m: Molecule, order: Order, s: Memo, x: Id)
    requires x in m.status && (x in s.depths || x in s.visiting)
    ensures Visit(m, order, s, x) == (s, if x in s.depths then s.depths[x] else 0)
  {
  }

  lemma VisitNew(m: Molecule, order: Order, s: Memo, x: Id, t: Memo, deepest: int)
    requires x in m.status && x in order && x !in s.depths && x !in s.visiting
    requires (t, deepest) == Scan(m, order, Memo(s.depths, s.visiting + {x}), order[x], -1)
    ensures Visit(m, order, s, x) == (Memo(t.depths[x := deepest + 1], t.visiting), deepest + 1)
  {
    hide Scan;
  }

  lemma ScanNext(m: Molecule, order: Order, s: Memo, bs: seq<Id>, i: nat, deepest: int)
    requires i < |bs| && deepest >= -1
    ensures Scan(m, order, s, bs[i..], deepest) ==
            if !m.Live(bs[i]) then Scan(m, order, s, bs[i + 1..], deepest)
            else var v := Visit(m, order, s, bs[i]);
                 Scan(m, order, v.0, bs[i + 1..], if v.1 > deepest then v.1 else deepest)
  {
    hide Visit;
    assert bs[i..][1..] == bs[i + 1..];
  }

  // ---- a node and its open blocker never get one depth ----

  /** The open blockers of completed nodes have been entered, and those that are
      completed have another depth. */
  ghost predicate Sound(m: Molecule, s: Memo) {
    s.depths.Keys <= s.visiting && forall x, b :: x in s.depths && b in OpenBlockers(m, x) && b != x ==> SoundAt(s, x, b)
  }

  predicate SoundAt(s: Memo, x: Id, b: Id)
    requires x in s.depths
  {
    b in s.visiting && (b in s.depths ==> s.depths[b] != s.depths[x])
  }

  /** t continues s: nothing completed changes, the stack is the same, and what
      is newly completed lies at most at d. */
  ghost predicate Continues(s: Memo, t: Memo, d: int) {
    && s.visiting <= t.visiting && s.Stack() == t.Stack()
    && (forall y :: y in s.depths ==> y in t.depths && t.depths[y] == s.depths[y])
    && (forall y :: y in t.depths && y !in s.depths ==> t.depths[y] <= d)
  }

  lemma ContinuesAll(s: Memo, t: Memo, u: Memo, d: int, e: int)
    requires Continues(s, t, d) && Continues(t, u, e) && d <= e
    ensures Continues(s, u, e)
  {
  }

  /** Entered, and at most at this depth if completed. */
  predicate Below(s: Memo, b: Id, d: int) { b in s.visiting && (b in s.depths ==> s.depths[b] <= d) }

  lemma BelowKept(s: Memo, t: Memo, b: Id, d: int, e: int)
    requires b in s.visiting && (b in s.depths ==> s.depths[b] <= d) && Continues(s, t, e) && d <= e
    ensures Below(t, b, e)
  {
    if b !in s.depths { assert b in s.Stack(); }
  }

  lemma {:induction false} VisitSound(m: Molecule, order: Order, s: Memo, x: Id)
    requires Lists(m, order) && x in m.status && Sound(m, s)
    ensures var r := Visit(m, order, s, x);
            && Sound(m, r.0) && Continues(s, r.0, r.1)
            && x in r.0.visiting && (x in r.0.depths ==> r.0.depths[x] == r.1)
    decreases m.status.Keys - s.visiting, 0, 0
  {
    if x !in s.depths && x !in s.visiting {
      hide Sound, Continues, Below, OpenBlockers;
      var s1 := Memo(s.depths, s.visiting + {x});
      Entered(m, s, x);
      ScanSound(m, order, s1, order[x], -1);
      var t := Scan(m, order, s1, order[x], -1);
      OpenListed(m, order, x);
      CompletedSound(m, s, x, t.0, t.1);
    }
  }

  lemma Entered(m: Molecule, s: Memo, x: Id)
    requires Sound(m, s) && x !in s.visiting
    ensures Sound(m, Memo(s.depths, s.visiting + {x}))
  {
    hide OpenBlockers;
    var t := Memo(s.depths, s.visiting + {x});
    forall y, b | y in t.depths && b in OpenBlockers(m, y) && b != y ensures SoundAt(t, y, b) { assert SoundAt(s, y, b); }
  }

  lemma OpenListed(m: Molecule, order: Order, x: Id)
    requires Lists(m, order) && x in m.status
    ensures forall b :: b in OpenBlockers(m, x) <==> b in order[x] && m.Live(b)
  {
    hide BlockedBy;
    assert ListsAt(m, order, x);
  }

  /** Completing x above all its blockers, and above all that was completed since
      it was entered. */
  lemma CompletedSound(m: Molecule, s: Memo, x: Id, t: Memo, deepest: int)
    requires Sound(m, s) && x !in s.visiting && Sound(m, t) && deepest >= -1
    requires Continues(Memo(s.depths, s.visiting + {x}), t, deepest)
    requires forall b :: b in OpenBlockers(m, x) ==> Below(t, b, deepest)
    ensures var r := Memo(t.depths[x := deepest + 1], t.visiting);
            Sound(m, r) && Continues(s, r, deepest + 1)
  {
    hide OpenBlockers;
    var s1, r := Memo(s.depths, s.visiting + {x}), Memo(t.depths[x := deepest + 1], t.visiting);
    assert x in s1.Stack();
    assert x !in t.depths;
    forall y, b | y in r.depths && b in OpenBlockers(m, y) && b != y ensures SoundAt(r, y, b) {
      CompletedPair(m, s, x, t, deepest, y, b);
    }
    assert r.Stack() == s.Stack() by { assert t.Stack() == s.Stack() + {x}; }
  }

  lemma CompletedPair(m: Molecule, s: Memo, x: Id, t: Memo, deepest: int, y: Id, b: Id)
    requires Sound(m, s) && x !in s.visiting && Sound(m, t) && deepest >= -1 && x !in t.depths && x in t.visiting
    requires Continues(Memo(s.depths, s.visiting + {x}), t, deepest)
    requires forall b :: b in OpenBlockers(m, x) ==> Below(t, b, deepest)
    requires (y == x || y in t.depths) && b in OpenBlockers(m, y) && b != y
    ensures SoundAt(Memo(t.depths[x := deepest + 1], t.visiting), y, b)
  {
    hide OpenBlockers;
    if y == x {
      assert Below(t, b, deepest);
    } else {
      assert SoundAt(t, y, b);
      if b == x { assert y !in s.depths; }
    }
  }

  lemma {:induction false} ScanSound(m: Molecule, order: Order, s: Memo, bs: seq<Id>, deepest: int)
    requires Lists(m, order) && Sound(m, s) && deepest >= -1
    ensures var r := Scan(m, order, s, bs, deepest);
            && Sound(m, r.0) && Continues(s, r.0, r.1)
            && forall b :: b in bs && m.Live(b) ==> Below(r.0, b, r.1)
    decreases m.status.Keys - s.visiting, 1, |bs|
  {
    if bs == [] {
      SameContinues(s, deepest);
    } else {
      hide Sound, Continues, Below, Visit;
      if m.Live(bs[0]) {
        var v := Visit(m, order, s, bs[0]);
        var d := if v.1 > deepest then v.1 else deepest;
        VisitSound(m, order, s, bs[0]);
        ScanSound(m, order, v.0, bs[1..], d);
        var r := Scan(m, order, v.0, bs[1..], d);
        ContinuesAll(s, v.0, r.0, v.1, r.1);
        BelowKept(v.0, r.0, bs[0], v.1, r.1);
      } else {
        ScanSound(m, order, s, bs[1..], deepest);
      }
      FirstOrRest(bs);
    }
  }

  lemma FirstOrRest(bs: seq<Id>)
    requires bs != []
    ensures forall b :: b in bs <==> b == bs[0] || b in bs[1..]
  {
    assert bs == [bs[0]] + bs[1..];
  }

  lemma SameContinues(s: Memo, d: int)
    ensures Continues(s, s, d)
  {
  }

  // ---- no depth exceeds the number of completed nodes ----

  ghost predicate Bounded(s: Memo) { forall x :: x in s.depths ==> s.depths[x] <= |s.depths| }

  lemma CompletedBounded(s: Memo, x: Id, d: nat)
    requires Bounded(s) && x !in s.depths && d <= |s.depths| + 1
    ensures var depths := s.depths[x := d];
            |depths| == |s.depths| + 1 && Bounded(Memo(depths, s.visiting))
  {
    var depths := s.depths[x := d];
    assert depths.Keys == s.depths.Keys + {x};
    assert |depths| == |depths.Keys| && |s.depths| == |s.depths.Keys|;
  }

  lemma EnteredStays(s: Memo, x: Id, t: Memo, d: int)
    requires x !in s.visiting && s.depths.Keys <= s.visiting && Continues(Memo(s.depths, s.visiting + {x}), t, d)
    ensures x !in t.depths
  {
    assert x in Memo(s.depths, s.visiting + {x}).Stack();
  }

  lemma {:induction false} VisitBounded(m: Molecule, order: Order, s: Memo, x: Id)
    requires Lists(m, order) && x in m.status && Sound(m, s) && Bounded(s)
    ensures var r := Visit(m, order, s, x);
            Bounded(r.0) && r.1 <= |r.0.depths| && |s.depths| <= |r.0.depths|
    decreases m.status.Keys - s.visiting, 0, 0
  {
    if x !in s.depths && x !in s.visiting {
      hide OpenBlockers, Continues, Scan, Bounded;
      var s1 := Memo(s.depths, s.visiting + {x});
      Entered(m, s, x);
      ScanSound(m, order, s1, order[x], -1);
      SameBounded(s, s1);
      ScanBounded(m, order, s1, order[x], -1);
      var t := Scan(m, order, s1, order[x], -1);
      EnteredStays(s, x, t.0, t.1);
      CompletedBounded(t.0, x, t.1 + 1);
    }
  }

  lemma SameBounded(s: Memo, t: Memo)
    requires Bounded(s) && t.depths == s.depths
    ensures Bounded(t)
  {
  }

  lemma {:induction false} ScanBounded(m: Molecule, order: Order, s: Memo, bs: seq<Id>, deepest: int)
    requires Lists(m, order) && Sound(m, s) && Bounded(s) && -1 <= deepest <= |s.depths|
    ensures var r := Scan(m, order, s, bs, deepest);
            Bounded(r.0) && r.1 <= |r.0.depths| && |s.depths| <= |r.0.depths|
    decreases m.status.Keys - s.visiting, 1, |bs|
  {
    if bs != [] {
      hide Sound, Bounded, Visit, Lists, Continues;
      if m.Live(bs[0]) {
        var v := Visit(m, order, s, bs[0]);
        VisitSound(m, order, s, bs[0]);
        VisitBounded(m, order, s, bs[0]);
        ScanBounded(m, order, v.0, bs[1..], if v.1 > deepest then v.1 else deepest);
      } else {
        ScanBounded(m, order, s, bs[1..], deepest);
      }
    }
  }

  // ---- the whole run ----

  /** What the loop over the nodes keeps. */
  ghost predicate Settled(m: Molecule, s: Memo, i: nat)
    requires i <= |m.ids|
  {
    && Sound(m, s) && Bounded(s) && s.Stack() == {}
    && s.depths.Keys <= m.status.Keys && forall j :: 0 <= j < i ==> m.ids[j] in s.depths
  }

  lemma EmptySettled(m: Molecule)
    ensures Settled(m, EMPTY, 0)
  {
  }

  lemma SettledNext(m: Molecule, order: Order, s: Memo, i: nat)
    requires m.WellFormed() && Lists(m, order) && i < |m.ids| && Settled(m, s, i)
    ensures Settled(m, Visit(m, order, s, m.ids[i]).0, i + 1)
  {
    hide Sound, Bounded, Visit, Lists, Distinct;
    var x := m.ids[i];
    VisitSound(m, order, s, x);
    VisitBounded(m, order, s, x);
    VisitInside(m, order, s, x);
    var r := Visit(m, order, s, x);
    assert x in r.0.depths by { assert x !in r.0.Stack(); }
  }

  lemma {:induction false} VisitInside(m: Molecule, order: Order, s: Memo, x: Id)
    requires x in m.status && s.depths.Keys <= m.status.Keys
    ensures Visit(m, order, s, x).0.depths.Keys <= m.status.Keys
    decreases m.status.Keys - s.visiting, 0, 0
  {
    if x !in s.depths && x !in s.visiting {
      hide Scan;
      ScanInside(m, order, Memo(s.depths, s.visiting + {x}), if x in order then order[x] else [], -1);
    }
  }

  lemma {:induction false} ScanInside(m: Molecule, order: Order, s: Memo, bs: seq<Id>, deepest: int)
    requires s.depths.Keys <= m.status.Keys && deepest >= -1
    ensures Scan(m, order, s, bs, deepest).0.depths.Keys <= m.status.Keys
    decreases m.status.Keys - s.visiting, 1, |bs|
  {
    if bs != [] {
      hide Visit;
      if m.Live(bs[0]) {
        var v := Visit(m, order, s, bs[0]);
        VisitInside(m, order, s, bs[0]);
        ScanInside(m, order, v.0, bs[1..], if v.1 > deepest then v.1 else deepest);
      } else {
        ScanInside(m, order, s, bs[1..], deepest);
      }
    }
  }

  lemma {:induction false} VisitFromSettled(m: Molecule, order: Order, s: Memo, i: nat)
    requires m.WellFormed() && Lists(m, order) && i <= |m.ids| && Settled(m, s, i)
    ensures Settled(m, VisitFrom(m, order, s, i), |m.ids|)
    decreases |m.ids| - i
  {
    if i < |m.ids| {
      hide Settled, Visit, Lists, Distinct;
      SettledNext(m, order, s, i);
      VisitFromSettled(m, order, Visit(m, order, s, m.ids[i]).0, i + 1);
    }
  }

  lemma RunSettled(m: Molecule, order: Order)
    requires m.WellFormed() && Lists(m, order)
    ensures Settled(m, VisitFrom(m, order, EMPTY, 0), |m.ids|)
  {
    hide Settled, Lists, Distinct;
    EmptySettled(m);
    VisitFromSettled(m, order, EMPTY, 0);
  }

  /** Every node gets a depth. */
  lemma AllNodes(m: Molecule, order: Order)
    requires m.WellFormed() && Lists(m, order)
    ensures InOrder(m, order).Keys == m.status.Keys
  {
    hide Sound, Bounded, Lists, Distinct, VisitFrom;
    RunSettled(m, order);
    var s := VisitFrom(m, order, EMPTY, 0);
    forall x | x in m.status ensures x in s.depths {
      var j :| 0 <= j < |m.ids| && m.ids[j] == x;
    }
  }

  /** No depth exceeds the number of nodes, on any graph. */
  lemma DepthsBounded(m: Molecule, order: Order, x: Id)
    requires m.WellFormed() && Lists(m, order) && x in InOrder(m, order)
    ensures InOrder(m, order)[x] <= |m.ids|
  {
    hide Sound, Lists, VisitFrom;
    RunSettled(m, order);
    AllNodes(m, order);
    var depths := InOrder(m, order);
    DistinctCount(m.ids, depths.Keys);
    assert |depths| == |depths.Keys|;
  }

  lemma {:induction false} DistinctCount(xs: seq<Id>, s: set<Id>)
    requires Distinct(xs)
    requires forall x :: x in s <==> x in xs
    ensures |s| == |xs|
    decreases |xs|
  {
    if xs != [] {
      var rest := xs[1..];
      assert forall x :: x in rest ==> x in xs;
      assert forall x :: x in s - {xs[0]} <==> x in rest;
      DistinctCount(rest, s - {xs[0]});
    } else {
      assert s == {};
    }
  }

  /** Whatever the graph and the order, no node shares its depth with an open
      blocker other than itself. */
  lemma NeverLevel(m: Molecule, order: Order, x: Id, b: Id)
    requires m.WellFormed() && Lists(m, order) && x in InOrder(m, order) && b in OpenBlockers(m, x) && b != x
    ensures b in InOrder(m, order) && InOrder(m, order)[b] != InOrder(m, order)[x]
  {
    hide OpenBlockers, VisitFrom, Bounded, Lists, Distinct;
    RunSettled(m, order);
    var s := VisitFrom(m, order, EMPTY, 0);
    assert SoundAt(s, x, b);
    assert b in s.depths by { assert b !in s.Stack(); }
  }
}
