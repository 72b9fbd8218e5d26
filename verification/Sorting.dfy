/** Sorting keyed entries by the UTF-16 code units of their keys. The source
    calls sort.SliceStable with this comparison; insertion sort stands for it. */
module Sorting {
  import opened Utf8
  import opened CodeUnits

  function Insert<T(!new)>(p: (Bytes, T), ps: seq<(Bytes, T)>): (r: seq<(Bytes, T)>)
    ensures |r| == |ps| + 1
    ensures forall q :: q in r <==> q == p || q in ps
  {
    if ps == [] || !Less(ps[0].0, p.0) then [p] + ps
    else [ps[0]] + Insert(p, ps[1..])
  }

  /** A stable ascending order of the entries. */
  function Sort<T(!new)>(ps: seq<(Bytes, T)>): (r: seq<(Bytes, T)>)
    ensures |r| == |ps|
    ensures forall q :: q in r <==> q in ps
  {
    if ps == [] then [] else Insert(ps[0], Sort(ps[1..]))
  }

  predicate HasKey<T(!new)>(ps: seq<(Bytes, T)>, k: Bytes) {
    exists i :: 0 <= i < |ps| && ps[i].0 == k
  }

  predicate DistinctKeys<T(!new)>(ps: seq<(Bytes, T)>) {
    ps == [] || (!HasKey(ps[1..], ps[0].0) && DistinctKeys(ps[1..]))
  }

  predicate ValidKeys<T(!new)>(ps: seq<(Bytes, T)>) {
    forall i :: 0 <= i < |ps| ==> Valid(ps[i].0)
  }

  /** Every key of ps is above k. */
  predicate AllAbove<T(!new)>(k: Bytes, ps: seq<(Bytes, T)>) {
    forall i :: 0 <= i < |ps| ==> Less(k, ps[i].0)
  }

  /** Keys ascend strictly. */
  predicate Ascending<T(!new)>(ps: seq<(Bytes, T)>) {
    ps == [] || (AllAbove(ps[0].0, ps[1..]) && Ascending(ps[1..]))
  }

  // ---- the sorted list ascends ----

  lemma AboveBelow<T(!new)>(k: Bytes, l: Bytes, ps: seq<(Bytes, T)>)
    requires Less(k, l) && AllAbove(l, ps)
    ensures AllAbove(k, ps)
  {
    hide Less;
    forall i | 0 <= i < |ps| ensures Less(k, ps[i].0) {
      LessTransitive(k, l, ps[i].0);
    }
  }

  /** Whatever holds of the inserted key and of the list holds of the result. */
  lemma InsertAbove<T(!new)>(k: Bytes, p: (Bytes, T), ps: seq<(Bytes, T)>)
    requires Less(k, p.0) && AllAbove(k, ps)
    ensures AllAbove(k, Insert(p, ps))
  {
    hide Less;
    var r := Insert(p, ps);
    forall i | 0 <= i < |r| ensures Less(k, r[i].0) {
      assert r[i] in r;
    }
  }

  lemma {:induction false} InsertAscending<T(!new)>(p: (Bytes, T), ps: seq<(Bytes, T)>)
    requires Ascending(ps) && ValidKeys(ps) && Valid(p.0) && !HasKey(ps, p.0)
    ensures Ascending(Insert(p, ps))
  {
    hide Less;
    if ps != [] {
      if Less(ps[0].0, p.0) {
        InsertAscending(p, ps[1..]);
        InsertAbove(ps[0].0, p, ps[1..]);
        assert Insert(p, ps)[1..] == Insert(p, ps[1..]);
      } else {
        Trichotomy(ps[0].0, p.0);
        AboveBelow(p.0, ps[0].0, ps[1..]);
        assert ([p] + ps)[1..] == ps;
      }
    }
  }

  lemma {:induction false} SortAscending<T(!new)>(ps: seq<(Bytes, T)>)
    requires DistinctKeys(ps) && ValidKeys(ps)
    ensures Ascending(Sort(ps))
  {
    if ps != [] {
      SortAscending(ps[1..]);
      SortKeys(ps[1..]);
      InsertAscending(ps[0], Sort(ps[1..]));
    }
  }

  /** Sorting keeps the keys. */
  lemma SortKeys<T(!new)>(ps: seq<(Bytes, T)>)
    ensures forall k :: HasKey(Sort(ps), k) <==> HasKey(ps, k)
    ensures ValidKeys(ps) ==> ValidKeys(Sort(ps))
  {
    var r := Sort(ps);
    assert forall i :: 0 <= i < |r| ==> r[i] in r && r[i] in ps;
    assert forall i :: 0 <= i < |ps| ==> ps[i] in ps && ps[i] in r;
  }

  lemma {:induction false} AscendingDistinct<T(!new)>(ps: seq<(Bytes, T)>)
    requires Ascending(ps)
    ensures DistinctKeys(ps)
  {
    hide Less;
    if ps != [] {
      AscendingDistinct(ps[1..]);
      LessIrreflexive(ps[0].0);
    }
  }

  // ---- sorting looks at keys only ----

  function MapPayload<A(!new), B(!new)>(f: A -> B, ps: seq<(Bytes, A)>): (qs: seq<(Bytes, B)>)
    ensures |qs| == |ps|
    ensures forall i :: 0 <= i < |ps| ==> qs[i] == (ps[i].0, f(ps[i].1))
  {
    if ps == [] then [] else [(ps[0].0, f(ps[0].1))] + MapPayload(f, ps[1..])
  }

  lemma {:induction false} InsertMapped<A(!new), B(!new)>(f: A -> B, p: (Bytes, A), ps: seq<(Bytes, A)>)
    ensures MapPayload(f, Insert(p, ps)) == Insert((p.0, f(p.1)), MapPayload(f, ps))
  {
    hide Less;
    if ps == [] || !Less(ps[0].0, p.0) {
      assert ([p] + ps)[1..] == ps;
    } else {
      InsertMapped(f, p, ps[1..]);
      assert Insert(p, ps)[1..] == Insert(p, ps[1..]);
      assert MapPayload(f, ps)[1..] == MapPayload(f, ps[1..]);
    }
  }

  lemma {:induction false} SortMapped<A(!new), B(!new)>(f: A -> B, ps: seq<(Bytes, A)>)
    ensures MapPayload(f, Sort(ps)) == Sort(MapPayload(f, ps))
  {
    if ps != [] {
      SortMapped(f, ps[1..]);
      InsertMapped(f, ps[0], Sort(ps[1..]));
      assert MapPayload(f, ps)[1..] == MapPayload(f, ps[1..]);
    }
  }

  lemma MapKeys<A(!new), B(!new)>(f: A -> B, ps: seq<(Bytes, A)>)
    ensures forall k :: HasKey(MapPayload(f, ps), k) <==> HasKey(ps, k)
    ensures ValidKeys(MapPayload(f, ps)) <==> ValidKeys(ps)
  {
  }

  lemma {:induction false} MapDistinct<A(!new), B(!new)>(f: A -> B, ps: seq<(Bytes, A)>)
    ensures DistinctKeys(MapPayload(f, ps)) <==> DistinctKeys(ps)
  {
    if ps != [] {
      MapDistinct(f, ps[1..]);
      MapKeys(f, ps[1..]);
      assert MapPayload(f, ps)[1..] == MapPayload(f, ps[1..]);
    }
  }

  // ---- entries as a map ----

  function ToMap<T(!new)>(ps: seq<(Bytes, T)>): (m: map<Bytes, T>)
    ensures forall k :: k in m <==> HasKey(ps, k)
  {
    if ps == [] then map[]
    else
      assert forall k :: HasKey(ps, k) <==> k == ps[0].0 || HasKey(ps[1..], k) by { KeySplit(ps); }
      ToMap(ps[1..])[ps[0].0 := ps[0].1]
  }

  lemma KeySplit<T(!new)>(ps: seq<(Bytes, T)>)
    requires ps != []
    ensures forall k :: HasKey(ps, k) <==> k == ps[0].0 || HasKey(ps[1..], k)
  {
    forall k | HasKey(ps, k) ensures k == ps[0].0 || HasKey(ps[1..], k) {
      var i :| 0 <= i < |ps| && ps[i].0 == k;
      if i > 0 { assert ps[1..][i - 1].0 == k; }
    }
    forall k | HasKey(ps[1..], k) ensures HasKey(ps, k) {
      var i :| 0 <= i < |ps[1..]| && ps[1..][i].0 == k;
      assert ps[i + 1].0 == k;
    }
  }

  lemma {:induction false} ToMapHolds<T(!new)>(ps: seq<(Bytes, T)>)
    requires DistinctKeys(ps)
    ensures forall q :: q in ps ==> q.0 in ToMap(ps) && ToMap(ps)[q.0] == q.1
  {
    if ps != [] {
      var rest := ps[1..];
      ToMapHolds(rest);
      forall q | q in ps ensures q.0 in ToMap(ps) && ToMap(ps)[q.0] == q.1 {
        if q in rest {
          var i :| 0 <= i < |rest| && rest[i] == q;
          assert HasKey(rest, q.0);
        }
      }
    }
  }

  /** Sorting distinct entries does not change the map they form. */
  lemma SortKeepsMap<T(!new)>(ps: seq<(Bytes, T)>)
    requires DistinctKeys(ps) && ValidKeys(ps)
    ensures ToMap(Sort(ps)) == ToMap(ps)
  {
    SortAscending(ps);
    AscendingDistinct(Sort(ps));
    SameMap(ps, Sort(ps));
  }

  lemma SameMap<T(!new)>(ps: seq<(Bytes, T)>, qs: seq<(Bytes, T)>)
    requires DistinctKeys(ps) && DistinctKeys(qs)
    requires forall q :: q in ps <==> q in qs
    ensures ToMap(ps) == ToMap(qs)
  {
    hide ToMap, DistinctKeys;
    ToMapHolds(ps);
    ToMapHolds(qs);
    forall k | k in ToMap(ps) ensures k in ToMap(qs) && ToMap(qs)[k] == ToMap(ps)[k] {
      var i :| 0 <= i < |ps| && ps[i].0 == k;
      assert ps[i] in qs;
    }
    forall k | k in ToMap(qs) ensures k in ToMap(ps) {
      var i :| 0 <= i < |qs| && qs[i].0 == k;
      assert qs[i] in ps;
    }
  }

  /** A strictly ascending list is determined by the map it forms. */
  lemma {:induction false} AscendingUnique<T(!new)>(ps: seq<(Bytes, T)>, qs: seq<(Bytes, T)>)
    requires Ascending(ps) && Ascending(qs)
    requires ToMap(ps) == ToMap(qs)
    ensures ps == qs
    decreases |ps|
  {
    hide Less;
    if ps == [] || qs == [] {
      NoEntries(ps, qs);
    } else {
      HeadsAgree(ps, qs);
      AscendingDistinct(ps);
      AscendingDistinct(qs);
      TailMap(ps);
      TailMap(qs);
      AscendingUnique(ps[1..], qs[1..]);
      assert ps == [ps[0]] + ps[1..];
      assert qs == [qs[0]] + qs[1..];
    }
  }

  lemma NoEntries<T(!new)>(ps: seq<(Bytes, T)>, qs: seq<(Bytes, T)>)
    requires ToMap(ps) == ToMap(qs)
    ensures ps == [] <==> qs == []
  {
    assert ps != [] ==> HasKey(ps, ps[0].0);
    assert qs != [] ==> HasKey(qs, qs[0].0);
  }

  lemma HeadsAgree<T(!new)>(ps: seq<(Bytes, T)>, qs: seq<(Bytes, T)>)
    requires Ascending(ps) && Ascending(qs) && ps != [] && qs != []
    requires ToMap(ps) == ToMap(qs)
    ensures ps[0] == qs[0]
  {
    hide Less;
    assert HasKey(ps, ps[0].0) && HasKey(qs, qs[0].0);
    var i :| 0 <= i < |qs| && qs[i].0 == ps[0].0;
    var j :| 0 <= j < |ps| && ps[j].0 == qs[0].0;
    if i > 0 && j > 0 {
      assert qs[1..][i - 1] == qs[i] && ps[1..][j - 1] == ps[j];
      LessTransitive(qs[0].0, ps[0].0, qs[0].0);
      LessIrreflexive(qs[0].0);
    }
    AscendingDistinct(ps);
    AscendingDistinct(qs);
    ToMapHolds(ps);
    ToMapHolds(qs);
  }

  lemma TailMap<T(!new)>(ps: seq<(Bytes, T)>)
    requires DistinctKeys(ps) && ps != []
    ensures ToMap(ps[1..]) == ToMap(ps) - {ps[0].0}
  {
    hide HasKey, DistinctKeys;
    DistinctHead(ps);
    PutThenDrop(ToMap(ps[1..]), ps[0].0, ps[0].1);
  }

  lemma DistinctHead<T(!new)>(ps: seq<(Bytes, T)>)
    requires DistinctKeys(ps) && ps != []
    ensures !HasKey(ps[1..], ps[0].0)
  {
  }

  lemma PutThenDrop<K, V>(m: map<K, V>, k: K, v: V)
    requires k !in m
    ensures m[k := v] - {k} == m
  {
  }

  // ---- sorting entries that may repeat a key ----

  /** No entry stands behind one it should precede. */
  predicate Weakly<T(!new)>(ps: seq<(Bytes, T)>) {
    forall i, j :: 0 <= i < j < |ps| ==> !Less(ps[j].0, ps[i].0)
  }

  lemma {:induction false} InsertWeakly<T(!new)>(p: (Bytes, T), ps: seq<(Bytes, T)>)
    requires Weakly(ps) && ValidKeys(ps) && Valid(p.0)
    ensures Weakly(Insert(p, ps))
  {
    hide Less, Valid;
    var r := Insert(p, ps);
    if ps == [] {
    } else if !Less(ps[0].0, p.0) {
      forall j | 0 <= j < |ps| ensures !Less(ps[j].0, p.0) {
        if j > 0 && Less(ps[j].0, p.0) { NotLessTransitive(ps[j].0, p.0, ps[0].0); }
      }
    } else {
      var rest := Insert(p, ps[1..]);
      InsertWeakly(p, ps[1..]);
      forall j | 0 <= j < |rest| ensures !Less(rest[j].0, ps[0].0) {
        assert rest[j] in rest;
        NotLessBack(ps[0].0, p.0);
      }
    }
  }

  lemma NotLessBack(a: Bytes, b: Bytes)
    requires Less(a, b)
    ensures !Less(b, a)
  {
    if Less(b, a) {
      LessTransitive(a, b, a);
      LessIrreflexive(a);
    }
  }

  /** a below b, and b not above c, puts a below c. */
  lemma NotLessTransitive(a: Bytes, b: Bytes, c: Bytes)
    requires Less(a, b) && !Less(c, b) && Valid(a) && Valid(b) && Valid(c)
    ensures Less(a, c)
  {
    hide Less, Valid;
    Trichotomy(b, c);
    if Less(b, c) { LessTransitive(a, b, c); }
  }

  lemma {:induction false} SortWeakly<T(!new)>(ps: seq<(Bytes, T)>)
    requires ValidKeys(ps)
    ensures Weakly(Sort(ps))
  {
    hide Insert, Less, Valid;
    if ps != [] {
      SortWeakly(ps[1..]);
      SortKeys(ps[1..]);
      InsertWeakly(ps[0], Sort(ps[1..]));
    }
  }

  predicate NoRepeat<T(!new)>(ps: seq<(Bytes, T)>) {
    forall i :: 0 < i < |ps| ==> ps[i - 1].0 != ps[i].0
  }

  lemma {:induction false} WeaklyAscending<T(!new)>(ps: seq<(Bytes, T)>)
    requires Weakly(ps) && NoRepeat(ps) && ValidKeys(ps)
    ensures Ascending(ps)
  {
    hide Less, Valid;
    if |ps| > 1 {
      var rest := ps[1..];
      assert forall i :: 0 < i < |rest| ==> rest[i - 1] == ps[i] && rest[i] == ps[i + 1];
      WeaklyAscending(rest);
      Trichotomy(ps[0].0, ps[1].0);
      assert !Less(ps[1].0, ps[0].0) && ps[0].0 != ps[1].0;
      assert rest[0] == ps[1];
      assert rest == [rest[0]] + rest[1..];
      AboveBelow(ps[0].0, rest[0].0, rest[1..]);
    }
  }

  lemma {:induction false} InsertDistinct<T(!new)>(p: (Bytes, T), ps: seq<(Bytes, T)>)
    requires DistinctKeys(Insert(p, ps))
    ensures DistinctKeys(ps) && !HasKey(ps, p.0)
  {
    hide Less;
    var r := Insert(p, ps);
    if ps == [] {
    } else if !Less(ps[0].0, p.0) {
      assert r[1..] == ps;
    } else {
      assert r[1..] == Insert(p, ps[1..]);
      InsertDistinct(p, ps[1..]);
      InsertHasKeys(p, ps[1..]);
      KeySplit(ps);
    }
  }

  lemma InsertHasKeys<T(!new)>(p: (Bytes, T), ps: seq<(Bytes, T)>)
    ensures HasKey(Insert(p, ps), p.0) && forall k :: HasKey(ps, k) ==> HasKey(Insert(p, ps), k)
  {
    hide Insert;
    var r := Insert(p, ps);
    assert p in r;
    forall k | HasKey(ps, k) ensures HasKey(r, k) {
      var i :| 0 <= i < |ps| && ps[i].0 == k;
      assert ps[i] in r;
    }
  }

  lemma {:induction false} SortedDistinct<T(!new)>(ps: seq<(Bytes, T)>)
    requires DistinctKeys(Sort(ps))
    ensures DistinctKeys(ps)
  {
    hide Insert;
    if ps != [] {
      InsertDistinct(ps[0], Sort(ps[1..]));
      SortedDistinct(ps[1..]);
      SortKeys(ps[1..]);
    }
  }

  /** Looking for equal neighbours in the sorted list finds every repeated
      key. */
  lemma NeighboursDecide<T(!new)>(ps: seq<(Bytes, T)>)
    requires ValidKeys(ps)
    ensures NoRepeat(Sort(ps)) <==> DistinctKeys(ps)
  {
    hide Sort, Less, Valid, Ascending, DistinctKeys;
    SortWeakly(ps);
    SortKeys(ps);
    if NoRepeat(Sort(ps)) {
      WeaklyAscending(Sort(ps));
      AscendingDistinct(Sort(ps));
      SortedDistinct(ps);
    }
    if DistinctKeys(ps) {
      SortAscending(ps);
      AscendingNoRepeat(Sort(ps));
    }
  }

  lemma {:induction false} AscendingNoRepeat<T(!new)>(ps: seq<(Bytes, T)>)
    requires Ascending(ps)
    ensures NoRepeat(ps)
  {
    hide Less;
    if |ps| > 1 {
      AscendingNoRepeat(ps[1..]);
      assert ps[1..][0] == ps[1];
      LessIrreflexive(ps[0].0);
      assert forall i :: 0 <= i < |ps[1..]| ==> ps[1..][i] == ps[i + 1];
    }
  }

  /** Sorting leaves an ascending list alone. */
  lemma SortOfAscending<T(!new)>(ps: seq<(Bytes, T)>)
    requires Ascending(ps) && ValidKeys(ps)
    ensures Sort(ps) == ps
  {
    hide Sort, Less, Valid, Ascending;
    AscendingDistinct(ps);
    SortAscending(ps);
    SortKeepsMap(ps);
    AscendingUnique(Sort(ps), ps);
  }

  /** The order the entries came in does not matter. */
  lemma SortOfSame<T(!new)>(ps: seq<(Bytes, T)>, qs: seq<(Bytes, T)>)
    requires DistinctKeys(ps) && DistinctKeys(qs) && ValidKeys(ps) && ValidKeys(qs)
    requires forall q :: q in ps <==> q in qs
    ensures Sort(ps) == Sort(qs)
  {
    hide Sort, Less, Valid, Ascending;
    SortAscending(ps);
    SortAscending(qs);
    SortKeepsMap(ps);
    SortKeepsMap(qs);
    SameMap(ps, qs);
    AscendingUnique(Sort(ps), Sort(qs));
  }
}
