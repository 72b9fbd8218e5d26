/** The check of a Bead's record: a one-pass merge of its groups
    with the owned-Link declarations of its Type. */
module Records {
  import opened Utf8
  import opened Wrappers
  import opened CodeUnits
  import opened Sorting
  import opened References

  /** The wildcard key. */
  const STAR: Bytes := [0x2A]

  datatype Decl = Decl(typeUrl: Bytes, caption: Bytes, max: nat)

  datatype Link = Link(typeUrl: Bytes, path: Bytes, source: Ref)

  datatype Group = Group(typeUrl: Bytes, links: seq<Link>)

  datatype Record = Record(beadPath: Bytes, groups: seq<Group>)

  /** Declarations as a descriptor holds them: one per key, each key valid
      UTF-8. Their order is free. */
  predicate Declarations(owns: seq<Decl>) {
    && (forall i :: 0 <= i < |owns| ==> Valid(owns[i].typeUrl))
    && forall i, j :: 0 <= i < j < |owns| ==> owns[i].typeUrl != owns[j].typeUrl
  }

  // ---- the law ----

  predicate Explicit(owns: seq<Decl>, key: Bytes) { exists d :: d in owns && d.typeUrl == key && key != STAR }

  predicate HasWildcard(owns: seq<Decl>) { exists d :: d in owns && d.typeUrl == STAR }

  predicate InOrder(groups: seq<Group>) {
    forall i, j :: 0 <= i < j < |groups| ==> Less(groups[i].typeUrl, groups[j].typeUrl)
  }

  /** A group is an explicit Type's, within its bound, or a nonempty group under
      the wildcard. */
  predicate GroupAllowed(owns: seq<Decl>, g: Group) {
    && g.typeUrl != STAR
    && (Explicit(owns, g.typeUrl) ==> forall d :: d in owns && d.typeUrl == g.typeUrl ==> |g.links| <= d.max)
    && (!Explicit(owns, g.typeUrl) ==> HasWildcard(owns) && g.links != [])
  }

  predicate LinkAllowed(bead: Bytes, g: Group, j: nat)
    requires j < |g.links|
  {
    var l := g.links[j];
    && l.typeUrl == g.typeUrl && l.source.InScope? && l.source.path == bead
    && (j > 0 ==> Less(g.links[j - 1].path, l.path))
  }

  predicate LinksAllowed(bead: Bytes, g: Group) { forall j :: 0 <= j < |g.links| ==> LinkAllowed(bead, g, j) }

  predicate HasGroup(groups: seq<Group>, key: Bytes) { exists i :: 0 <= i < |groups| && groups[i].typeUrl == key }

  function Total(groups: seq<Group>): nat {
    if groups == [] then 0 else Total(groups[..|groups| - 1]) + |groups[|groups| - 1].links|
  }

  predicate Lawful(r: Record, owns: seq<Decl>) {
    && InOrder(r.groups)
    && (forall i :: 0 <= i < |r.groups| ==> GroupAllowed(owns, r.groups[i]) && LinksAllowed(r.beadPath, r.groups[i]))
    && (forall d :: d in owns && d.typeUrl != STAR ==> HasGroup(r.groups, d.typeUrl))
    && (forall d :: d in owns && d.typeUrl == STAR ==> Total(r.groups) <= d.max)
  }

  // ---- the check ----

  /** The declarations that name a Type, keyed by it. */
  function Named(owns: seq<Decl>): (r: seq<(Bytes, Decl)>)
    ensures forall p :: p in r <==> p.1 in owns && p.0 == p.1.typeUrl && p.0 != STAR
  {
    if owns == [] then []
    else
      var n := |owns| - 1;
      assert owns == owns[..n] + [owns[n]];
      var front := Named(owns[..n]);
      if owns[n].typeUrl == STAR then front else front + [(owns[n].typeUrl, owns[n])]
  }

  lemma {:induction false} NamedDistinct(owns: seq<Decl>)
    requires Declarations(owns)
    ensures ValidKeys(Named(owns)) && forall i, j :: 0 <= i < j < |Named(owns)| ==> Named(owns)[i].0 != Named(owns)[j].0
  {
    if owns != [] {
      var n := |owns| - 1;
      NamedDistinct(owns[..n]);
      assert forall i :: 0 <= i < |Named(owns[..n])| ==> Named(owns[..n])[i] in Named(owns[..n]);
      assert forall d :: d in owns[..n] ==> d.typeUrl != owns[n].typeUrl;
    }
  }

  lemma {:induction false} DistinctByPairs<T(!new)>(ps: seq<(Bytes, T)>)
    requires forall i, j :: 0 <= i < j < |ps| ==> ps[i].0 != ps[j].0
    ensures DistinctKeys(ps)
  {
    if ps != [] { DistinctByPairs(ps[1..]); }
  }

  /** Ascending keys, pair by pair. */
  lemma {:induction false} AscendingPairs<T(!new)>(ps: seq<(Bytes, T)>, i: nat, j: nat)
    requires Ascending(ps) && i < j < |ps|
    ensures Less(ps[i].0, ps[j].0)
  {
    hide Less;
    if i == 0 {
      assert ps[1..][j - 1] == ps[j];
    } else {
      AscendingPairs(ps[1..], i - 1, j - 1);
    }
  }

  method SplitDeclarations(owns: seq<Decl>) returns (named: seq<(Bytes, Decl)>, wildcard: Option<Decl>)
    requires Declarations(owns)
    ensures named == Named(owns)
    ensures wildcard.None? ==> !HasWildcard(owns)
    ensures wildcard.Some? ==> wildcard.value in owns && wildcard.value.typeUrl == STAR
  {
    named, wildcard := [], None;
    assert owns[..0] == [];
    for i := 0 to |owns|
      invariant named == Named(owns[..i])
      invariant wildcard.None? ==> forall j :: 0 <= j < i ==> owns[j].typeUrl != STAR
      invariant wildcard.Some? ==> wildcard.value in owns && wildcard.value.typeUrl == STAR
    {
      assert owns[..i + 1][..i] == owns[..i] && owns[..i + 1][i] == owns[i];
      if owns[i].typeUrl == STAR {
        wildcard := Some(owns[i]);
      } else {
        named := named + [(owns[i].typeUrl, owns[i])];
      }
    }
    assert owns[..|owns|] == owns;
  }

  method CheckLinks(bead: Bytes, g: Group) returns (ok: bool)
    ensures ok == LinksAllowed(bead, g)
  {
    for j := 0 to |g.links|
      invariant forall k :: 0 <= k < j ==> LinkAllowed(bead, g, k)
    {
      var l := g.links[j];
      if l.typeUrl != g.typeUrl || !l.source.InScope? || l.source.path != bead {
        assert !LinkAllowed(bead, g, j);
        return false;
      }
      if j > 0 {
        var c := CompareCodeUnits(g.links[j - 1].path, l.path);
        if c >= 0 {
          assert !LinkAllowed(bead, g, j);
          return false;
        }
      }
    }
    ok := true;
  }

  /** The explicit declarations in ascending order of key. */
  predicate Sorted(e: seq<(Bytes, Decl)>) { forall i, j :: 0 <= i < j < |e| ==> Less(e[i].0, e[j].0) }

  ghost predicate Lists(e: seq<(Bytes, Decl)>, owns: seq<Decl>) {
    Sorted(e) && forall p :: p in e <==> p.1 in owns && p.0 == p.1.typeUrl && p.0 != STAR
  }

  lemma SortLists(owns: seq<Decl>)
    requires Declarations(owns)
    ensures Lists(Sort(Named(owns)), owns)
  {
    hide Sort, Named, Ascending, Less, DistinctKeys;
    var e := Sort(Named(owns));
    NamedDistinct(owns);
    DistinctByPairs(Named(owns));
    SortAscending(Named(owns));
    forall i, j | 0 <= i < j < |e| ensures Less(e[i].0, e[j].0) { AscendingPairs(e, i, j); }
  }

  /** The first i groups have met exactly the first next declarations. */
  ghost predicate Merged(e: seq<(Bytes, Decl)>, groups: seq<Group>, i: nat, next: nat) {
    && i <= |groups| && next <= |e|
    && (forall k :: 0 <= k < next ==> HasGroup(groups[..i], e[k].0))
    && forall k :: next <= k < |e| ==> !HasGroup(groups[..i], e[k].0)
  }

  lemma HasGroupNext(groups: seq<Group>, i: nat, key: Bytes)
    requires i < |groups|
    ensures HasGroup(groups[..i + 1], key) <==> HasGroup(groups[..i], key) || groups[i].typeUrl == key
  {
    var a, b := groups[..i], groups[..i + 1];
    assert forall j :: 0 <= j < i ==> a[j] == b[j];
    assert b[i] == groups[i];
  }

  lemma OrderNext(groups: seq<Group>, i: nat)
    requires i < |groups| && InOrder(groups[..i])
    ensures InOrder(groups[..i + 1]) <==> (i > 0 ==> Less(groups[i - 1].typeUrl, groups[i].typeUrl))
  {
    hide Less;
    var a, b := groups[..i], groups[..i + 1];
    assert forall j :: 0 <= j < i ==> a[j] == b[j] == groups[j];
    assert b[i] == groups[i];
    if i > 0 && Less(groups[i - 1].typeUrl, groups[i].typeUrl) {
      forall j | 0 <= j < i ensures Less(groups[j].typeUrl, groups[i].typeUrl) {
        if j < i - 1 { LessTransitive(groups[j].typeUrl, groups[i - 1].typeUrl, groups[i].typeUrl); }
      }
    }
  }

  /** A key of the sorted list from next on is below everything behind it. */
  lemma NotBelow(e: seq<(Bytes, Decl)>, owns: seq<Decl>, groups: seq<Group>, i: nat, next: nat)
    requires Lists(e, owns) && Merged(e, groups, i, next) && i < |groups| && InOrder(groups[..i + 1])
    requires next < |e| ==> !Less(e[next].0, groups[i].typeUrl)
    ensures Explicit(owns, groups[i].typeUrl) <==> next < |e| && e[next].0 == groups[i].typeUrl
    ensures forall k :: next < k < |e| ==> e[k].0 != groups[i].typeUrl
  {
    hide Less;
    var key := groups[i].typeUrl;
    forall k | 0 <= k < next ensures e[k].0 != key { EarlierDiffers(groups, i, e[k].0); }
    forall k | next < k < |e| ensures e[k].0 != key { assert Less(e[next].0, e[k].0); }
    ExplicitListed(e, owns, key);
  }

  lemma EarlierDiffers(groups: seq<Group>, i: nat, key: Bytes)
    requires i < |groups| && InOrder(groups[..i + 1]) && HasGroup(groups[..i], key)
    ensures groups[i].typeUrl != key
  {
    hide Less;
    var b := groups[..i + 1];
    var j :| 0 <= j < i && groups[..i][j].typeUrl == key;
    assert Less(b[j].typeUrl, b[i].typeUrl);
    LessIrreflexive(key);
  }

  lemma ExplicitListed(e: seq<(Bytes, Decl)>, owns: seq<Decl>, key: Bytes)
    requires Lists(e, owns)
    ensures Explicit(owns, key) <==> exists k :: 0 <= k < |e| && e[k].0 == key
  {
    hide Less;
    if Explicit(owns, key) {
      var d :| d in owns && d.typeUrl == key && key != STAR;
      assert (key, d) in e;
    }
    if k :| 0 <= k < |e| && e[k].0 == key { assert e[k] in e; }
  }

  /** A declaration below the next group, unmet so far, has no group. */
  lemma NoGroup(e: seq<(Bytes, Decl)>, owns: seq<Decl>, groups: seq<Group>, i: nat, next: nat)
    requires Lists(e, owns) && Merged(e, groups, i, next) && next < |e|
    requires InOrder(groups) && (i < |groups| ==> Less(e[next].0, groups[i].typeUrl))
    ensures !HasGroup(groups, e[next].0)
  {
    hide Less;
    var key := e[next].0;
    forall j | 0 <= j < |groups| ensures groups[j].typeUrl != key {
      if j < i {
        assert groups[..i][j] == groups[j];
      } else {
        if j > i { LessTransitive(key, groups[i].typeUrl, groups[j].typeUrl); }
        LessIrreflexive(key);
      }
    }
  }

  lemma MergeNext(e: seq<(Bytes, Decl)>, groups: seq<Group>, i: nat, next: nat, met: bool)
    requires Merged(e, groups, i, next) && i < |groups|
    requires met ==> next < |e| && e[next].0 == groups[i].typeUrl
    requires !met && next < |e| ==> e[next].0 != groups[i].typeUrl
    requires forall k :: next < k < |e| ==> e[k].0 != groups[i].typeUrl
    ensures Merged(e, groups, i + 1, if met then next + 1 else next)
  {
    hide HasGroup;
    forall k | 0 <= k < |e| ensures HasGroup(groups[..i + 1], e[k].0) <==> HasGroup(groups[..i], e[k].0) || groups[i].typeUrl == e[k].0 {
      HasGroupNext(groups, i, e[k].0);
    }
  }

  // ---- one group ----

  /** The checks a group must pass, given what the merge knows. */
  method CheckGroup(r: Record, owns: seq<Decl>, e: seq<(Bytes, Decl)>, wildcard: bool, i: nat, next: nat)
      returns (ok: bool, met: bool)
    requires Declarations(owns) && Lists(e, owns) && wildcard == HasWildcard(owns)
    requires Merged(e, r.groups, i, next) && i < |r.groups| && InOrder(r.groups[..i])
    ensures ok ==> InOrder(r.groups[..i + 1]) && Merged(e, r.groups, i + 1, if met then next + 1 else next)
    ensures ok ==> GroupAllowed(owns, r.groups[i]) && LinksAllowed(r.beadPath, r.groups[i])
    ensures !ok ==> !Lawful(r, owns)
  {
    hide Less, LinksAllowed, Merged, Lists, Declarations, HasWildcard;
    var group := r.groups[i];
    ok, met := false, false;
    OrderNext(r.groups, i);
    PrefixOrder(r.groups, i + 1);
    if group.typeUrl == STAR {
      return;
    }
    if i > 0 {
      var c := CompareCodeUnits(r.groups[i - 1].typeUrl, group.typeUrl);
      CompareIsLess(r.groups[i - 1].typeUrl, group.typeUrl, c);
      if c >= 0 {
        return;
      }
    }
    if next < |e| {
      var c := CompareCodeUnits(e[next].0, group.typeUrl);
      CompareIsLess(e[next].0, group.typeUrl, c);
      if c < 0 {
        Unmet(r, owns, e, i, next);
        return;
      }
    }
    NotBelow(e, owns, r.groups, i, next);
    met := next < |e| && e[next].0 == group.typeUrl;
    MergeNext(e, r.groups, i, next, met);
    if met {
      BoundOf(owns, e, next, group);
      if |group.links| > e[next].1.max {
        return;
      }
    } else if !wildcard || |group.links| == 0 {
      return;
    }
    ok := CheckLinks(r.beadPath, group);
  }

  lemma PrefixOrder(groups: seq<Group>, n: nat)
    requires n <= |groups|
    ensures InOrder(groups) ==> InOrder(groups[..n])
  {
    hide Less;
  }

  lemma CompareIsLess(a: Bytes, b: Bytes, c: int)
    requires c == Lex(Units(a), Units(b))
    ensures Less(a, b) <==> c < 0
  {
  }

  lemma Unmet(r: Record, owns: seq<Decl>, e: seq<(Bytes, Decl)>, i: nat, next: nat)
    requires Lists(e, owns) && Merged(e, r.groups, i, next) && next < |e|
    requires i < |r.groups| ==> Less(e[next].0, r.groups[i].typeUrl)
    ensures !Lawful(r, owns)
  {
    hide Less;
    assert e[next] in e;
    if InOrder(r.groups) { NoGroup(e, owns, r.groups, i, next); }
  }

  /** The explicit declaration the merge stands at is the only one with its
      key. */
  lemma BoundOf(owns: seq<Decl>, e: seq<(Bytes, Decl)>, next: nat, g: Group)
    requires Declarations(owns) && Lists(e, owns) && next < |e| && e[next].0 == g.typeUrl
    ensures forall d :: d in owns && d.typeUrl == g.typeUrl <==> d == e[next].1
  {
    hide Less;
    assert e[next] in e;
  }

  // ---- the whole record ----

  lemma TotalNext(groups: seq<Group>, i: nat)
    requires i < |groups|
    ensures Total(groups[..i + 1]) == Total(groups[..i]) + |groups[i].links|
  {
    assert groups[..i + 1][..i] == groups[..i];
  }

  /** The merge accepts a record exactly when the law holds. */
  method CheckBeadRecord(r: Record, owns: seq<Decl>) returns (ok: bool)
    requires Declarations(owns)
    ensures ok == Lawful(r, owns)
  {
    hide Less, LinksAllowed, GroupAllowed, Merged, Lists, InOrder, Sort, Named, Declarations;
    var named, wildcard := SplitDeclarations(owns);
    var e := Sort(named);
    SortLists(owns);
    var next, total := 0, 0;
    MergeStart(e, r.groups);
    assert r.groups[..0] == [];
    for i := 0 to |r.groups|
      invariant InOrder(r.groups[..i]) && Merged(e, r.groups, i, next)
      invariant forall j :: 0 <= j < i ==> GroupAllowed(owns, r.groups[j]) && LinksAllowed(r.beadPath, r.groups[j])
      invariant total == Total(r.groups[..i])
    {
      var good, met := CheckGroup(r, owns, e, wildcard.Some?, i, next);
      if !good {
        return false;
      }
      if met { next := next + 1; }
      TotalNext(r.groups, i);
      total := total + |r.groups[i].links|;
    }
    assert r.groups[..|r.groups|] == r.groups;
    MergeBound(e, r.groups, |r.groups|, next);
    if next < |e| {
      Unmet(r, owns, e, |r.groups|, next);
      return false;
    }
    AllMet(e, owns, r.groups);
    if wildcard.Some? {
      OneWildcard(owns, wildcard.value);
    }
    ok := wildcard.None? || total <= wildcard.value.max;
  }

  lemma MergeStart(e: seq<(Bytes, Decl)>, groups: seq<Group>)
    ensures Merged(e, groups, 0, 0) && InOrder([])
  {
  }

  lemma MergeBound(e: seq<(Bytes, Decl)>, groups: seq<Group>, i: nat, next: nat)
    requires Merged(e, groups, i, next)
    ensures next <= |e|
  {
  }

  lemma AllMet(e: seq<(Bytes, Decl)>, owns: seq<Decl>, groups: seq<Group>)
    requires Lists(e, owns) && Merged(e, groups, |groups|, |e|)
    ensures forall d :: d in owns && d.typeUrl != STAR ==> HasGroup(groups, d.typeUrl)
  {
    hide Less, HasGroup;
    assert groups[..|groups|] == groups;
    forall d | d in owns && d.typeUrl != STAR ensures HasGroup(groups, d.typeUrl) {
      assert (d.typeUrl, d) in e;
      var k :| 0 <= k < |e| && e[k] == (d.typeUrl, d);
    }
  }

  lemma OneWildcard(owns: seq<Decl>, d: Decl)
    requires Declarations(owns) && d in owns && d.typeUrl == STAR
    ensures forall c :: c in owns && c.typeUrl == STAR ==> c == d
  {
  }

  // ---- ownership ----

  /** The declaration a Type is owned under: its own, else the wildcard. */
  ghost predicate OwnedUnder(owns: seq<Decl>, key: Bytes, d: Decl) {
    && key != STAR && d in owns
    && (d.typeUrl == key || (d.typeUrl == STAR && !Explicit(owns, key)))
  }

  method Owns(owns: seq<Decl>, key: Bytes) returns (r: Option<Decl>)
    ensures r.Some? ==> OwnedUnder(owns, key, r.value)
    ensures r.None? ==> forall d :: !OwnedUnder(owns, key, d)
  {
    if key == STAR {
      return None;
    }
    var wildcard: Option<Decl> := None;
    for i := 0 to |owns|
      invariant forall j :: 0 <= j < i ==> owns[j].typeUrl != key
      invariant wildcard.None? ==> forall j :: 0 <= j < i ==> owns[j].typeUrl != STAR
      invariant wildcard.Some? ==> wildcard.value in owns && wildcard.value.typeUrl == STAR
    {
      if owns[i].typeUrl == key {
        return Some(owns[i]);
      }
      if owns[i].typeUrl == STAR {
        wildcard := Some(owns[i]);
      }
    }
    r := wildcard;
  }

  /** Every group of an accepted record is keyed by a Type the descriptor owns,
      and holds no more Links than the declaration it is owned under allows. */
  lemma AcceptedIsOwned(r: Record, owns: seq<Decl>, i: nat) returns (d: Decl)
    requires Lawful(r, owns) && i < |r.groups|
    ensures OwnedUnder(owns, r.groups[i].typeUrl, d) && |r.groups[i].links| <= d.max
  {
    hide InOrder, LinksAllowed;
    var g := r.groups[i];
    assert GroupAllowed(owns, g);
    if Explicit(owns, g.typeUrl) {
      d :| d in owns && d.typeUrl == g.typeUrl && g.typeUrl != STAR;
    } else {
      d :| d in owns && d.typeUrl == STAR;
      TotalHolds(r.groups, i);
    }
  }

  lemma {:induction false} TotalHolds(groups: seq<Group>, i: nat)
    requires i < |groups|
    ensures |groups[i].links| <= Total(groups)
  {
    var n := |groups| - 1;
    if i < n { TotalHolds(groups[..n], i); }
  }
}
