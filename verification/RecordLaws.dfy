/** The law of a served record over all its links at once. */
module RecordLaws {
  import opened Utf8
  import opened CodeUnits
  import opened JsonFields
  import opened References
  import opened Records

  /** Some declaration names this key. */
  predicate Declared(owns: seq<Decl>, key: Bytes) { exists d :: d in owns && d.typeUrl == key }

  /** How many links a declaration bounds: those of its Type, or all of them. */
  function LinksUnder(groups: seq<Group>, key: Bytes): nat {
    if groups == [] then 0
    else
      var g := groups[|groups| - 1];
      LinksUnder(groups[..|groups| - 1], key) + if key == Text("*") || g.typeUrl == key then |g.links| else 0
  }

  /** Every link is of its group's Type and leaves the Bead, and the paths of a
      group ascend. */
  predicate LinksServed(bead: Bytes, g: Group) {
    && (forall j :: 0 <= j < |g.links| ==> g.links[j].typeUrl == g.typeUrl && g.links[j].source.InScope? && g.links[j].source.path == bead)
    && forall i, j :: 0 <= i < j < |g.links| ==> Less(g.links[i].path, g.links[j].path)
  }

  /** One group to a Type, in order; a group for every declared Type; any other
      group nonempty and under the wildcard; and no declaration exceeded. */
  predicate Served(r: Record, owns: seq<Decl>) {
    && (forall i, j :: 0 <= i < j < |r.groups| ==> Less(r.groups[i].typeUrl, r.groups[j].typeUrl))
    && (forall i :: 0 <= i < |r.groups| ==> r.groups[i].typeUrl != Text("*") && LinksServed(r.beadPath, r.groups[i]))
    && (forall d :: d in owns ==> d.typeUrl == Text("*") || HasGroup(r.groups, d.typeUrl))
    && (forall i :: 0 <= i < |r.groups| && !Declared(owns, r.groups[i].typeUrl) ==>
                      r.groups[i].links != [] && Declared(owns, Text("*")))
    && (forall d :: d in owns ==> LinksUnder(r.groups, d.typeUrl) <= d.max)
  }

  lemma Stars()
    ensures STAR == Text("*")
  {
  }

  lemma {:induction false} AllUnderStar(groups: seq<Group>)
    ensures LinksUnder(groups, Text("*")) == Total(groups)
  {
    hide Text;
    if groups != [] { AllUnderStar(groups[..|groups| - 1]); }
  }

  lemma {:induction false} NoneUnder(groups: seq<Group>, key: Bytes)
    requires key != Text("*") && !HasGroup(groups, key)
    ensures LinksUnder(groups, key) == 0
  {
    hide Text;
    if groups != [] {
      var n := |groups| - 1;
      assert groups[n].typeUrl != key;
      assert forall i :: 0 <= i < n ==> groups[..n][i] == groups[i];
      NoneUnder(groups[..n], key);
    }
  }

  /** With distinct keys the links under a Type are those of its group. */
  lemma {:induction false} OneUnder(groups: seq<Group>, i: nat)
    requires i < |groups| && groups[i].typeUrl != Text("*")
    requires forall j, k :: 0 <= j < k < |groups| ==> groups[j].typeUrl != groups[k].typeUrl
    ensures LinksUnder(groups, groups[i].typeUrl) == |groups[i].links|
    decreases |groups|
  {
    hide Text;
    var n := |groups| - 1;
    var front := groups[..n];
    assert forall j :: 0 <= j < n ==> front[j] == groups[j];
    if i < n {
      OneUnder(front, i);
    } else {
      NoneUnder(front, groups[i].typeUrl);
    }
  }

  lemma {:induction false} PathsAscend(bead: Bytes, g: Group, i: nat, j: nat)
    requires LinksAllowed(bead, g) && i < j < |g.links|
    ensures Less(g.links[i].path, g.links[j].path)
    decreases j
  {
    hide Less;
    assert LinkAllowed(bead, g, j);
    if i < j - 1 {
      PathsAscend(bead, g, i, j - 1);
      LessTransitive(g.links[i].path, g.links[j - 1].path, g.links[j].path);
    }
  }

  lemma LinksAre(bead: Bytes, g: Group)
    ensures LinksAllowed(bead, g) <==> LinksServed(bead, g)
  {
    hide Less;
    if LinksAllowed(bead, g) {
      forall j | 0 <= j < |g.links|
        ensures g.links[j].typeUrl == g.typeUrl && g.links[j].source.InScope? && g.links[j].source.path == bead
      {
        assert LinkAllowed(bead, g, j);
      }
      forall i, j | 0 <= i < j < |g.links| ensures Less(g.links[i].path, g.links[j].path) { PathsAscend(bead, g, i, j); }
    }
    if LinksServed(bead, g) {
      forall j | 0 <= j < |g.links| ensures LinkAllowed(bead, g, j) {}
    }
  }

  lemma KeysApart(groups: seq<Group>)
    requires InOrder(groups)
    ensures forall j, k :: 0 <= j < k < |groups| ==> groups[j].typeUrl != groups[k].typeUrl
  {
    hide Less;
    forall j, k | 0 <= j < k < |groups| ensures groups[j].typeUrl != groups[k].typeUrl { LessIrreflexive(groups[j].typeUrl); }
  }

  /** The two statements of the law agree. */
  lemma LawfulExactly(r: Record, owns: seq<Decl>)
    ensures Lawful(r, owns) <==> Served(r, owns)
  {
    hide Less, Text, LinksAllowed, LinksServed, LinksUnder, Total;
    Stars();
    forall i | 0 <= i < |r.groups| ensures LinksAllowed(r.beadPath, r.groups[i]) <==> LinksServed(r.beadPath, r.groups[i]) {
      LinksAre(r.beadPath, r.groups[i]);
    }
    AllUnderStar(r.groups);
    if InOrder(r.groups) {
      KeysApart(r.groups);
      forall i | 0 <= i < |r.groups| && r.groups[i].typeUrl != Text("*")
        ensures LinksUnder(r.groups, r.groups[i].typeUrl) == |r.groups[i].links|
      {
        OneUnder(r.groups, i);
      }
    }
  }
}
