/** Type Descriptors: the closed shape, the constructor's laws, and the
    canonical JSON they round-trip through. */
module Descriptors {
  import opened Utf8
  import opened Wrappers
  import opened CodeUnits
  import opened Integers
  import opened Sorting
  import opened Json
  import opened JsonFields
  import opened Escapes
  import opened UrlText
  import opened Hosts
  import opened ScopeUrls
  import opened Records

  /** What descriptors take from libraries: the IPv6 parser, the binary64 law
      inside the JSON rules, and SHA-256 in hex. */
  datatype Catalog = Catalog(parse: AddressParser, rules: Rules, hash: Bytes -> Bytes)

  // ---- Type URL lists ----

  predicate TypeUrl(c: Catalog, s: Bytes) { s != STAR && CanonicalUrl(c.parse, s) }

  lemma TypeUrlText(c: Catalog, s: Bytes)
    requires TypeUrl(c, s)
    ensures IsAscii(s) && Valid(s) && s != [] && Less(STAR, s)
  {
    hide Complete, CanonicalParts, Less, Valid;
    SchemeLeads(c, s);
    AsciiValid(s);
    StarFirst(s);
  }

  lemma SchemeLeads(c: Catalog, s: Bytes)
    requires TypeUrl(c, s)
    ensures IsAscii(s) && s != [] && s[0] == 0x68
  {
    hide Complete, SplitAuthority, SplitTail, OriginOf, UndisturbedPath;
    var p := SplitUrl(s).value;
    assert IsWeb(p.scheme);
    assert s[0] == p.scheme[0];
  }

  lemma StarFirst(s: Bytes)
    requires IsAscii(s) && s != [] && s[0] > 0x2A
    ensures Less(STAR, s)
  {
    AsciiOrder(STAR, s);
  }

  predicate Apart<T(==)>(s: seq<T>) { forall i, j :: 0 <= i < j < |s| ==> s[i] != s[j] }

  datatype Unit = Unit

  function Keyed(urls: seq<Bytes>): (ps: seq<(Bytes, Unit)>)
    ensures |ps| == |urls| && forall i :: 0 <= i < |urls| ==> ps[i] == (urls[i], Unit)
  {
    seq(|urls|, i requires 0 <= i < |urls| => (urls[i], Unit))
  }

  function Keys(ps: seq<(Bytes, Unit)>): (urls: seq<Bytes>)
    ensures |urls| == |ps| && forall i :: 0 <= i < |ps| ==> urls[i] == ps[i].0
  {
    seq(|ps|, i requires 0 <= i < |ps| => ps[i].0)
  }

  function InOrderUrls(urls: seq<Bytes>): seq<Bytes> { Keys(Sort(Keyed(urls))) }

  /** A list of distinct Type URLs, in code-unit order. */
  function UrlList(c: Catalog, urls: seq<Bytes>): Option<seq<Bytes>> {
    if Apart(urls) && forall i :: 0 <= i < |urls| ==> TypeUrl(c, urls[i]) then Some(InOrderUrls(urls)) else None
  }

  method TypeUrlList(c: Catalog, urls: seq<Bytes>) returns (r: Option<seq<Bytes>>)
    ensures r == UrlList(c, urls)
  {
    hide TypeUrl, InOrderUrls;
    var out: seq<Bytes> := [];
    var seen: set<Bytes> := {};
    for i := 0 to |urls|
      invariant out == urls[..i] && forall u :: u in seen <==> u in urls[..i]
      invariant forall j :: 0 <= j < i ==> TypeUrl(c, urls[j])
      invariant Apart(urls[..i])
    {
      if !TypeUrl(c, urls[i]) {
        return None;
      }
      if urls[i] in seen {
        var j :| 0 <= j < i && urls[..i][j] == urls[i];
        assert urls[j] == urls[i];
        return None;
      }
      seen := seen + {urls[i]};
      assert urls[..i + 1] == urls[..i] + [urls[i]];
      out := out + [urls[i]];
    }
    assert urls[..|urls|] == urls;
    r := Some(InOrderUrls(out));
  }

  lemma UrlsKeyed(urls: seq<Bytes>)
    requires Apart(urls)
    ensures DistinctKeys(Keyed(urls))
  {
    DistinctByPairs(Keyed(urls));
  }

  lemma UrlsValid(c: Catalog, urls: seq<Bytes>)
    requires forall i :: 0 <= i < |urls| ==> TypeUrl(c, urls[i])
    ensures ValidKeys(Keyed(urls)) && forall i :: 0 <= i < |urls| ==> Valid(urls[i])
  {
    hide TypeUrl, Valid;
    forall i | 0 <= i < |urls| ensures Valid(urls[i]) { TypeUrlText(c, urls[i]); }
  }

  lemma KeyedKeys(ps: seq<(Bytes, Unit)>)
    ensures Keyed(Keys(ps)) == ps
  {
    assert forall i :: 0 <= i < |ps| ==> ps[i].1 == Unit;
  }

  lemma SortedMembers(urls: seq<Bytes>, i: nat)
    requires i < |InOrderUrls(urls)|
    ensures InOrderUrls(urls)[i] in urls
  {
    var s := Sort(Keyed(urls));
    assert s[i] in s;
    assert s[i] in Keyed(urls);
  }

  /** A list the constructor returns is one it returns unchanged. */
  lemma UrlListNormal(c: Catalog, urls: seq<Bytes>)
    requires UrlList(c, urls).Some?
    ensures UrlList(c, UrlList(c, urls).value) == UrlList(c, urls)
  {
    hide TypeUrl, Sort, Less, Valid, DistinctKeys, Ascending;
    var r := InOrderUrls(urls);
    var s := Sort(Keyed(urls));
    UrlsKeyed(urls);
    UrlsValid(c, urls);
    SortAscending(Keyed(urls));
    SortKeys(Keyed(urls));
    KeyedKeys(s);
    SortOfAscending(s);
    assert Keyed(r) == s;
    assert InOrderUrls(r) == r;
    AscendingApart(s);
    forall i | 0 <= i < |r| ensures TypeUrl(c, r[i]) {
      SortedMembers(urls, i);
      var j :| 0 <= j < |urls| && urls[j] == r[i];
    }
  }

  lemma AscendingApart<T(!new)>(s: seq<(Bytes, T)>)
    requires Ascending(s)
    ensures forall i, j :: 0 <= i < j < |s| ==> s[i].0 != s[j].0
  {
    hide Less, Ascending;
    forall i, j | 0 <= i < j < |s| ensures s[i].0 != s[j].0 {
      AscendingPairs(s, i, j);
      LessIrreflexive(s[i].0);
    }
  }

  /** A permutation: the same entries as often. */
  ghost predicate Permutes<T>(a: seq<T>, b: seq<T>) { multiset(a) == multiset(b) }

  lemma PermutedMembers<T>(a: seq<T>, b: seq<T>)
    requires Permutes(a, b)
    ensures forall x :: x in a <==> x in b
  {
    forall x ensures x in a <==> x in b {
      assert x in a <==> x in multiset(a);
      assert x in b <==> x in multiset(b);
    }
  }

  lemma {:induction false} DistinctCounts<T>(a: seq<T>)
    ensures Apart(a) <==> forall x :: multiset(a)[x] <= 1
  {
    if a != [] {
      var n := |a| - 1;
      var front, last := a[..n], a[n];
      assert a == front + [last];
      assert multiset(a) == multiset(front) + multiset{last};
      DistinctCounts(front);
      if Apart(a) {
        assert last !in front;
      }
      if forall x :: multiset(a)[x] <= 1 {
        assert multiset(a)[last] == multiset(front)[last] + 1;
        assert last !in multiset(front);
        forall x ensures multiset(front)[x] <= 1 { assert multiset(front)[x] <= multiset(a)[x]; }
      }
    }
  }

  /** The authored order of a list does not matter. */
  lemma UrlListOrder(c: Catalog, a: seq<Bytes>, b: seq<Bytes>)
    requires Permutes(a, b)
    ensures UrlList(c, a) == UrlList(c, b)
  {
    hide TypeUrl, Sort, Valid, DistinctKeys;
    DistinctCounts(a);
    DistinctCounts(b);
    PermutedMembers(a, b);
    assert forall i :: 0 <= i < |a| ==> a[i] in b;
    assert forall i :: 0 <= i < |b| ==> b[i] in a;
    if UrlList(c, a).Some? {
      UrlsKeyed(a);
      UrlsKeyed(b);
      UrlsValid(c, a);
      UrlsValid(c, b);
      KeyedMembers(a, b);
      SortOfSame(Keyed(a), Keyed(b));
    }
  }

  lemma KeyedMembers(a: seq<Bytes>, b: seq<Bytes>)
    requires forall x :: x in a <==> x in b
    ensures forall q :: q in Keyed(a) <==> q in Keyed(b)
  {
    forall q ensures q in Keyed(a) <==> q.0 in a { KeyedMember(a, q); }
    forall q ensures q in Keyed(b) <==> q.0 in b { KeyedMember(b, q); }
  }

  lemma KeyedMember(a: seq<Bytes>, q: (Bytes, Unit))
    ensures q in Keyed(a) <==> q.0 in a
  {
    if q.0 in a {
      var i :| 0 <= i < |a| && a[i] == q.0;
      assert q.1 == Unit;
      assert Keyed(a)[i] == q;
    }
  }

  // ---- owned-Link declarations ----

  predicate GoodMax(c: Catalog, max: nat) { 1 <= max < INT64 && c.rules.Admits(max as real) }

  /** A declaration a constructor built: the wildcard, or an explicit Type. */
  predicate GoodDecl(c: Catalog, d: Decl) {
    && GoodMax(c, d.max)
    && (if d.typeUrl == STAR then d.caption == [] else TypeUrl(c, d.typeUrl) && Valid(d.caption))
  }

  /** A value of the declaration type: constructed, or the zero value. */
  predicate TypedDecl(c: Catalog, d: Decl) { d.typeUrl == [] || GoodDecl(c, d) }

  function KeyedDecls(owns: seq<Decl>): (ps: seq<(Bytes, Decl)>)
    ensures |ps| == |owns| && forall i :: 0 <= i < |owns| ==> ps[i] == (owns[i].typeUrl, owns[i])
  {
    seq(|owns|, i requires 0 <= i < |owns| => (owns[i].typeUrl, owns[i]))
  }

  function Decls(ps: seq<(Bytes, Decl)>): (owns: seq<Decl>)
    ensures |owns| == |ps| && forall i :: 0 <= i < |ps| ==> owns[i] == ps[i].1
  {
    seq(|ps|, i requires 0 <= i < |ps| => ps[i].1)
  }

  function SortedDecls(owns: seq<Decl>): seq<Decl> { Decls(Sort(KeyedDecls(owns))) }

  /** The constructor's test on the sorted declarations. */
  predicate OwnsTest(sorted: seq<Decl>) {
    && (forall i :: 0 <= i < |sorted| ==> sorted[i].typeUrl != [])
    && (forall i :: 0 < i < |sorted| ==> sorted[i - 1].typeUrl != sorted[i].typeUrl)
    && (sorted != [] && sorted[0].typeUrl == STAR ==> forall i :: 1 <= i < |sorted| ==> sorted[i].max <= sorted[0].max)
  }

  method TestOwns(sorted: seq<Decl>) returns (ok: bool)
    ensures ok == OwnsTest(sorted)
  {
    for i := 0 to |sorted|
      invariant forall j :: 0 <= j < i ==> sorted[j].typeUrl != []
      invariant forall j :: 0 < j < i ==> sorted[j - 1].typeUrl != sorted[j].typeUrl
    {
      if sorted[i].typeUrl == [] {
        return false;
      }
      if i > 0 && sorted[i - 1].typeUrl == sorted[i].typeUrl {
        return false;
      }
    }
    if |sorted| > 0 && sorted[0].typeUrl == STAR {
      for i := 1 to |sorted|
        invariant forall j :: 1 <= j < i ==> sorted[j].max <= sorted[0].max
      {
        if sorted[i].max > sorted[0].max {
          return false;
        }
      }
    }
    ok := true;
  }

  /** The law the test stands for: constructed declarations, one per key, and no
      explicit bound above the wildcard's. */
  predicate OwnsLaw(owns: seq<Decl>) {
    && (forall i :: 0 <= i < |owns| ==> owns[i].typeUrl != [])
    && (forall i, j :: 0 <= i < j < |owns| ==> owns[i].typeUrl != owns[j].typeUrl)
    && forall i, j :: 0 <= i < |owns| && 0 <= j < |owns| && owns[i].typeUrl == STAR ==> owns[j].max <= owns[i].max
  }

  lemma DeclsValid(c: Catalog, owns: seq<Decl>)
    requires forall i :: 0 <= i < |owns| ==> TypedDecl(c, owns[i])
    ensures ValidKeys(KeyedDecls(owns))
  {
    hide TypeUrl, Valid, GoodMax;
    AsciiValid(STAR);
    AsciiValid([]);
    forall i | 0 <= i < |owns| ensures Valid(owns[i].typeUrl) {
      if owns[i].typeUrl != STAR && owns[i].typeUrl != [] { TypeUrlText(c, owns[i].typeUrl); }
    }
  }

  lemma SortedIsKeyed(owns: seq<Decl>)
    ensures KeyedDecls(SortedDecls(owns)) == Sort(KeyedDecls(owns))
  {
    hide Sort;
    var k, s := KeyedDecls(owns), Sort(KeyedDecls(owns));
    forall i | 0 <= i < |s| ensures s[i].0 == s[i].1.typeUrl {
      assert s[i] in s;
      assert s[i] in k;
    }
  }

  lemma SortedDeclMembers(owns: seq<Decl>)
    ensures forall d :: d in SortedDecls(owns) <==> d in owns
  {
    hide Sort;
    var k, s := KeyedDecls(owns), Sort(KeyedDecls(owns));
    forall d ensures d in SortedDecls(owns) <==> d in owns {
      if d in owns {
        var i :| 0 <= i < |owns| && owns[i] == d;
        assert k[i] in k;
        assert k[i] in s;
        var j :| 0 <= j < |s| && s[j] == k[i];
        assert SortedDecls(owns)[j] == d;
      }
      if d in SortedDecls(owns) {
        var j :| 0 <= j < |s| && s[j].1 == d;
        assert s[j] in s;
        assert s[j] in k;
      }
    }
  }

  lemma KeysApart(owns: seq<Decl>)
    ensures DistinctKeys(KeyedDecls(owns)) <==> forall i, j :: 0 <= i < j < |owns| ==> owns[i].typeUrl != owns[j].typeUrl
  {
    hide DistinctKeys;
    var k := KeyedDecls(owns);
    if forall i, j :: 0 <= i < j < |owns| ==> owns[i].typeUrl != owns[j].typeUrl { DistinctByPairs(k); }
    if DistinctKeys(k) {
      forall i, j | 0 <= i < j < |owns| ensures owns[i].typeUrl != owns[j].typeUrl { DistinctAt(k, i, j); }
    }
  }

  lemma {:induction false} DistinctAt<T(!new)>(ps: seq<(Bytes, T)>, i: nat, j: nat)
    requires DistinctKeys(ps) && i < j < |ps|
    ensures ps[i].0 != ps[j].0
  {
    if i == 0 {
      assert ps[1..][j - 1] == ps[j];
    } else {
      DistinctAt(ps[1..], i - 1, j - 1);
    }
  }

  /** The wildcard sorts before every Type URL. */
  lemma WildcardFirst(c: Catalog, owns: seq<Decl>, i: nat)
    requires (forall j :: 0 <= j < |owns| ==> GoodDecl(c, owns[j])) && Ascending(KeyedDecls(owns))
    requires i < |owns| && owns[i].typeUrl == STAR
    ensures i == 0
  {
    hide Less, Ascending, TypeUrl, GoodMax;
    if i > 0 {
      AscendingPairs(KeyedDecls(owns), 0, i);
      LessIrreflexive(STAR);
      TypeUrlText(c, owns[0].typeUrl);
      NotLessBack(STAR, owns[0].typeUrl);
    }
  }

  lemma TestedAscends(c: Catalog, owns: seq<Decl>)
    requires forall i :: 0 <= i < |owns| ==> TypedDecl(c, owns[i])
    ensures var s := SortedDecls(owns);
            (forall i :: 0 < i < |s| ==> s[i - 1].typeUrl != s[i].typeUrl) <==> DistinctKeys(KeyedDecls(owns))
    ensures DistinctKeys(KeyedDecls(owns)) ==> Ascending(KeyedDecls(SortedDecls(owns)))
  {
    hide Sort, Less, Valid, Ascending, DistinctKeys, TypedDecl;
    var k := KeyedDecls(owns);
    DeclsValid(c, owns);
    NeighboursDecide(k);
    SortedIsKeyed(owns);
    if DistinctKeys(k) { SortAscending(k); }
  }

  /** Testing only the first sorted declaration for the wildcard enforces the
      whole-set law on every explicit entry. */
  lemma TestIsLaw(c: Catalog, owns: seq<Decl>)
    requires forall i :: 0 <= i < |owns| ==> TypedDecl(c, owns[i])
    ensures OwnsTest(SortedDecls(owns)) <==> OwnsLaw(owns)
  {
    hide SortedDecls, TypedDecl, DistinctKeys, Ascending, GoodDecl;
    var s := SortedDecls(owns);
    SortedDeclMembers(owns);
    TestedAscends(c, owns);
    KeysApart(owns);
    Inclusion(s, owns);
    Inclusion(owns, s);
    if DistinctKeys(KeyedDecls(owns)) && forall i :: 0 <= i < |owns| ==> owns[i].typeUrl != [] {
      forall i | 0 <= i < |s| ensures GoodDecl(c, s[i]) { SortedGood(c, owns, s[i]); }
      forall i | 0 <= i < |s| && s[i].typeUrl == STAR ensures i == 0 { WildcardFirst(c, s, i); }
      MaxRule(s, owns);
    }
  }

  lemma SortedGood(c: Catalog, owns: seq<Decl>, d: Decl)
    requires (forall i :: 0 <= i < |owns| ==> TypedDecl(c, owns[i]) && owns[i].typeUrl != []) && d in owns
    ensures GoodDecl(c, d)
  {
    hide GoodDecl;
    var i :| 0 <= i < |owns| && owns[i] == d;
    assert TypedDecl(c, owns[i]);
  }

  lemma Inclusion(a: seq<Decl>, b: seq<Decl>)
    requires forall d :: d in a ==> d in b
    ensures (forall i :: 0 <= i < |b| ==> b[i].typeUrl != []) ==> forall i :: 0 <= i < |a| ==> a[i].typeUrl != []
  {
    forall i | 0 <= i < |a| && a[i].typeUrl == [] ensures exists j :: 0 <= j < |b| && b[j].typeUrl == [] {
      assert a[i] in b;
    }
  }

  lemma MaxRule(s: seq<Decl>, owns: seq<Decl>)
    requires forall d :: d in s <==> d in owns
    requires forall i :: 0 <= i < |s| && s[i].typeUrl == STAR ==> i == 0
    ensures (s != [] && s[0].typeUrl == STAR ==> forall i :: 1 <= i < |s| ==> s[i].max <= s[0].max)
       <==> forall i, j :: 0 <= i < |owns| && 0 <= j < |owns| && owns[i].typeUrl == STAR ==> owns[j].max <= owns[i].max
  {
    if s != [] && s[0].typeUrl == STAR {
      assert s[0] in owns;
      var w :| 0 <= w < |owns| && owns[w] == s[0];
      if forall i :: 1 <= i < |s| ==> s[i].max <= s[0].max {
        forall i, j | 0 <= i < |owns| && 0 <= j < |owns| && owns[i].typeUrl == STAR ensures owns[j].max <= owns[i].max {
          assert owns[i] in s && owns[j] in s;
        }
      } else {
        var i :| 1 <= i < |s| && s[i].max > s[0].max;
        assert s[i] in owns;
        var j :| 0 <= j < |owns| && owns[j] == s[i];
        assert owns[j].max > owns[w].max;
      }
    } else {
      forall i | 0 <= i < |owns| ensures owns[i].typeUrl != STAR { assert owns[i] in s; }
    }
  }

  /** Declarations in the constructor's order, when the test passes. */
  function OwnsList(owns: seq<Decl>): Option<seq<Decl>> {
    if OwnsTest(SortedDecls(owns)) then Some(SortedDecls(owns)) else None
  }

  /** What a descriptor holds is one declaration per key, as the record check
      expects, and sorting it again changes nothing. */
  lemma OwnsListNormal(c: Catalog, owns: seq<Decl>)
    requires (forall i :: 0 <= i < |owns| ==> TypedDecl(c, owns[i])) && OwnsList(owns).Some?
    ensures var s := OwnsList(owns).value;
            && OwnsList(s) == Some(s) && Declarations(s) && Ascending(KeyedDecls(s))
            && forall i :: 0 <= i < |s| ==> GoodDecl(c, s[i])
  {
    hide TypedDecl, GoodDecl, Sort, Ascending, DistinctKeys, Valid, OwnsTest;
    var s := SortedDecls(owns);
    SortedIsKeyed(owns);
    TestedAscends(c, owns);
    TestApart(s);
    DeclsValid(c, owns);
    SortKeys(KeyedDecls(owns));
    SortOfAscending(KeyedDecls(s));
    AscendingApart(KeyedDecls(s));
    assert SortedDecls(s) == s;
    SortedDeclMembers(owns);
    forall i | 0 <= i < |s| ensures GoodDecl(c, s[i]) && Valid(s[i].typeUrl) {
      assert s[i] in s;
      TypedMember(c, owns, s[i]);
      assert KeyedDecls(s)[i].0 == s[i].typeUrl;
    }
  }

  lemma TestApart(s: seq<Decl>)
    requires OwnsTest(s)
    ensures forall i :: 0 < i < |s| ==> s[i - 1].typeUrl != s[i].typeUrl
    ensures forall i :: 0 <= i < |s| ==> s[i].typeUrl != []
  {
  }

  lemma TypedMember(c: Catalog, owns: seq<Decl>, d: Decl)
    requires (forall i :: 0 <= i < |owns| ==> TypedDecl(c, owns[i])) && d in owns
    ensures d.typeUrl != [] ==> GoodDecl(c, d)
  {
    hide GoodDecl;
    var i :| 0 <= i < |owns| && owns[i] == d;
    assert TypedDecl(c, owns[i]);
  }

  lemma OwnsListOrder(c: Catalog, a: seq<Decl>, b: seq<Decl>)
    requires Permutes(a, b) && forall i :: 0 <= i < |a| ==> TypedDecl(c, a[i])
    ensures OwnsList(a) == OwnsList(b)
  {
    hide TypedDecl, Sort, Ascending, DistinctKeys, Valid, OwnsTest;
    PermutedMembers(a, b);
    forall i | 0 <= i < |b| ensures TypedDecl(c, b[i]) {
      assert b[i] in a;
      var j :| 0 <= j < |a| && a[j] == b[i];
    }
    TestedAscends(c, a);
    TestedAscends(c, b);
    PermutedKeys(a, b);
    if DistinctKeys(KeyedDecls(a)) {
      DeclsValid(c, a);
      DeclsValid(c, b);
      KeyedDeclMembers(a, b);
      SortOfSame(KeyedDecls(a), KeyedDecls(b));
    } else {
      if OwnsTest(SortedDecls(a)) { TestApart(SortedDecls(a)); }
      if OwnsTest(SortedDecls(b)) { TestApart(SortedDecls(b)); }
    }
  }

  lemma KeyedDeclMembers(a: seq<Decl>, b: seq<Decl>)
    requires forall d :: d in a <==> d in b
    ensures forall q :: q in KeyedDecls(a) <==> q in KeyedDecls(b)
  {
    forall q ensures q in KeyedDecls(a) <==> q.1 in a && q.0 == q.1.typeUrl { KeyedDeclMember(a, q); }
    forall q ensures q in KeyedDecls(b) <==> q.1 in b && q.0 == q.1.typeUrl { KeyedDeclMember(b, q); }
  }

  lemma KeyedDeclMember(a: seq<Decl>, q: (Bytes, Decl))
    ensures q in KeyedDecls(a) <==> q.1 in a && q.0 == q.1.typeUrl
  {
    if q.1 in a && q.0 == q.1.typeUrl {
      var i :| 0 <= i < |a| && a[i] == q.1;
      assert KeyedDecls(a)[i] == q;
    }
  }

  lemma PermutedKeysOneWay(a: seq<Decl>, b: seq<Decl>)
    requires Permutes(a, b) && DistinctKeys(KeyedDecls(a))
    ensures DistinctKeys(KeyedDecls(b))
  {
    hide DistinctKeys;
    KeysApart(a);
    KeysApart(b);
    DistinctCounts(a);
    DistinctCounts(b);
    PermutedMembers(a, b);
    forall i, j | 0 <= i < j < |b| ensures b[i].typeUrl != b[j].typeUrl {
      assert b[i] in a && b[j] in a;
      assert b[i] != b[j];
    }
  }

  lemma PermutedKeys(a: seq<Decl>, b: seq<Decl>)
    requires Permutes(a, b)
    ensures DistinctKeys(KeyedDecls(a)) <==> DistinctKeys(KeyedDecls(b))
  {
    hide DistinctKeys;
    if DistinctKeys(KeyedDecls(a)) { PermutedKeysOneWay(a, b); }
    if DistinctKeys(KeyedDecls(b)) { PermutedKeysOneWay(b, a); }
  }
}
