/** Which descriptors, endpoint constraints and declarations exist, law by law. */
module DescriptorLaws {
  import opened Utf8
  import opened Wrappers
  import opened CodeUnits
  import opened Sorting
  import opened Json
  import opened JsonFields
  import opened RootedPaths
  import opened Escapes
  import opened UrlText
  import opened ScopeUrls
  import opened Records
  import opened Descriptors
  import opened TypeDescriptors

  predicate DistinctUrls(c: Catalog, urls: seq<Bytes>) {
    && (forall i :: 0 <= i < |urls| ==> TypeUrl(c, urls[i]))
    && forall i, j :: 0 <= i < j < |urls| ==> urls[i] != urls[j]
  }

  /** The Type URLs are the canonical URLs; the wildcard is none. */
  lemma TypeUrlExactly(c: Catalog, s: Bytes)
    ensures TypeUrl(c, s) <==> CanonicalUrl(c.parse, s)
  {
    hide CanonicalParts, Complete, SplitAuthority, SplitTail;
    CutFirstAbsent(STAR, COLON);
  }

  /** An endpoint constraint: distinct Type URLs, and one of the policies or
      none. */
  lemma EndpointExactly(c: Catalog, urls: seq<Bytes>, external: Bytes)
    ensures NewEndpoint(c, urls, external).Some?
       <==> DistinctUrls(c, urls)
            && (external == [] || external == Text("none") || external == Text("opaque") || external == Text("bead"))
    ensures NewEndpoint(c, urls, external).Some? ==> NewEndpoint(c, urls, external).value.external == external
  {
    hide TypeUrl, Text, InOrderUrls;
  }

  /** A declaration: a positive 64-bit bound that the number law admits, under a
      Type URL with an optional label, or under the wildcard without one. */
  lemma DeclExactly(c: Catalog, key: Bytes, caption: Bytes, max: int)
    ensures NewDecl(c, key, caption, max).Some?
       <==> 1 <= max <= 9223372036854775807 && c.rules.Admits(max as real)
            && if key == Text("*") then caption == [] else TypeUrl(c, key) && Valid(caption)
    ensures NewDecl(c, key, caption, max).Some? ==> NewDecl(c, key, caption, max) == Some(Decl(key, caption, max))
  {
    hide TypeUrl, Valid, Text;
    StarText();
  }

  lemma StarText()
    ensures STAR == Text("*")
  {
  }

  /** The laws of a descriptor: those about one member, parents that are distinct
      Type URLs other than its own, endpoints exactly for Links, declarations
      only for Beads. */
  predicate LawfulSpec(c: Catalog, s: TypeDescriptors.Spec) {
    && TypeUrl(c, s.id) && s.name != [] && Valid(s.name) && Valid(s.description)
    && (s.propertiesSchema == [] || TypeUrl(c, s.propertiesSchema))
    && DistinctUrls(c, s.conformsTo) && (forall i :: 0 <= i < |s.conformsTo| ==> s.conformsTo[i] != s.id)
    && (s.describes == Text("bead") || s.describes == Text("link"))
    && (s.describes == Text("link") ==> s.source.Some? && s.target.Some? && s.owns == [])
    && (s.describes == Text("bead") ==> s.source.None? && s.target.None? && LawfulOwns(s.owns))
  }

  /** One declaration to a key, and none above the wildcard's bound. */
  predicate LawfulOwns(owns: seq<Decl>) {
    && (forall i :: 0 <= i < |owns| ==> owns[i].typeUrl != [])
    && (forall i, j :: 0 <= i < j < |owns| ==> owns[i].typeUrl != owns[j].typeUrl)
    && forall i, j :: 0 <= i < |owns| && 0 <= j < |owns| && owns[i].typeUrl == Text("*") ==> owns[j].max <= owns[i].max
  }

  lemma OwnsAre(c: Catalog, owns: seq<Decl>)
    requires forall i :: 0 <= i < |owns| ==> TypedDecl(c, owns[i])
    ensures OwnsList(owns).Some? <==> LawfulOwns(owns)
  {
    hide TypedDecl, OwnsTest, SortedDecls, Text;
    StarText();
    TestIsLaw(c, owns);
  }

  lemma ParentsAre(c: Catalog, s: TypeDescriptors.Spec)
    ensures UrlList(c, s.conformsTo).Some? <==> DistinctUrls(c, s.conformsTo)
    ensures UrlList(c, s.conformsTo).Some? ==> (s.id in UrlList(c, s.conformsTo).value <==> s.id in s.conformsTo)
  {
    hide TypeUrl;
    SameUrls(s.conformsTo, s.id);
  }

  lemma SameUrls(urls: seq<Bytes>, u: Bytes)
    ensures u in InOrderUrls(urls) <==> u in urls
  {
    if u in InOrderUrls(urls) {
      var i :| 0 <= i < |InOrderUrls(urls)| && InOrderUrls(urls)[i] == u;
      SortedMembers(urls, i);
    }
    if u in urls {
      var i :| 0 <= i < |urls| && urls[i] == u;
      var p := Keyed(urls)[i];
      assert p in Keyed(urls);
      assert p in Sort(Keyed(urls));
      var j :| 0 <= j < |Sort(Keyed(urls))| && Sort(Keyed(urls))[j] == p;
      assert InOrderUrls(urls)[j] == u;
    }
  }

  /** A descriptor exists exactly when its specification meets the laws. */
  lemma AcceptedExactly(c: Catalog, s: TypeDescriptors.Spec)
    requires Typed(c, s)
    ensures NewTypeDescriptor(c, s).Some? <==> LawfulSpec(c, s)
  {
    hide TypeUrl, Valid, Text, UrlList, OwnsList, TypedDecl, GoodEnd, DistinctUrls, LawfulOwns, Canon, Wire;
    KindTexts();
    ParentsAre(c, s);
    OwnsAre(c, s.owns);
  }

  lemma KindTexts()
    ensures BEAD == Text("bead") && LINK == Text("link") && BEAD != LINK
  {
    assert BEAD[0] != LINK[0];
  }

  predicate UrlsAscend(urls: seq<Bytes>) { forall i, j :: 0 <= i < j < |urls| ==> Less(urls[i], urls[j]) }

  predicate DeclsAscend(owns: seq<Decl>) { forall i, j :: 0 <= i < j < |owns| ==> Less(owns[i].typeUrl, owns[j].typeUrl) }

  /** It holds the specification's members, its lists in code-unit order. */
  lemma HeldExactly(c: Catalog, s: TypeDescriptors.Spec)
    requires Typed(c, s) && NewTypeDescriptor(c, s).Some?
    ensures var n := NewTypeDescriptor(c, s).value.spec;
            && n.(conformsTo := s.conformsTo, owns := s.owns) == s
            && UrlsAscend(n.conformsTo) && |n.conformsTo| == |s.conformsTo| && (forall u :: u in n.conformsTo <==> u in s.conformsTo)
            && DeclsAscend(n.owns) && |n.owns| == |s.owns| && (forall d :: d in n.owns <==> d in s.owns)
  {
    hide TypeUrl, Valid, UrlList, OwnsList, GoodEnd, Canon, Wire, PlainLaws, TypedDecl, UrlsAscend, DeclsAscend;
    ParentsHeld(c, s.conformsTo);
    NoneAscend();
    if s.describes != LINK { OwnsHeld(c, s.owns); }
  }

  lemma NoneAscend()
    ensures DeclsAscend([])
  {
  }

  lemma ParentsHeld(c: Catalog, urls: seq<Bytes>)
    ensures UrlList(c, urls).Some? ==>
              var r := UrlList(c, urls).value; UrlsAscend(r) && |r| == |urls| && forall u :: u in r <==> u in urls
  {
    hide TypeUrl, Less, Valid, DistinctKeys, Ascending;
    if UrlList(c, urls).Some? {
      UrlsKeyed(urls);
      UrlsValid(c, urls);
      SortAscending(Keyed(urls));
      var ps := Sort(Keyed(urls));
      forall i, j | 0 <= i < j < |ps| ensures Less(ps[i].0, ps[j].0) { AscendingPairs(ps, i, j); }
      forall u ensures u in InOrderUrls(urls) <==> u in urls { SameUrls(urls, u); }
    }
  }

  lemma OwnsHeld(c: Catalog, owns: seq<Decl>)
    requires (forall i :: 0 <= i < |owns| ==> TypedDecl(c, owns[i])) && OwnsList(owns).Some?
    ensures var r := OwnsList(owns).value; DeclsAscend(r) && |r| == |owns| && forall d :: d in r <==> d in owns
  {
    hide TypedDecl, Less, Ascending, OwnsTest, Declarations, GoodDecl;
    var r := SortedDecls(owns);
    OwnsListNormal(c, owns);
    SortedDeclMembers(owns);
    forall i, j | 0 <= i < j < |r| ensures Less(r[i].typeUrl, r[j].typeUrl) { AscendingPairs(KeyedDecls(r), i, j); }
  }

  // ---- the closed shape of the JSON form ----

  predicate IsText(v: Value) { v.VStr? && v.s != [] }

  predicate IsEndpointObject(v: Value) {
    && v.VObj? && Text("conformsTo") in v.members && v.members[Text("conformsTo")].VArr?
    && forall k :: k in v.members ==> k == Text("conformsTo") || (k == Text("external") && IsText(v.members[k]))
  }

  predicate IsDeclObject(v: Value) {
    && v.VObj? && Text("max") in v.members && v.members[Text("max")].VNum?
    && forall k :: k in v.members ==> k == Text("max") || (k == Text("label") && IsText(v.members[k]))
  }

  predicate IsMemberName(k: Bytes) {
    k == Text("id") || k == Text("name") || k == Text("description") || k == Text("describes") || k == Text("conformsTo")
    || k == Text("propertiesSchema") || k == Text("source") || k == Text("target") || k == Text("ownsOutgoing")
  }

  /** The members a descriptor's object may have: the required ones, texts that
      are not empty, endpoint objects, and declarations, at least one if any. */
  predicate ClosedShape(m: map<Bytes, Value>) {
    && Text("id") in m && Text("name") in m && Text("describes") in m && Text("conformsTo") in m
    && (forall k :: k in m ==> IsMemberName(k))
    && (Text("propertiesSchema") in m ==> IsText(m[Text("propertiesSchema")]))
    && (Text("source") in m ==> IsEndpointObject(m[Text("source")]))
    && (Text("target") in m ==> IsEndpointObject(m[Text("target")]))
    && (Text("ownsOutgoing") in m ==>
          && m[Text("ownsOutgoing")].VObj? && m[Text("ownsOutgoing")].members != map[]
          && forall k :: k in m[Text("ownsOutgoing")].members ==> IsDeclObject(m[Text("ownsOutgoing")].members[k]))
  }

  lemma EndpointShaped(c: Catalog, m: map<Bytes, Value>, k: Bytes)
    requires k in m && ReadEnd(c, m, k).Some?
    ensures IsEndpointObject(m[k])
  {
    hide Text, TextAt, NewEndpoint;
  }

  lemma DeclShaped(c: Catalog, key: Bytes, v: Value)
    requires ReadDecl(c, key, v).Some?
    ensures IsDeclObject(v)
  {
    hide Text, TextAt, NewDecl;
  }

  lemma {:induction false} DeclsShaped(c: Catalog, es: seq<(Bytes, Value)>, i: nat)
    requires ReadDecls(c, es).Some? && i < |es|
    ensures IsDeclObject(es[i].1)
  {
    hide ReadDecl, IsDeclObject;
    if i == 0 {
      DeclShaped(c, es[0].0, es[0].1);
    } else {
      DeclsShaped(c, es[1..], i - 1);
    }
  }

  lemma OwnsShaped(c: Catalog, m: map<Bytes, Value>)
    requires Text("ownsOutgoing") in m && ReadOwns(c, m).Some?
    ensures var v := m[Text("ownsOutgoing")];
            v.VObj? && v.members != map[] && forall k :: k in v.members ==> IsDeclObject(v.members[k])
  {
    hide Text, IsDeclObject, Ascending, ToMap, ReadDecls;
    var v := m[Text("ownsOutgoing")];
    var es := Entries(v.members);
    assert ToMap(es) == v.members;
    forall k | k in v.members ensures IsDeclObject(v.members[k]) {
      var i := EntryOf(es, k);
      DeclsShaped(c, es, i);
    }
    EntriesFilled(es);
  }

  lemma {:induction false} EntryOf(es: seq<(Bytes, Value)>, k: Bytes) returns (i: nat)
    requires k in ToMap(es)
    ensures i < |es| && es[i] == (k, ToMap(es)[k])
  {
    if es[0].0 == k {
      i := 0;
    } else {
      i := EntryOf(es[1..], k);
      i := i + 1;
    }
  }

  lemma EntriesFilled(es: seq<(Bytes, Value)>)
    ensures es != [] ==> ToMap(es) != map[]
  {
    if es != [] { assert es[0].0 in ToMap(es); }
  }

  lemma NamesShaped(m: map<Bytes, Value>)
    requires forall k :: k in m ==> Shape(k, m[k])
    ensures forall k :: k in m ==> IsMemberName(k)
  {
    hide Text;
    forall k | k in m ensures IsMemberName(k) { assert Shape(k, m[k]); }
  }

  /** Whatever parses as a descriptor has the closed shape, and a Bead's has no
      endpoints. */
  lemma ParsedIsClosed(c: Catalog, v: Value)
    requires ReadDescriptor(c, v).Some?
    ensures v.VObj? && ClosedShape(v.members)
    ensures TextAt(v.members, Text("describes")) == Text("bead") ==> Text("source") !in v.members && Text("target") !in v.members
  {
    hide Text, ReadOwns, ListAt, IsEndpointObject, IsDeclObject, IsMemberName, NewTypeDescriptor, ReadEndpoint, Shape;
    var m := v.members;
    KindTexts();
    NamesShaped(m);
    if Text("source") in m { EndpointShaped(c, m, Text("source")); }
    if Text("target") in m { EndpointShaped(c, m, Text("target")); }
    if Text("ownsOutgoing") in m { OwnsShaped(c, m); }
    if Text("propertiesSchema") in m { SchemaIsText(m); }
  }

  lemma SchemaIsText(m: map<Bytes, Value>)
    requires Text("propertiesSchema") in m && Shape(Text("propertiesSchema"), m[Text("propertiesSchema")])
    ensures m[Text("propertiesSchema")].VStr?
    ensures TextAt(m, Text("propertiesSchema")) != [] ==> IsText(m[Text("propertiesSchema")])
  {
    hide Text;
    ShapesOf(m[Text("propertiesSchema")]);
  }
}
