/** The descriptor constructor, its canonical JSON, and the parser that reads it
    back. */
module TypeDescriptors {
  import opened Utf8
  import opened Wrappers
  import opened CodeUnits
  import opened Integers
  import opened Sorting
  import opened Json
  import opened JsonLaws
  import opened JsonFields
  import opened RootedPaths
  import opened Records
  import opened Descriptors

  datatype Endpoint = Endpoint(conformsTo: seq<Bytes>, external: Bytes)

  /** Optional texts are absent when empty. */
  datatype Spec = Spec(id: Bytes, name: Bytes, description: Bytes, describes: Bytes, conformsTo: seq<Bytes>,
                       propertiesSchema: Bytes, source: Option<Endpoint>, target: Option<Endpoint>, owns: seq<Decl>)

  datatype Descriptor = Descriptor(spec: Spec, canonical: Bytes, fingerprint: Bytes)

  predicate ValidPolicy(p: Bytes) { p == Text("none") || p == Text("opaque") || p == Text("bead") }

  function NewEndpoint(c: Catalog, conformsTo: seq<Bytes>, external: Bytes): Option<Endpoint> {
    var urls :- UrlList(c, conformsTo);
    if external == [] || ValidPolicy(external) then Some(Endpoint(urls, external)) else None
  }

  /** A constraint its constructor built, or the zero value. */
  predicate GoodEndpoint(c: Catalog, e: Endpoint) { NewEndpoint(c, e.conformsTo, e.external) == Some(e) }

  predicate GoodEnd(c: Catalog, e: Option<Endpoint>) { e.Some? ==> GoodEndpoint(c, e.value) }

  /** A specification made of constructed values. */
  predicate Typed(c: Catalog, s: Spec) {
    GoodEnd(c, s.source) && GoodEnd(c, s.target) && forall i :: 0 <= i < |s.owns| ==> TypedDecl(c, s.owns[i])
  }

  // ---- the constructor ----

  /** The laws about one member at a time. */
  predicate PlainLaws(c: Catalog, s: Spec) {
    && TypeUrl(c, s.id) && s.name != [] && Valid(s.name) && Valid(s.description) && ValidKind(s.describes)
    && (s.propertiesSchema != [] ==> TypeUrl(c, s.propertiesSchema))
  }

  /** The members as the descriptor holds them, lists in code-unit order. */
  function Normal(c: Catalog, s: Spec): Option<Spec> {
    if !PlainLaws(c, s) then None
    else
      var parents :- UrlList(c, s.conformsTo);
      if s.id in parents then None
      else if s.describes == LINK then
        if s.source.None? || s.target.None? || s.owns != [] then None else Some(s.(conformsTo := parents))
      else if s.source.Some? || s.target.Some? then None
      else
        var owns :- OwnsList(s.owns);
        Some(s.(conformsTo := parents, owns := owns))
  }

  function NewTypeDescriptor(c: Catalog, s: Spec): (r: Option<Descriptor>)
    ensures r.Some? ==> r.value.fingerprint == c.hash(r.value.canonical)
  {
    var n :- Normal(c, s);
    var canonical := Canon(Wire(n));
    Some(Descriptor(n, canonical, c.hash(canonical)))
  }

  // ---- the wire form ----

  function Strs(us: seq<Bytes>): (ds: seq<Doc>)
    ensures |ds| == |us|
  {
    if us == [] then [] else [Str(us[0])] + Strs(us[1..])
  }

  function EndpointSlots(e: Endpoint): seq<Slot> {
    [(Text("conformsTo"), Some(Arr(Strs(e.conformsTo)))), (Text("external"), Optional(e.external))]
  }

  function EndpointDoc(e: Endpoint): Doc { Obj(Present(EndpointSlots(e))) }

  function DeclSlots(d: Decl): seq<Slot> {
    [(Text("label"), Optional(d.caption)), (Text("max"), Some(Integer(d.max)))]
  }

  function DeclDoc(d: Decl): Doc { Obj(Present(DeclSlots(d))) }

  function OwnMembers(owns: seq<Decl>): (ms: seq<(Bytes, Doc)>)
    ensures |ms| == |owns|
  {
    if owns == [] then [] else [(owns[0].typeUrl, DeclDoc(owns[0]))] + OwnMembers(owns[1..])
  }

  function EndDoc(e: Option<Endpoint>): Option<Doc> { if e.None? then None else Some(EndpointDoc(e.value)) }

  function OwnsDoc(owns: seq<Decl>): Option<Doc> { if owns == [] then None else Some(Obj(OwnMembers(owns))) }

  function Slots(s: Spec): (slots: seq<Slot>)
    ensures |slots| == 9
  {
    [(Text("conformsTo"), Some(Arr(Strs(s.conformsTo)))),
     (Text("describes"), Some(Str(s.describes))),
     (Text("description"), Optional(s.description)),
     (Text("id"), Some(Str(s.id))),
     (Text("name"), Some(Str(s.name))),
     (Text("ownsOutgoing"), OwnsDoc(s.owns)),
     (Text("propertiesSchema"), Optional(s.propertiesSchema)),
     (Text("source"), EndDoc(s.source)),
     (Text("target"), EndDoc(s.target))]
  }

  function Wire(s: Spec): Doc { Obj(Present(Slots(s))) }

  // ---- the parser ----

  function ReadStrings(vs: seq<Value>): Option<seq<Bytes>> {
    if vs == [] then Some([])
    else if !vs[0].VStr? then None
    else
      var rest :- ReadStrings(vs[1..]);
      Some([vs[0].s] + rest)
  }

  predicate EndpointShape(k: Bytes, v: Value) {
    if k == Text("conformsTo") then v.VArr?
    else if k == Text("external") then v.VStr? && v.s != []
    else false
  }

  /** A member's text; nothing when it is absent. */
  function TextAt(m: map<Bytes, Value>, k: Bytes): Bytes { if k in m && m[k].VStr? then m[k].s else [] }

  function ListAt(m: map<Bytes, Value>, k: Bytes): Option<seq<Bytes>> {
    if k in m && m[k].VArr? then ReadStrings(m[k].items) else None
  }

  function ReadEndpoint(c: Catalog, m: map<Bytes, Value>): Option<Endpoint> {
    if !(forall k :: k in m ==> EndpointShape(k, m[k])) then None
    else
      var urls :- ListAt(m, Text("conformsTo"));
      NewEndpoint(c, urls, TextAt(m, Text("external")))
  }

  predicate DeclShape(k: Bytes, v: Value) {
    if k == Text("max") then v.VNum? && IsInt(v.x)
    else if k == Text("label") then v.VStr? && v.s != []
    else false
  }

  function NewDecl(c: Catalog, key: Bytes, caption: Bytes, max: int): Option<Decl> {
    if max < 0 then None
    else
      var d := Decl(key, caption, max);
      if GoodDecl(c, d) then Some(d) else None
  }

  function ReadDecl(c: Catalog, key: Bytes, v: Value): Option<Decl> {
    if !v.VObj? || !(forall k :: k in v.members ==> DeclShape(k, v.members[k])) || Text("max") !in v.members then None
    else NewDecl(c, key, TextAt(v.members, Text("label")), v.members[Text("max")].x.Floor)
  }

  function ReadDecls(c: Catalog, entries: seq<(Bytes, Value)>): Option<seq<Decl>> {
    if entries == [] then Some([])
    else
      var d :- ReadDecl(c, entries[0].0, entries[0].1);
      var rest :- ReadDecls(c, entries[1..]);
      Some([d] + rest)
  }

  /** An object's members in canonical order. */
  ghost function Entries(m: map<Bytes, Value>): seq<(Bytes, Value)> {
    if es :| Ascending(es) && ToMap(es) == m then es else []
  }

  predicate Shape(k: Bytes, v: Value) {
    if k == Text("conformsTo") then v.VArr?
    else if k == Text("source") || k == Text("target") || k == Text("ownsOutgoing") then v.VObj?
    else if k == Text("id") || k == Text("name") || k == Text("description") || k == Text("describes")
            || k == Text("propertiesSchema") then v.VStr?
    else false
  }

  predicate Required(m: map<Bytes, Value>) {
    Text("id") in m && Text("name") in m && Text("describes") in m && Text("conformsTo") in m
  }

  function ReadEnd(c: Catalog, m: map<Bytes, Value>, k: Bytes): Option<Option<Endpoint>> {
    if k !in m then Some(None)
    else if TextAt(m, Text("describes")) == BEAD || !m[k].VObj? then None
    else
      var e :- ReadEndpoint(c, m[k].members);
      Some(Some(e))
  }

  ghost function ReadOwns(c: Catalog, m: map<Bytes, Value>): Option<seq<Decl>> {
    var k := Text("ownsOutgoing");
    if k !in m then Some([])
    else if !m[k].VObj? || Entries(m[k].members) == [] then None
    else ReadDecls(c, Entries(m[k].members))
  }

  /** The closed shape, read member by member. */
  ghost function ReadSpec(c: Catalog, m: map<Bytes, Value>): Option<Spec> {
    if !(forall k :: k in m ==> Shape(k, m[k])) || !Required(m) then None
    else if Text("propertiesSchema") in m && TextAt(m, Text("propertiesSchema")) == [] then None
    else
      var parents :- ListAt(m, Text("conformsTo"));
      var source :- ReadEnd(c, m, Text("source"));
      var target :- ReadEnd(c, m, Text("target"));
      var owns :- ReadOwns(c, m);
      Some(Spec(TextAt(m, Text("id")), TextAt(m, Text("name")), TextAt(m, Text("description")), TextAt(m, Text("describes")),
                parents, TextAt(m, Text("propertiesSchema")), source, target, owns))
  }

  ghost function ReadDescriptor(c: Catalog, v: Value): Option<Descriptor> {
    if !v.VObj? then None
    else
      var s :- ReadSpec(c, v.members);
      NewTypeDescriptor(c, s)
  }

  /** Canonicalize, then read the canonical text. */
  ghost function ParseTypeDescriptor(c: Catalog, raw: Bytes): Option<Descriptor> {
    var text :- Canonicalize(c.rules, raw);
    var d :- Parse(c.rules, text);
    ReadDescriptor(c, Denote(d))
  }

  // ---- reading back lists and endpoints ----

  lemma {:induction false} ReadStrs(us: seq<Bytes>)
    ensures ReadStrings(DenoteItems(Strs(us))) == Some(us)
  {
    if us != [] {
      ReadStrs(us[1..]);
      var ds := Strs(us);
      assert ds[1..] == Strs(us[1..]);
      var vs := DenoteItems(ds);
      assert ds[0] == Str(us[0]) && Denote(ds[0]) == VStr(us[0]);
      assert vs == [Denote(ds[0])] + DenoteItems(ds[1..]);
      assert vs[1..] == DenoteItems(ds[1..]);
      assert us == [us[0]] + us[1..];
    }
  }

  lemma TwoApart(slots: seq<Slot>)
    requires |slots| == 2 && slots[0].0 != slots[1].0
    ensures DistinctSlots(slots)
  {
    DistinctFromPairs(slots);
  }

  lemma EndpointNames()
    ensures Rank(Text("conformsTo")) == 2659 && Rank(Text("external")) == 2149
  {
  }

  lemma EndpointDenotes(e: Endpoint)
    ensures Denote(EndpointDoc(e)) == VObj(SlotMap(EndpointSlots(e)))
  {
    SlotMapDenotes(EndpointSlots(e));
  }

  lemma EndpointMembers(e: Endpoint)
    ensures var m := SlotMap(EndpointSlots(e));
            && ListAt(m, Text("conformsTo")) == Some(e.conformsTo) && TextAt(m, Text("external")) == e.external
            && forall k :: k in m ==> EndpointShape(k, m[k])
  {
    hide SlotMap, Text, Rank, Denote, DistinctSlots;
    var slots := EndpointSlots(e);
    var m := SlotMap(slots);
    EndpointNames();
    TwoApart(slots);
    SlotLookup(slots, 0);
    SlotLookup(slots, 1);
    ReadStrs(e.conformsTo);
    ListDenotes(Strs(e.conformsTo));
    OptionalDenotes(e.external);
    forall k | k in m ensures EndpointShape(k, m[k]) {
      var i := SlotOrigin(slots, k);
    }
  }

  lemma ListDenotes(ds: seq<Doc>)
    ensures Denote(Arr(ds)) == VArr(DenoteItems(ds))
  {
  }

  lemma EndpointReadBack(c: Catalog, e: Endpoint)
    requires GoodEndpoint(c, e)
    ensures ReadEndpoint(c, SlotMap(EndpointSlots(e))) == Some(e)
  {
    hide SlotMap, Text, ListAt, TextAt, EndpointShape, NewEndpoint;
    EndpointMembers(e);
  }

  // ---- reading back declarations ----

  lemma DeclNames()
    ensures Rank(Text("label")) == 1388 && Rank(Text("max")) == 877
  {
  }

  lemma DeclMembers(d: Decl)
    requires d.max < INT64
    ensures var m := SlotMap(DeclSlots(d));
            && TextAt(m, Text("label")) == d.caption && Lookup(m, Text("max")) == Some(VNum(d.max as real))
            && forall k :: k in m ==> DeclShape(k, m[k])
  {
    hide SlotMap, Text, Rank, Denote, DistinctSlots, Integer;
    var slots := DeclSlots(d);
    var m := SlotMap(slots);
    DeclNames();
    TwoApart(slots);
    SlotLookup(slots, 0);
    SlotLookup(slots, 1);
    IntegerValue(d.max);
    OptionalDenotes(d.caption);
    forall k | k in m ensures DeclShape(k, m[k]) {
      var i := SlotOrigin(slots, k);
    }
  }

  lemma DeclReadBack(c: Catalog, d: Decl)
    requires GoodDecl(c, d)
    ensures ReadDecl(c, d.typeUrl, Denote(DeclDoc(d))) == Some(d)
  {
    hide SlotMap, Text, TextAt, DeclShape, TypeUrl, Present, DeclSlots;
    SlotMapDenotes(DeclSlots(d));
    DeclMembers(d);
  }

  lemma {:induction false} DeclsReadBack(c: Catalog, owns: seq<Decl>)
    requires forall i :: 0 <= i < |owns| ==> GoodDecl(c, owns[i])
    ensures ReadDecls(c, DenoteMembers(OwnMembers(owns))) == Some(owns)
  {
    hide ReadDecl, DeclDoc, GoodDecl;
    if owns != [] {
      DeclReadBack(c, owns[0]);
      DeclsReadBack(c, owns[1..]);
      var ms := OwnMembers(owns);
      assert ms[1..] == OwnMembers(owns[1..]);
      var es := DenoteMembers(ms);
      assert es == [(ms[0].0, Denote(ms[0].1))] + DenoteMembers(ms[1..]);
      assert es[1..] == DenoteMembers(ms[1..]);
      assert owns == [owns[0]] + owns[1..];
    }
  }

  lemma EntriesAre(es: seq<(Bytes, Value)>)
    requires Ascending(es)
    ensures Entries(ToMap(es)) == es
  {
    hide Ascending, ToMap;
    var fs := Entries(ToMap(es));
    AscendingUnique(fs, es);
  }

  lemma {:induction false} OwnMembersAscend(owns: seq<Decl>)
    requires Ascending(KeyedDecls(owns))
    ensures Ascending(OwnMembers(owns))
  {
    hide Less, DeclDoc;
    if owns != [] {
      var k, ms := KeyedDecls(owns), OwnMembers(owns);
      assert k[1..] == KeyedDecls(owns[1..]);
      OwnMembersAscend(owns[1..]);
      assert ms[1..] == OwnMembers(owns[1..]);
      OwnKeys(owns[1..]);
    }
  }

  lemma {:induction false} OwnKeys(owns: seq<Decl>)
    ensures forall i :: 0 <= i < |owns| ==> OwnMembers(owns)[i].0 == owns[i].typeUrl
    ensures forall i :: 0 <= i < |owns| ==> OwnMembers(owns)[i].1 == DeclDoc(owns[i])
  {
    hide DeclDoc;
    if owns != [] { OwnKeys(owns[1..]); }
  }

  lemma OwnsReadBack(c: Catalog, owns: seq<Decl>)
    requires (forall i :: 0 <= i < |owns| ==> GoodDecl(c, owns[i])) && Ascending(KeyedDecls(owns)) && owns != []
    ensures var v := Denote(Obj(OwnMembers(owns)));
            v.VObj? && Entries(v.members) != [] && ReadDecls(c, Entries(v.members)) == Some(owns)
  {
    hide GoodDecl, Ascending, Entries, ReadDecls, KeyedDecls;
    OwnMembersAscend(owns);
    DenotedAscending(OwnMembers(owns));
    EntriesAre(DenoteMembers(OwnMembers(owns)));
    DeclsReadBack(c, owns);
  }

  // ---- reading back the whole ----

  lemma NamesRank()
    ensures Rank(Text("conformsTo")) == 2659 && Rank(Text("describes")) == 2404 && Rank(Text("description")) == 2916
    ensures Rank(Text("id")) == 617 && Rank(Text("name")) == 1134 && Rank(Text("ownsOutgoing")) == 3183
    ensures Rank(Text("propertiesSchema")) == 4208 && Rank(Text("source")) == 1651 && Rank(Text("target")) == 1652
  {
  }

  lemma Names(s: Spec)
    ensures var t := Slots(s);
            && Rank(t[0].0) == 2659 && Rank(t[1].0) == 2404 && Rank(t[2].0) == 2916 && Rank(t[3].0) == 617
            && Rank(t[4].0) == 1134 && Rank(t[5].0) == 3183 && Rank(t[6].0) == 4208 && Rank(t[7].0) == 1651
            && Rank(t[8].0) == 1652
  {
    hide OwnsDoc, EndDoc, Optional, Text, Rank;
    NamesRank();
  }

  lemma SlotsDistinct(s: Spec)
    ensures DistinctSlots(Slots(s))
  {
    hide Slots, Rank;
    var t := Slots(s);
    Names(s);
    var r := [2659, 2404, 2916, 617, 1134, 3183, 4208, 1651, 1652];
    assert forall i :: 0 <= i < 9 ==> Rank(t[i].0) == r[i];
    assert forall i, j :: 0 <= i < j < 9 ==> r[i] != r[j];
    assert forall i, j :: 0 <= i < j < 9 ==> t[i].0 != t[j].0;
    DistinctFromPairs(t);
  }

  lemma Texts(s: Spec)
    requires s.id != [] && s.name != []
    ensures var m := SlotMap(Slots(s));
            && TextAt(m, Text("id")) == s.id && TextAt(m, Text("name")) == s.name
            && TextAt(m, Text("describes")) == s.describes && Required(m)
            && ListAt(m, Text("conformsTo")) == Some(s.conformsTo)
  {
    hide SlotMap, Text, Denote, DistinctSlots, OwnsDoc, EndDoc, Optional;
    var slots := Slots(s);
    SlotsDistinct(s);
    SlotLookup(slots, 0);
    SlotLookup(slots, 1);
    SlotLookup(slots, 3);
    SlotLookup(slots, 4);
    StringDenotes(s.describes);
    StringDenotes(s.id);
    StringDenotes(s.name);
    ReadStrs(s.conformsTo);
    ListDenotes(Strs(s.conformsTo));
  }

  lemma StringDenotes(t: Bytes)
    ensures Denote(Str(t)) == VStr(t)
  {
  }

  lemma OptionalTexts(s: Spec)
    ensures var m := SlotMap(Slots(s));
            && TextAt(m, Text("description")) == s.description && TextAt(m, Text("propertiesSchema")) == s.propertiesSchema
            && (Text("propertiesSchema") in m ==> s.propertiesSchema != [])
  {
    hide SlotMap, Text, Denote, DistinctSlots, OwnsDoc, EndDoc, Optional, Meaning;
    var slots := Slots(s);
    SlotsDistinct(s);
    SlotLookup(slots, 2);
    SlotLookup(slots, 6);
    OptionalDenotes(s.description);
    OptionalDenotes(s.propertiesSchema);
  }

  lemma ShapesOf(v: Value)
    ensures Shape(Text("conformsTo"), v) <==> v.VArr?
    ensures Shape(Text("source"), v) == Shape(Text("target"), v) == Shape(Text("ownsOutgoing"), v) == v.VObj?
    ensures Shape(Text("id"), v) == Shape(Text("name"), v) == Shape(Text("description"), v) == v.VStr?
    ensures Shape(Text("describes"), v) == Shape(Text("propertiesSchema"), v) == v.VStr?
  {
    hide Text, Rank;
    NamesRank();
  }

  lemma SlotShape(s: Spec, i: nat)
    requires i < 9 && Slots(s)[i].1.Some?
    ensures Shape(Slots(s)[i].0, Denote(Slots(s)[i].1.value))
  {
    hide Present, OwnMembers, DenoteMembers, DenoteItems, ToMap, Text, Shape;
    ShapesOf(Denote(Slots(s)[i].1.value));
  }

  lemma SlotNamesDiffer(s: Spec, i: nat, j: nat)
    requires i < 9 && j < 9 && i != j
    ensures Slots(s)[i].0 != Slots(s)[j].0
  {
    hide Slots, Rank;
    Names(s);
    var r := [2659, 2404, 2916, 617, 1134, 3183, 4208, 1651, 1652];
    var t := Slots(s);
    assert forall k :: 0 <= k < 9 ==> Rank(t[k].0) == r[k];
    assert forall k, l :: 0 <= k < l < 9 ==> r[k] != r[l];
  }

  lemma Shapes(s: Spec, k: Bytes)
    requires k in SlotMap(Slots(s))
    ensures Shape(k, SlotMap(Slots(s))[k])
  {
    hide Slots, SlotMap, Shape, Denote;
    var i := SlotOrigin(Slots(s), k);
    SlotShape(s, i);
  }

  lemma EndReadBack(c: Catalog, s: Spec, k: Bytes, e: Option<Endpoint>)
    requires GoodEnd(c, e) && (e.Some? ==> s.describes != BEAD)
    requires (k == Text("source") && e == s.source) || (k == Text("target") && e == s.target)
    requires s.id != [] && s.name != []
    ensures ReadEnd(c, SlotMap(Slots(s)), k) == Some(e)
  {
    hide SlotMap, Text, Denote, DistinctSlots, OwnsDoc, Optional, ReadEndpoint, GoodEndpoint, TextAt, ListAt, EndpointDoc, EndpointSlots;
    var slots := Slots(s);
    SlotsDistinct(s);
    Texts(s);
    SlotNamesDiffer(s, 7, 8);
    SlotLookup(slots, 7);
    SlotLookup(slots, 8);
    if e.Some? {
      EndpointDenotes(e.value);
      EndpointReadBack(c, e.value);
    }
  }

  lemma OwnsAllBack(c: Catalog, s: Spec)
    requires (forall i :: 0 <= i < |s.owns| ==> GoodDecl(c, s.owns[i])) && Ascending(KeyedDecls(s.owns))
    ensures ReadOwns(c, SlotMap(Slots(s))) == Some(s.owns)
  {
    hide SlotMap, Text, Denote, DistinctSlots, EndDoc, Optional, GoodDecl, Ascending, KeyedDecls, Entries, ReadDecls, OwnMembers;
    var slots := Slots(s);
    SlotsDistinct(s);
    SlotLookup(slots, 5);
    if s.owns != [] { OwnsReadBack(c, s.owns); }
  }

  /** Specifications in the form a descriptor holds. */
  ghost predicate Held(c: Catalog, s: Spec) {
    && Normal(c, s) == Some(s) && GoodEnd(c, s.source) && GoodEnd(c, s.target)
    && (forall i :: 0 <= i < |s.owns| ==> GoodDecl(c, s.owns[i])) && Ascending(KeyedDecls(s.owns))
  }

  lemma SpecReadBack(c: Catalog, s: Spec)
    requires Held(c, s)
    ensures ReadSpec(c, SlotMap(Slots(s))) == Some(s)
  {
    hide SlotMap, Text, Slots, Shape, TextAt, ListAt, ReadEnd, ReadOwns, Required, UrlList, TypeUrl, GoodDecl, Ascending, KeyedDecls, OwnsList, GoodEndpoint;
    HeldFacts(c, s);
    Texts(s);
    OptionalTexts(s);
    EndReadBack(c, s, Text("source"), s.source);
    EndReadBack(c, s, Text("target"), s.target);
    OwnsAllBack(c, s);
    forall k | k in SlotMap(Slots(s)) ensures Shape(k, SlotMap(Slots(s))[k]) { Shapes(s, k); }
  }

  lemma HeldFacts(c: Catalog, s: Spec)
    requires Held(c, s)
    ensures s.id != [] && s.name != [] && (s.source.Some? ==> s.describes != BEAD) && (s.target.Some? ==> s.describes != BEAD)
    ensures PlainLaws(c, s) && UrlList(c, s.conformsTo) == Some(s.conformsTo)
  {
    hide UrlList, TypeUrl, GoodDecl, Ascending, KeyedDecls, OwnsList, GoodEndpoint;
    TypeUrlText(c, s.id);
  }

  // ---- the wire form is well-formed ----

  lemma {:induction false} StrsWellFormed(rules: Rules, room: nat, us: seq<Bytes>)
    requires forall i :: 0 <= i < |us| ==> Valid(us[i])
    ensures WellFormed(rules, room + 1, Arr(Strs(us)))
  {
    hide Valid;
    if us != [] {
      StrsWellFormed(rules, room, us[1..]);
      assert Strs(us)[0] == Str(us[0]);
    }
  }

  lemma UrlsWellFormed(c: Catalog, room: nat, us: seq<Bytes>)
    requires UrlList(c, us).Some?
    ensures WellFormed(c.rules, room + 1, Arr(Strs(us)))
  {
    hide TypeUrl, Valid;
    UrlsValid(c, us);
    StrsWellFormed(c.rules, room, us);
  }

  lemma EndpointWellFormed(c: Catalog, e: Endpoint)
    requires GoodEndpoint(c, e)
    ensures WellFormed(c.rules, 2, EndpointDoc(e))
  {
    hide Text, UrlList, Valid, DistinctSlots, Rank, WellFormed;
    var slots := EndpointSlots(e);
    EndpointNames();
    TwoApart(slots);
    UrlsWellFormed(c, 0, e.conformsTo);
    AsciiValid(slots[0].0);
    AsciiValid(slots[1].0);
    if e.external != [] { AsciiValid(e.external); }
    StringWellFormed(c.rules, 1, e.external);
    ObjectWellFormed(c.rules, 1, slots);
  }

  lemma StringWellFormed(rules: Rules, room: nat, t: Bytes)
    ensures Valid(t) ==> WellFormed(rules, room, Str(t))
  {
  }

  lemma NumberWellFormed(c: Catalog, d: Decl)
    requires GoodDecl(c, d)
    ensures WellFormed(c.rules, 0, Integer(d.max))
  {
    hide TypeUrl, Valid;
    IntegerInRange(d.max);
    IntegerValue(d.max);
  }

  lemma DeclWellFormed(c: Catalog, d: Decl)
    requires GoodDecl(c, d)
    ensures WellFormed(c.rules, 1, DeclDoc(d))
  {
    hide Text, TypeUrl, Valid, DistinctSlots, Rank, WellFormed, Integer;
    var slots := DeclSlots(d);
    DeclNames();
    TwoApart(slots);
    AsciiValid(slots[0].0);
    AsciiValid(slots[1].0);
    StringWellFormed(c.rules, 0, d.caption);
    NumberWellFormed(c, d);
    ObjectWellFormed(c.rules, 0, slots);
  }

  lemma OwnsWellFormed(c: Catalog, owns: seq<Decl>)
    requires (forall i :: 0 <= i < |owns| ==> GoodDecl(c, owns[i])) && Ascending(KeyedDecls(owns))
    ensures WellFormed(c.rules, 2, Obj(OwnMembers(owns)))
  {
    hide GoodDecl, DeclDoc, Ascending, Valid, OwnMembers, DistinctKeys;
    OwnMembersAscend(owns);
    AscendingDistinct(OwnMembers(owns));
    OwnKeys(owns);
    GoodIsTyped(c, owns);
    DeclsValid(c, owns);
    forall i | 0 <= i < |owns| ensures WellFormed(c.rules, 1, DeclDoc(owns[i])) && Valid(owns[i].typeUrl) {
      DeclWellFormed(c, owns[i]);
      assert KeyedDecls(owns)[i].0 == owns[i].typeUrl;
    }
  }

  lemma GoodIsTyped(c: Catalog, owns: seq<Decl>)
    requires forall i :: 0 <= i < |owns| ==> GoodDecl(c, owns[i])
    ensures forall i :: 0 <= i < |owns| ==> TypedDecl(c, owns[i])
  {
    hide GoodDecl;
  }

  lemma WireSlots(c: Catalog, s: Spec)
    requires Held(c, s)
    ensures SlotsWellFormed(c.rules, 2, Slots(s))
  {
    hide Text, TypeUrl, Valid, UrlList, GoodDecl, Ascending, KeyedDecls, Normal, GoodEndpoint, WellFormed, EndpointDoc, OwnMembers;
    HeldFacts(c, s);
    forall i | 0 <= i < 9 ensures Valid(Slots(s)[i].0) { AsciiValid(Slots(s)[i].0); }
    UrlsWellFormed(c, 1, s.conformsTo);
    PlainTexts(c, s);
    if s.source.Some? { EndpointWellFormed(c, s.source.value); }
    if s.target.Some? { EndpointWellFormed(c, s.target.value); }
    OwnsWellFormed(c, s.owns);
  }

  lemma PlainTexts(c: Catalog, s: Spec)
    requires PlainLaws(c, s)
    ensures WellFormed(c.rules, 2, Str(s.id)) && WellFormed(c.rules, 2, Str(s.name)) && WellFormed(c.rules, 2, Str(s.description))
    ensures WellFormed(c.rules, 2, Str(s.describes)) && WellFormed(c.rules, 2, Str(s.propertiesSchema))
  {
    hide TypeUrl, Valid;
    TypeUrlText(c, s.id);
    AsciiValid(BEAD);
    AsciiValid(LINK);
    AsciiValid([]);
    if s.propertiesSchema != [] { TypeUrlText(c, s.propertiesSchema); }
  }

  // ---- the round trip ----

  lemma NormalIsHeld(c: Catalog, s: Spec)
    requires Typed(c, s) && Normal(c, s).Some?
    ensures Held(c, Normal(c, s).value)
  {
    hide UrlList, GoodDecl, TypedDecl, Ascending, KeyedDecls, OwnsList, GoodEndpoint, TypeUrl;
    UrlListNormal(c, s.conformsTo);
    if s.describes == LINK {
      NothingAscends();
    } else {
      OwnsListNormal(c, s.owns);
    }
  }

  lemma NothingAscends()
    ensures Ascending(KeyedDecls([]))
  {
  }

  /** Parsing a descriptor's canonical JSON gives back the descriptor. */
  lemma DescriptorRoundTrip(c: Catalog, s: Spec)
    requires Typed(c, s) && NewTypeDescriptor(c, s).Some?
    ensures ParseTypeDescriptor(c, NewTypeDescriptor(c, s).value.canonical) == NewTypeDescriptor(c, s)
  {
    hide Typed, Normal, Held, Slots, Present, ReadSpec, WellFormed, SlotsWellFormed, DistinctSlots, Parse, Canon, SlotMap;
    var n := Normal(c, s).value;
    NormalIsHeld(c, s);
    WireSlots(c, n);
    SlotsDistinct(n);
    ObjectWellFormed(c.rules, 2, Slots(n));
    RoomToSpare(c.rules, 3, Wire(n));
    WireReparsed(c, n);
    SlotMapDenotes(Slots(n));
    SpecReadBack(c, n);
    HeldNormal(c, n);
  }

  /** The canonical bytes determine the descriptor. */
  lemma CanonicalDetermines(c: Catalog, a: Spec, b: Spec)
    requires Typed(c, a) && Typed(c, b) && NewTypeDescriptor(c, a).Some? && NewTypeDescriptor(c, b).Some?
    requires NewTypeDescriptor(c, a).value.canonical == NewTypeDescriptor(c, b).value.canonical
    ensures NewTypeDescriptor(c, a) == NewTypeDescriptor(c, b)
  {
    hide Typed, NewTypeDescriptor, ParseTypeDescriptor;
    DescriptorRoundTrip(c, a);
    DescriptorRoundTrip(c, b);
  }

  /** A fingerprint is the hash of the canonical bytes, and unless the hash
      collides on two descriptors, they share it exactly when they are equal. */
  lemma FingerprintDetermines(c: Catalog, a: Spec, b: Spec)
    requires Typed(c, a) && Typed(c, b) && NewTypeDescriptor(c, a).Some? && NewTypeDescriptor(c, b).Some?
    requires var x, y := NewTypeDescriptor(c, a).value.canonical, NewTypeDescriptor(c, b).value.canonical;
             c.hash(x) == c.hash(y) ==> x == y
    ensures var d, e := NewTypeDescriptor(c, a).value, NewTypeDescriptor(c, b).value;
            && d.fingerprint == c.hash(d.canonical) && e.fingerprint == c.hash(e.canonical)
            && (d.fingerprint == e.fingerprint <==> d == e)
  {
    hide Typed, NewTypeDescriptor;
    var d, e := NewTypeDescriptor(c, a).value, NewTypeDescriptor(c, b).value;
    if d.canonical == e.canonical { CanonicalDetermines(c, a, b); }
  }

  lemma HeldNormal(c: Catalog, s: Spec)
    requires Held(c, s)
    ensures Normal(c, s) == Some(s)
  {
    hide Normal;
  }

  /** The canonical text of a well-formed document is a fixed point that denotes
      what the document does. */
  lemma WireReparsed(c: Catalog, s: Spec)
    requires WellFormed(c.rules, MAX_DEPTH, Wire(s))
    ensures var text := Canon(Wire(s));
            && Canonicalize(c.rules, text) == Some(text) && Parse(c.rules, text).Some?
            && Denote(Parse(c.rules, text).value) == Denote(Wire(s))
  {
    hide Wire, WellFormed, Parse, Canon, Denote;
    var text := Canon(Wire(s));
    CanonParses(c.rules, Wire(s));
    ParseWellFormed(c.rules, text);
    SameValueSameText(c.rules, MAX_DEPTH, Parse(c.rules, text).value, Wire(s));
  }

  /** The authored order of parents and declarations does not matter: the
      descriptor, its canonical bytes and its fingerprint are the same. */
  lemma OrderIndependent(c: Catalog, a: Spec, b: Spec)
    requires Typed(c, a) && Permutes(a.conformsTo, b.conformsTo) && Permutes(a.owns, b.owns)
    requires b == a.(conformsTo := b.conformsTo, owns := b.owns)
    ensures NewTypeDescriptor(c, a) == NewTypeDescriptor(c, b)
  {
    hide UrlList, OwnsList, TypedDecl, PlainLaws, Canon, Permutes, Wire, GoodEnd;
    UrlListOrder(c, a.conformsTo, b.conformsTo);
    OwnsListOrder(c, a.owns, b.owns);
    BothEmpty(a.owns, b.owns);
    SamePlainLaws(c, a, b);
  }

  lemma SamePlainLaws(c: Catalog, a: Spec, b: Spec)
    requires b == a.(conformsTo := b.conformsTo, owns := b.owns)
    ensures PlainLaws(c, a) == PlainLaws(c, b)
  {
    hide TypeUrl, Valid;
  }

  lemma BothEmpty(a: seq<Decl>, b: seq<Decl>)
    requires Permutes(a, b)
    ensures a == [] <==> b == []
  {
    PermutedMembers(a, b);
    if a != [] { assert a[0] in b; }
    if b != [] { assert b[0] in a; }
  }

  /** A descriptor with a wildcard promises no explicit Type more Links than the
      wildcard allows the whole set, and its declarations suit the record
      check. */
  lemma WholeSetBound(c: Catalog, s: Spec, i: nat, j: nat)
    requires Typed(c, s) && NewTypeDescriptor(c, s).Some?
    ensures Declarations(NewTypeDescriptor(c, s).value.spec.owns)
    ensures i < |s.owns| && j < |s.owns| && s.owns[i].typeUrl == STAR ==> s.owns[j].max <= s.owns[i].max
  {
    hide UrlList, TypedDecl, TypeUrl, Canon, OwnsTest, SortedDecls, GoodDecl, Ascending, KeyedDecls;
    if s.describes != LINK {
      OwnsListNormal(c, s.owns);
      TestIsLaw(c, s.owns);
    }
  }
}
