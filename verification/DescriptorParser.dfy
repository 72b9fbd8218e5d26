/** Reading a descriptor from its canonical bytes: member names, first bytes,
    strings, arrays and integers, as the parser walks them. */
module DescriptorParser {
  import opened Utf8
  import opened Wrappers
  import opened Numbers
  import opened NumberText
  import opened Integers
  import opened Sorting
  import opened Json
  import opened JsonLaws
  import opened JsonFields
  import opened Scanner
  import opened CanonicalWalk
  import opened RootedPaths
  import opened Records
  import opened Descriptors
  import opened TypeDescriptors

  // ---- first bytes ----

  const LOWER_N: byte := 0x6E

  /** The first byte of a canonical text tells what kind of value it is. */
  lemma FirstByte(d: Doc)
    ensures Canon(d) != []
    ensures Canon(d)[0] == QUOTE <==> d.Str?
    ensures Canon(d)[0] == LBRACKET <==> d.Arr?
    ensures Canon(d)[0] == LBRACE <==> d.Obj?
    ensures Canon(d)[0] == LOWER_N <==> d.Null?
    ensures Canon(d)[0] == MINUS || IsDigit(Canon(d)[0]) <==> d.Num?
  {
    if d.Num? { PrintHead(Normalize(d.lit)); }
  }

  /** The first byte a member's value must have, when the name is known. */
  function WantedFirst(k: Bytes): Option<byte> {
    if k == Text("conformsTo") then Some(LBRACKET)
    else if k == Text("source") || k == Text("target") || k == Text("ownsOutgoing") then Some(LBRACE)
    else if k == Text("id") || k == Text("name") || k == Text("description") || k == Text("describes")
            || k == Text("propertiesSchema") then Some(QUOTE)
    else None
  }

  lemma DenoteKind(d: Doc)
    ensures Denote(d).VStr? <==> d.Str?
    ensures Denote(d).VArr? <==> d.Arr?
    ensures Denote(d).VObj? <==> d.Obj?
    ensures Denote(d).VNum? <==> d.Num?
  {
  }

  lemma WantedMeans(k: Bytes, d: Doc)
    ensures Canon(d) != [] && (WantedFirst(k) == Some(Canon(d)[0]) <==> Shape(k, Denote(d)))
  {
    hide Canon, Denote, Text;
    FirstByte(d);
    DenoteKind(d);
  }

  // ---- members ----

  /** The texts of an object's members, and the documents they are texts of. */
  ghost predicate Spells(rules: Rules, room: nat, texts: seq<(Bytes, Bytes)>, ms: seq<(Bytes, Doc)>) {
    |texts| == |ms| && forall i :: 0 <= i < |ms| ==> SpellsAt(rules, room, texts, ms, i)
  }

  ghost predicate SpellsAt(rules: Rules, room: nat, texts: seq<(Bytes, Bytes)>, ms: seq<(Bytes, Doc)>, i: nat)
    requires i < |texts| == |ms|
  {
    texts[i] == (ms[i].0, Canon(ms[i].1)) && WellFormed(rules, room, ms[i].1)
  }

  lemma {:induction false} TextsRead(rules: Rules, room: nat, ms: seq<(Bytes, Doc)>)
    requires WellFormedMembers(rules, room, ms)
    ensures Spells(rules, room, CanonMembers(ms), ms)
  {
    hide WellFormed, Canon;
    if ms != [] {
      TextsRead(rules, room, ms[1..]);
      var ts := CanonMembers(ms);
      assert ts == [(ms[0].0, Canon(ms[0].1))] + CanonMembers(ms[1..]);
      forall i | 0 <= i < |ms| ensures SpellsAt(rules, room, ts, ms, i) {
        if i > 0 { assert SpellsAt(rules, room, CanonMembers(ms[1..]), ms[1..], i - 1); }
      }
    }
  }

  /** The canonical members of an object, with the documents behind them. */
  method Walk(rules: Rules, canonical: Bytes, ghost d: Doc, ghost room: nat)
      returns (texts: seq<(Bytes, Bytes)>, ghost ms: seq<(Bytes, Doc)>)
    requires d.Obj? && room < MAX_DEPTH && WellFormed(rules, room + 1, d) && canonical == Canon(d)
    ensures Spells(rules, room, texts, ms) && Ascending(ms) && ms == Sort(d.members)
    ensures Denote(d) == VObj(ToMap(DenoteMembers(ms)))
  {
    hide WellFormed, Canon, Sort, Denote, CanonMembers, Spells, DenoteMembers;
    ms := Sort(d.members);
    RoomToSpare(rules, room + 1, d);
    texts := CanonicalObjectMembers(rules, canonical, d.members);
    SortedObject(rules, room, d);
    TextsRead(rules, room, ms);
  }

  lemma SortedObject(rules: Rules, room: nat, d: Doc)
    requires d.Obj? && WellFormed(rules, room + 1, d)
    ensures WellFormedMembers(rules, room, Sort(d.members)) && Ascending(Sort(d.members))
    ensures Denote(d) == VObj(ToMap(DenoteMembers(Sort(d.members))))
  {
    hide WellFormed, Sort, Ascending, DenoteMembers, ToMap, DistinctKeys;
    MembersOfWellFormed(rules, room, d.members);
    SortedWellFormed(rules, room, d.members);
    SortedDenotes(d.members);
  }

  // ---- what the first members denote ----

  function Upto(ms: seq<(Bytes, Doc)>, i: nat): map<Bytes, Value>
    requires i <= |ms|
  {
    ToMap(DenoteMembers(ms[..i]))
  }

  lemma {:induction false} ToMapSnoc<T(!new)>(ps: seq<(Bytes, T)>, p: (Bytes, T))
    requires !HasKey(ps, p.0)
    ensures ToMap(ps + [p]) == ToMap(ps)[p.0 := p.1]
  {
    if ps == [] {
      assert ps + [p] == [p] && [p][1..] == [];
    } else {
      KeySplit(ps);
      ToMapSnoc(ps[1..], p);
      assert (ps + [p])[1..] == ps[1..] + [p];
    }
  }

  lemma {:induction false} DenoteSnoc(ms: seq<(Bytes, Doc)>, p: (Bytes, Doc))
    ensures DenoteMembers(ms + [p]) == DenoteMembers(ms) + [(p.0, Denote(p.1))]
  {
    hide Denote;
    if ms == [] {
      assert ms + [p] == [p] && [p][1..] == [];
    } else {
      DenoteSnoc(ms[1..], p);
      assert (ms + [p])[1..] == ms[1..] + [p];
    }
  }

  lemma {:induction false} DenotedKeys(ms: seq<(Bytes, Doc)>, k: Bytes)
    ensures HasKey(DenoteMembers(ms), k) <==> HasKey(ms, k)
  {
    hide Denote;
    if ms != [] {
      var es := DenoteMembers(ms);
      assert es == [(ms[0].0, Denote(ms[0].1))] + DenoteMembers(ms[1..]);
      assert es[1..] == DenoteMembers(ms[1..]);
      DenotedKeys(ms[1..], k);
      KeySplit(ms);
      KeySplit(es);
    }
  }

  lemma UptoNext(ms: seq<(Bytes, Doc)>, i: nat)
    requires Ascending(ms) && i < |ms|
    ensures Upto(ms, i + 1) == Upto(ms, i)[ms[i].0 := Denote(ms[i].1)]
    ensures ms[i].0 !in Upto(ms, i)
  {
    hide Denote, Ascending, ToMap, DenoteMembers;
    var front := ms[..i];
    assert ms[..i + 1] == front + [ms[i]];
    AscendingApart(ms);
    assert !HasKey(front, ms[i].0);
    DenotedKeys(front, ms[i].0);
    DenoteSnoc(front, ms[i]);
    ToMapSnoc(DenoteMembers(front), (ms[i].0, Denote(ms[i].1)));
  }

  lemma UptoNothing(ms: seq<(Bytes, Doc)>)
    ensures Upto(ms, 0) == map[]
  {
  }

  lemma UptoAll(ms: seq<(Bytes, Doc)>)
    ensures Upto(ms, |ms|) == ToMap(DenoteMembers(ms))
  {
    assert ms[..|ms|] == ms;
  }

  /** What the first members denote, the whole object denotes. */
  lemma {:induction false} UptoHolds(ms: seq<(Bytes, Doc)>, i: nat, k: Bytes)
    requires Ascending(ms) && i <= |ms| && k in Upto(ms, i)
    ensures var m := ToMap(DenoteMembers(ms)); k in m && m[k] == Upto(ms, i)[k]
    decreases |ms| - i
  {
    hide Denote, Ascending, ToMap, DenoteMembers, Upto;
    if i == |ms| {
      UptoAll(ms);
    } else {
      UptoNext(ms, i);
      UptoHolds(ms, i + 1, k);
    }
  }

  lemma MemberHeld(ms: seq<(Bytes, Doc)>, i: nat)
    requires Ascending(ms) && i < |ms|
    ensures var m := ToMap(DenoteMembers(ms)); ms[i].0 in m && m[ms[i].0] == Denote(ms[i].1)
  {
    hide Denote, Ascending, ToMap, DenoteMembers, Upto;
    UptoNext(ms, i);
    UptoHolds(ms, i + 1, ms[i].0);
  }

  // ---- arrays of strings ----

  function Prefixed<T>(out: seq<T>, r: Option<seq<T>>): Option<seq<T>> {
    if r.None? then None else Some(out + r.value)
  }

  lemma PrefixedNil<T>(r: Option<seq<T>>)
    ensures Prefixed([], r) == r
  {
    if r.Some? { assert [] + r.value == r.value; }
  }

  lemma PrefixedStep<T>(out: seq<T>, x: T, r: Option<seq<T>>)
    ensures Prefixed(out, Prefixed([x], r)) == Prefixed(out + [x], r)
  {
    if r.Some? { assert out + ([x] + r.value) == out + [x] + r.value; }
  }

  lemma {:induction false} ItemAt(ds: seq<Doc>, i: nat)
    requires i < |ds|
    ensures CanonItems(ds)[i] == Canon(ds[i]) && DenoteItems(ds)[i] == Denote(ds[i])
  {
    hide Canon, Denote;
    if i > 0 { ItemAt(ds[1..], i - 1); }
  }

  lemma StringsNext(vs: seq<Value>, i: nat)
    requires i < |vs|
    ensures ReadStrings(vs[i..]) == if vs[i].VStr? then Prefixed([vs[i].s], ReadStrings(vs[i + 1..])) else None
  {
    assert vs[i..][1..] == vs[i + 1..];
  }

  /** An array all of whose elements are strings. */
  method ReadUrls(rules: Rules, canonical: Bytes, ghost d: Doc) returns (r: Option<seq<Bytes>>)
    requires d.Arr? && WellFormed(rules, MAX_DEPTH, d) && canonical == Canon(d)
    ensures Denote(d).VArr? && r == ReadStrings(Denote(d).items)
  {
    hide Canon, WellFormed, CanonItems, ReadStrings;
    ListDenotes(d.items);
    ghost var vs := DenoteItems(d.items);
    var texts := CanonicalArrayValues(rules, canonical, d.items);
    var out: seq<Bytes> := [];
    PrefixedNil(ReadStrings(vs));
    assert vs[0..] == vs;
    for i := 0 to |texts|
      invariant ReadStrings(vs) == Prefixed(out, ReadStrings(vs[i..]))
    {
      StringsNext(vs, i);
      ItemAt(d.items, i);
      FirstByte(d.items[i]);
      DenoteKind(d.items[i]);
      if texts[i][0] != QUOTE {
        return None;
      }
      ItemFits(rules, d.items, i);
      StringIsValid(rules, MAX_DEPTH, d.items[i]);
      var s := CanonicalStringValue(rules, texts[i], d.items[i].s);
      StringDenotes(s);
      PrefixedStep(out, s, ReadStrings(vs[i + 1..]));
      out := out + [s];
    }
    NoStrings(vs);
    assert out + [] == out;
    r := Some(out);
  }

  lemma NoStrings(vs: seq<Value>)
    ensures ReadStrings(vs[|vs|..]) == Some([])
  {
  }

  lemma StringIsValid(rules: Rules, room: nat, d: Doc)
    requires d.Str? && WellFormed(rules, room, d)
    ensures Valid(d.s)
  {
  }

  // ---- endpoint constraints ----

  lemma EndpointBroken(c: Catalog, ms: seq<(Bytes, Doc)>, i: nat)
    requires Ascending(ms) && i < |ms| && !EndpointShape(ms[i].0, Denote(ms[i].1))
    ensures ReadEndpoint(c, ToMap(DenoteMembers(ms))).None?
  {
    hide Ascending, ToMap, DenoteMembers, Denote, EndpointShape;
    MemberHeld(ms, i);
  }

  lemma EndpointUnread(c: Catalog, ms: seq<(Bytes, Doc)>, i: nat)
    requires Ascending(ms) && i < |ms| && ms[i].0 == Text("conformsTo")
    requires Denote(ms[i].1).VArr? && ReadStrings(Denote(ms[i].1).items).None?
    ensures ReadEndpoint(c, ToMap(DenoteMembers(ms))).None?
  {
    hide Ascending, ToMap, DenoteMembers, Denote, EndpointShape, Text, ReadStrings;
    MemberHeld(ms, i);
  }

  /** What the loop over the members knows after i of them. */
  ghost predicate EndpointSoFar(ms: seq<(Bytes, Doc)>, i: nat, urls: Option<seq<Bytes>>, external: Bytes) {
    && i <= |ms|
    && (forall k :: k in Upto(ms, i) ==> EndpointShape(k, Upto(ms, i)[k]))
    && urls == ListAt(Upto(ms, i), Text("conformsTo"))
    && external == TextAt(Upto(ms, i), Text("external"))
  }

  lemma EndpointNext(ms: seq<(Bytes, Doc)>, i: nat, urls: Option<seq<Bytes>>, external: Bytes, v: Value)
    requires Ascending(ms) && i < |ms| && EndpointSoFar(ms, i, urls, external) && v == Denote(ms[i].1)
    requires EndpointShape(ms[i].0, v)
    ensures EndpointSoFar(ms, i + 1, if ms[i].0 == Text("conformsTo") then ReadStrings(v.items) else urls,
                          if ms[i].0 == Text("external") then v.s else external)
  {
    hide Ascending, Denote, Text, Upto, ReadStrings, Rank;
    EndpointNames();
    UptoNext(ms, i);
  }

  lemma EndpointStart(ms: seq<(Bytes, Doc)>)
    ensures EndpointSoFar(ms, 0, None, [])
  {
    hide Upto, Text;
    UptoNothing(ms);
  }

  lemma EndpointEnd(c: Catalog, ms: seq<(Bytes, Doc)>, urls: Option<seq<Bytes>>, external: Bytes)
    requires EndpointSoFar(ms, |ms|, urls, external)
    ensures ReadEndpoint(c, ToMap(DenoteMembers(ms))) == if urls.None? then None else NewEndpoint(c, urls.value, external)
  {
    hide Upto, Text, NewEndpoint, ListAt, TextAt, EndpointShape, ToMap, DenoteMembers;
    UptoAll(ms);
  }

  method ParseEndpoint(c: Catalog, canonical: Bytes, ghost d: Doc, ghost room: nat) returns (r: Option<Endpoint>)
    requires d.Obj? && room < MAX_DEPTH && WellFormed(c.rules, room + 1, d) && canonical == Canon(d)
    ensures Denote(d).VObj? && r == ReadEndpoint(c, Denote(d).members)
  {
    hide WellFormed, Canon, Denote, Ascending, ToMap, DenoteMembers, EndpointSoFar, ReadEndpoint, NewEndpoint, Text, ReadStrings, Sort;
    var texts, ms := Walk(c.rules, canonical, d, room);
    var urls: Option<seq<Bytes>> := None;
    var external: Bytes := [];
    EndpointStart(ms);
    for i := 0 to |texts|
      invariant EndpointSoFar(ms, i, urls, external)
    {
      var key, value := texts[i].0, texts[i].1;
      ghost var item := ms[i].1;
      assert SpellsAt(c.rules, room, texts, ms, i);
      FirstByte(item);
      DenoteKind(item);
      if key == Text("conformsTo") {
        if value[0] != LBRACKET {
          EndpointBroken(c, ms, i);
          return None;
        }
        RoomToSpare(c.rules, room, item);
        var list := ReadUrls(c.rules, value, item);
        if list.None? {
          EndpointUnread(c, ms, i);
          return None;
        }
        EndpointNext(ms, i, urls, external, Denote(item));
        urls := list;
        NamesApart();
      } else if key == Text("external") {
        if value[0] != QUOTE {
          EndpointBroken(c, ms, i);
          return None;
        }
        StringIsValid(c.rules, room, item);
        var policy := CanonicalStringValue(c.rules, value, item.s);
        StringDenotes(policy);
        if policy == [] {
          EndpointBroken(c, ms, i);
          return None;
        }
        EndpointNext(ms, i, urls, external, Denote(item));
        external := policy;
      } else {
        EndpointBroken(c, ms, i);
        return None;
      }
    }
    EndpointEnd(c, ms, urls, external);
    if urls.None? {
      return None;
    }
    r := NewEndpoint(c, urls.value, external);
  }

  lemma NamesApart()
    ensures Text("conformsTo") != Text("external") && Text("max") != Text("label")
  {
    hide Text, Rank;
    EndpointNames();
    DeclNames();
  }

  // ---- owned-Link declarations ----

  lemma NotANumber(d: Doc)
    requires !d.Num?
    ensures ParseInt(Canon(d)).None?
  {
    hide NatOf;
    FirstByte(d);
    var t := Canon(d);
    if t[0] == PLUS { PlusStartsNothing(d); }
  }

  lemma PlusStartsNothing(d: Doc)
    ensures Canon(d) != [] && Canon(d)[0] != PLUS
  {
    if d.Num? { PrintHead(Normalize(d.lit)); }
  }

  /** Reading the canonical text of a value as an integer is asking whether the
      value is one. */
  lemma MaxReads(rules: Rules, room: nat, d: Doc)
    requires WellFormed(rules, room, d)
    ensures ParseInt(Canon(d)).Some? <==> Denote(d).VNum? && IsInt(Denote(d).x)
    ensures ParseInt(Canon(d)).Some? ==> ParseInt(Canon(d)).value == Denote(d).x.Floor
  {
    hide ParseInt, IsInt, Print, Normalize;
    DenoteKind(d);
    if d.Num? {
      CanonicalInteger(d.lit);
    } else {
      NotANumber(d);
    }
  }

  lemma DeclBroken(c: Catalog, key: Bytes, ms: seq<(Bytes, Doc)>, i: nat)
    requires Ascending(ms) && i < |ms| && !DeclShape(ms[i].0, Denote(ms[i].1))
    ensures ReadDecl(c, key, VObj(ToMap(DenoteMembers(ms)))).None?
  {
    hide Ascending, ToMap, DenoteMembers, Denote, DeclShape;
    MemberHeld(ms, i);
  }

  ghost predicate DeclSoFar(ms: seq<(Bytes, Doc)>, i: nat, max: Option<int>, caption: Bytes) {
    && i <= |ms|
    && (forall k :: k in Upto(ms, i) ==> DeclShape(k, Upto(ms, i)[k]))
    && (max.Some? <==> Text("max") in Upto(ms, i))
    && (max.Some? ==> Upto(ms, i)[Text("max")].VNum? && max.value == Upto(ms, i)[Text("max")].x.Floor)
    && caption == TextAt(Upto(ms, i), Text("label"))
  }

  lemma DeclNext(ms: seq<(Bytes, Doc)>, i: nat, max: Option<int>, caption: Bytes, v: Value)
    requires Ascending(ms) && i < |ms| && DeclSoFar(ms, i, max, caption) && v == Denote(ms[i].1) && DeclShape(ms[i].0, v)
    ensures DeclSoFar(ms, i + 1, if ms[i].0 == Text("max") then Some(v.x.Floor) else max,
                      if ms[i].0 == Text("label") then v.s else caption)
  {
    hide Ascending, Denote, Text, Upto, Rank, IsInt;
    NamesApart();
    UptoNext(ms, i);
  }

  lemma DeclStart(ms: seq<(Bytes, Doc)>)
    ensures DeclSoFar(ms, 0, None, [])
  {
    hide Upto, Text;
    UptoNothing(ms);
  }

  lemma DeclEnd(c: Catalog, key: Bytes, ms: seq<(Bytes, Doc)>, max: Option<int>, caption: Bytes)
    requires DeclSoFar(ms, |ms|, max, caption)
    ensures ReadDecl(c, key, VObj(ToMap(DenoteMembers(ms)))) == if max.None? then None else NewDecl(c, key, caption, max.value)
  {
    hide Upto, Text, NewDecl, TextAt, DeclShape, ToMap, DenoteMembers;
    UptoAll(ms);
  }

  method ParseDecl(c: Catalog, key: Bytes, canonical: Bytes, ghost d: Doc, ghost room: nat) returns (r: Option<Decl>)
    requires room < MAX_DEPTH && WellFormed(c.rules, room + 1, d) && canonical == Canon(d)
    ensures r == ReadDecl(c, key, Denote(d))
  {
    hide WellFormed, Canon, Denote, Ascending, ToMap, DenoteMembers, DeclSoFar, NewDecl, Text, Sort, ParseInt, IsInt;
    FirstByte(d);
    DenoteKind(d);
    if canonical[0] != LBRACE {
      return None;
    }
    var texts, ms := Walk(c.rules, canonical, d, room);
    var max: Option<int> := None;
    var caption: Bytes := [];
    DeclStart(ms);
    for i := 0 to |texts|
      invariant DeclSoFar(ms, i, max, caption)
    {
      var name, value := texts[i].0, texts[i].1;
      ghost var item := ms[i].1;
      assert SpellsAt(c.rules, room, texts, ms, i);
      FirstByte(item);
      DenoteKind(item);
      NamesApart();
      if name == Text("max") {
        MaxReads(c.rules, room, item);
        var n := ParseInt(value);
        if n.None? {
          DeclBroken(c, key, ms, i);
          return None;
        }
        DeclNext(ms, i, max, caption, Denote(item));
        max := n;
      } else if name == Text("label") {
        if value[0] != QUOTE {
          DeclBroken(c, key, ms, i);
          return None;
        }
        StringIsValid(c.rules, room, item);
        var words := CanonicalStringValue(c.rules, value, item.s);
        StringDenotes(words);
        if words == [] {
          DeclBroken(c, key, ms, i);
          return None;
        }
        DeclNext(ms, i, max, caption, Denote(item));
        caption := words;
      } else {
        DeclBroken(c, key, ms, i);
        return None;
      }
    }
    DeclEnd(c, key, ms, max, caption);
    if max.None? {
      return None;
    }
    r := NewDecl(c, key, caption, max.value);
  }

  lemma DeclsNext(c: Catalog, es: seq<(Bytes, Value)>, i: nat)
    requires i < |es|
    ensures ReadDecls(c, es[i..]) ==
            var d := ReadDecl(c, es[i].0, es[i].1); if d.None? then None else Prefixed([d.value], ReadDecls(c, es[i + 1..]))
  {
    hide ReadDecl;
    assert es[i..][1..] == es[i + 1..];
  }

  lemma {:induction false} DenotedAt(ms: seq<(Bytes, Doc)>, i: nat)
    requires i < |ms|
    ensures DenoteMembers(ms)[i] == (ms[i].0, Denote(ms[i].1))
  {
    hide Denote;
    if i > 0 { DenotedAt(ms[1..], i - 1); }
  }

  lemma EntriesOf(ms: seq<(Bytes, Doc)>)
    requires Ascending(ms)
    ensures Entries(ToMap(DenoteMembers(ms))) == DenoteMembers(ms)
  {
    hide Ascending, Entries, ToMap;
    DenotedAscending(ms);
    EntriesAre(DenoteMembers(ms));
  }

  /** The declarations of a nonempty ownsOutgoing object, in canonical order. */
  method ParseOwns(c: Catalog, canonical: Bytes, ghost d: Doc, ghost room: nat) returns (r: Option<seq<Decl>>)
    requires d.Obj? && 0 < room < MAX_DEPTH && WellFormed(c.rules, room + 1, d) && canonical == Canon(d)
    ensures Denote(d).VObj?
    ensures r == var es := Entries(Denote(d).members); if es == [] then None else ReadDecls(c, es)
  {
    hide WellFormed, Canon, Denote, Ascending, ToMap, Sort, ReadDecl, ReadDecls, Entries;
    var texts, ms := Walk(c.rules, canonical, d, room);
    ghost var es := DenoteMembers(ms);
    EntriesOf(ms);
    if |texts| == 0 {
      return None;
    }
    var out: seq<Decl> := [];
    PrefixedNil(ReadDecls(c, es));
    assert es[0..] == es;
    for i := 0 to |texts|
      invariant ReadDecls(c, es) == Prefixed(out, ReadDecls(c, es[i..]))
    {
      assert SpellsAt(c.rules, room, texts, ms, i);
      DeclsNext(c, es, i);
      DenotedAt(ms, i);
      var decl := ParseDecl(c, texts[i].0, texts[i].1, ms[i].1, room - 1);
      if decl.None? {
        return None;
      }
      PrefixedStep(out, decl.value, ReadDecls(c, es[i + 1..]));
      out := out + [decl.value];
    }
    NoDecls(c, es);
    assert out + [] == out;
    r := Some(out);
  }

  lemma NoDecls(c: Catalog, es: seq<(Bytes, Value)>)
    ensures ReadDecls(c, es[|es|..]) == Some([])
  {
  }

  // ---- the whole document ----

  /** The member table: the texts kept by name, the documents behind them, and
      what those denote. */
  ghost predicate Table(rules: Rules, room: nat, members: map<Bytes, Bytes>, docs: map<Bytes, Doc>, m: map<Bytes, Value>) {
    && members.Keys == docs.Keys == m.Keys
    && forall k :: k in docs ==> Row(rules, room, members, docs, m, k)
  }

  ghost predicate Row(rules: Rules, room: nat, members: map<Bytes, Bytes>, docs: map<Bytes, Doc>, m: map<Bytes, Value>, k: Bytes)
  {
    && k in members && k in docs && k in m
    && members[k] == Canon(docs[k]) && WellFormed(rules, room, docs[k]) && m[k] == Denote(docs[k]) && Shape(k, m[k])
  }

  lemma TableNext(rules: Rules, room: nat, members: map<Bytes, Bytes>, docs: map<Bytes, Doc>, m: map<Bytes, Value>, k: Bytes, d: Doc)
    requires Table(rules, room, members, docs, m) && WellFormed(rules, room, d) && Shape(k, Denote(d))
    ensures Table(rules, room, members[k := Canon(d)], docs[k := d], m[k := Denote(d)])
  {
    hide Canon, Denote, WellFormed, Shape;
    var members', docs', m' := members[k := Canon(d)], docs[k := d], m[k := Denote(d)];
    forall j | j in docs' ensures Row(rules, room, members', docs', m', j) {
      if j != k { assert Row(rules, room, members, docs, m, j); }
    }
  }

  /** Collect the members, refusing unknown names and wrong kinds of value. */
  method CollectMembers(c: Catalog, canonical: Bytes, ghost d: Doc) returns (members: Option<map<Bytes, Bytes>>, ghost docs: map<Bytes, Doc>)
    requires d.Obj? && WellFormed(c.rules, MAX_DEPTH, d) && canonical == Canon(d)
    ensures Denote(d).VObj?
    ensures members.Some? ==> Table(c.rules, MAX_DEPTH - 1, members.value, docs, Denote(d).members)
    ensures members.None? ==> ReadDescriptor(c, Denote(d)).None?
  {
    hide WellFormed, Canon, Denote, Ascending, ToMap, DenoteMembers, Table, Sort, Shape, WantedFirst, NewTypeDescriptor, Upto;
    var texts, ms := Walk(c.rules, canonical, d, MAX_DEPTH - 1);
    var found: map<Bytes, Bytes> := map[];
    docs := map[];
    UptoNothing(ms);
    NoRows(c.rules);
    for i := 0 to |texts|
      invariant Table(c.rules, MAX_DEPTH - 1, found, docs, Upto(ms, i))
    {
      assert SpellsAt(c.rules, MAX_DEPTH - 1, texts, ms, i);
      var key, value := texts[i].0, texts[i].1;
      WantedMeans(key, ms[i].1);
      var want := WantedFirst(key);
      if want.None? || value[0] == LOWER_N || value[0] != want.value {
        NullUnwanted(key);
        MemberUnshaped(c, ms, i);
        members := None;
        return;
      }
      UptoNext(ms, i);
      TableNext(c.rules, MAX_DEPTH - 1, found, docs, Upto(ms, i), key, ms[i].1);
      found, docs := found[key := value], docs[key := ms[i].1];
    }
    UptoAll(ms);
    members := Some(found);
  }

  lemma NoRows(rules: Rules)
    ensures Table(rules, MAX_DEPTH - 1, map[], map[], map[])
  {
  }

  /** No member may be null. */
  lemma NullUnwanted(k: Bytes)
    ensures WantedFirst(k) != Some(LOWER_N)
  {
    hide Text;
  }

  lemma MemberUnshaped(c: Catalog, ms: seq<(Bytes, Doc)>, i: nat)
    requires Ascending(ms) && i < |ms| && !Shape(ms[i].0, Denote(ms[i].1))
    ensures ReadDescriptor(c, VObj(ToMap(DenoteMembers(ms)))).None?
  {
    hide Ascending, ToMap, DenoteMembers, Denote, Shape, NewTypeDescriptor, ReadEnd, ReadOwns, ListAt, TextAt;
    MemberHeld(ms, i);
  }

  /** A string member's text; nothing when it is absent. */
  method StringMember(c: Catalog, members: map<Bytes, Bytes>, k: Bytes, ghost docs: map<Bytes, Doc>, ghost m: map<Bytes, Value>)
      returns (s: Bytes)
    requires Table(c.rules, MAX_DEPTH - 1, members, docs, m) && WantedFirst(k) == Some(QUOTE)
    ensures s == TextAt(m, k)
  {
    hide Canon, Denote, WellFormed, WantedFirst, Shape;
    if k !in members {
      return [];
    }
    assert Row(c.rules, MAX_DEPTH - 1, members, docs, m, k);
    WantedMeans(k, docs[k]);
    FirstByte(docs[k]);
    StringIsValid(c.rules, MAX_DEPTH - 1, docs[k]);
    s := CanonicalStringValue(c.rules, members[k], docs[k].s);
    StringDenotes(s);
  }

  lemma Wanted()
    ensures WantedFirst(Text("id")) == WantedFirst(Text("name")) == WantedFirst(Text("description")) == Some(QUOTE)
    ensures WantedFirst(Text("describes")) == WantedFirst(Text("propertiesSchema")) == Some(QUOTE)
    ensures WantedFirst(Text("conformsTo")) == Some(LBRACKET)
    ensures WantedFirst(Text("source")) == WantedFirst(Text("target")) == WantedFirst(Text("ownsOutgoing")) == Some(LBRACE)
  {
    hide Text, Rank;
    NamesRank();
  }

  method ListMember(c: Catalog, members: map<Bytes, Bytes>, k: Bytes, ghost docs: map<Bytes, Doc>, ghost m: map<Bytes, Value>)
      returns (r: Option<seq<Bytes>>)
    requires Table(c.rules, MAX_DEPTH - 1, members, docs, m) && WantedFirst(k) == Some(LBRACKET) && k in members
    ensures r == ListAt(m, k)
  {
    hide Canon, Denote, WellFormed, WantedFirst, Shape, ReadStrings;
    assert Row(c.rules, MAX_DEPTH - 1, members, docs, m, k);
    WantedMeans(k, docs[k]);
    FirstByte(docs[k]);
    RoomToSpare(c.rules, MAX_DEPTH - 1, docs[k]);
    r := ReadUrls(c.rules, members[k], docs[k]);
  }

  method EndMember(c: Catalog, members: map<Bytes, Bytes>, k: Bytes, describes: Bytes, ghost docs: map<Bytes, Doc>,
                   ghost m: map<Bytes, Value>) returns (r: Option<Option<Endpoint>>)
    requires Table(c.rules, MAX_DEPTH - 1, members, docs, m) && WantedFirst(k) == Some(LBRACE)
    requires describes == TextAt(m, Text("describes"))
    ensures r == ReadEnd(c, m, k)
  {
    hide Canon, Denote, WellFormed, WantedFirst, Shape, ReadEndpoint, Text, TextAt;
    if k !in members {
      return Some(None);
    }
    assert Row(c.rules, MAX_DEPTH - 1, members, docs, m, k);
    if describes == BEAD {
      return None;
    }
    WantedMeans(k, docs[k]);
    FirstByte(docs[k]);
    var e := ParseEndpoint(c, members[k], docs[k], MAX_DEPTH - 2);
    r := if e.None? then None else Some(e);
  }

  method OwnsMember(c: Catalog, members: map<Bytes, Bytes>, ghost docs: map<Bytes, Doc>, ghost m: map<Bytes, Value>)
      returns (r: Option<seq<Decl>>)
    requires Table(c.rules, MAX_DEPTH - 1, members, docs, m)
    ensures r == ReadOwns(c, m)
  {
    hide Canon, Denote, WellFormed, WantedFirst, Shape, ReadDecls, Entries, Text;
    var k := Text("ownsOutgoing");
    if k !in members {
      return Some([]);
    }
    assert Row(c.rules, MAX_DEPTH - 1, members, docs, m, k);
    Wanted();
    WantedMeans(k, docs[k]);
    FirstByte(docs[k]);
    r := ParseOwns(c, members[k], docs[k], MAX_DEPTH - 2);
  }

  lemma TableShaped(c: Catalog, members: map<Bytes, Bytes>, docs: map<Bytes, Doc>, m: map<Bytes, Value>)
    requires Table(c.rules, MAX_DEPTH - 1, members, docs, m)
    ensures members.Keys == m.Keys && forall k :: k in m ==> Shape(k, m[k])
  {
    hide Canon, Denote, WellFormed, Shape;
    forall k | k in m ensures Shape(k, m[k]) { assert Row(c.rules, MAX_DEPTH - 1, members, docs, m, k); }
  }

  /** The specification the collected members spell. */
  method ReadMembers(c: Catalog, members: map<Bytes, Bytes>, ghost docs: map<Bytes, Doc>, ghost m: map<Bytes, Value>)
      returns (r: Option<Spec>)
    requires Table(c.rules, MAX_DEPTH - 1, members, docs, m)
    ensures r == ReadSpec(c, m)
  {
    hide Table, Text, WantedFirst, Shape, TextAt, ListAt, ReadEnd, ReadOwns;
    TableShaped(c, members, docs, m);
    Wanted();
    if Text("id") !in members || Text("name") !in members || Text("describes") !in members || Text("conformsTo") !in members {
      return None;
    }
    var id := StringMember(c, members, Text("id"), docs, m);
    var name := StringMember(c, members, Text("name"), docs, m);
    var describes := StringMember(c, members, Text("describes"), docs, m);
    var description := StringMember(c, members, Text("description"), docs, m);
    var schema := StringMember(c, members, Text("propertiesSchema"), docs, m);
    if Text("propertiesSchema") in members && schema == [] {
      return None;
    }
    var parents := ListMember(c, members, Text("conformsTo"), docs, m);
    if parents.None? {
      return None;
    }
    var source := EndMember(c, members, Text("source"), describes, docs, m);
    if source.None? {
      return None;
    }
    var target := EndMember(c, members, Text("target"), describes, docs, m);
    if target.None? {
      return None;
    }
    var owns := OwnsMember(c, members, docs, m);
    if owns.None? {
      return None;
    }
    r := Some(Spec(id, name, description, describes, parents.value, schema, source.value, target.value, owns.value));
  }

  // ---- construction and the whole parse ----

  /** The constructor, with its loops over parents and declarations. */
  method BuildDescriptor(c: Catalog, s: Spec) returns (r: Option<Descriptor>)
    ensures r == NewTypeDescriptor(c, s)
  {
    hide PlainLaws, UrlList, OwnsTest, SortedDecls, Canon, Wire;
    if !PlainLaws(c, s) {
      return None;
    }
    var parents := TypeUrlList(c, s.conformsTo);
    if parents.None? || s.id in parents.value {
      return None;
    }
    var n := s.(conformsTo := parents.value);
    if s.describes == LINK {
      if s.source.None? || s.target.None? || s.owns != [] {
        return None;
      }
    } else {
      if s.source.Some? || s.target.Some? {
        return None;
      }
      var sorted := SortedDecls(s.owns);
      var ok := TestOwns(sorted);
      if !ok {
        return None;
      }
      n := n.(owns := sorted);
    }
    var canonical := Canon(Wire(n));
    r := Some(Descriptor(n, canonical, c.hash(canonical)));
  }

  /** Reading the canonical text is reading the value the document denotes. */
  lemma ParsedOnce(c: Catalog, raw: Bytes)
    ensures var d := Parse(c.rules, raw);
            && (d.None? ==> ParseTypeDescriptor(c, raw).None?)
            && (d.Some? ==> WellFormed(c.rules, MAX_DEPTH, d.value)
                            && ParseTypeDescriptor(c, raw) == ReadDescriptor(c, Denote(d.value)))
  {
    hide Parse, WellFormed, Denote, ReadDescriptor, Canon;
    var d := Parse(c.rules, raw);
    if d.Some? {
      ParseWellFormed(c.rules, raw);
      CanonParses(c.rules, d.value);
    }
  }

  /** The parser: canonicalize, walk the bytes, construct. */
  method ParseDescriptor(c: Catalog, raw: Bytes) returns (r: Option<Descriptor>)
    ensures r == ParseTypeDescriptor(c, raw)
  {
    hide Parse, WellFormed, Denote, Canon, ParseTypeDescriptor, ReadSpec, NewTypeDescriptor, Table;
    ParsedOnce(c, raw);
    var canonical := CanonicalizeJson(raw, c.rules);
    if canonical.None? {
      return None;
    }
    ghost var d := Parse(c.rules, raw).value;
    FirstByte(d);
    DenoteKind(d);
    if canonical.value[0] != LBRACE {
      return None;
    }
    var members, docs := CollectMembers(c, canonical.value, d);
    if members.None? {
      return None;
    }
    var s := ReadMembers(c, members.value, docs, Denote(d).members);
    if s.None? {
      return None;
    }
    r := BuildDescriptor(c, s.value);
  }
}
