/** Walking canonical bytes member by member. The helpers trust their input to
    be canonical and ignore every error; on canonical bytes there is none. */
module CanonicalWalk {
  import opened Utf8
  import opened Wrappers
  import opened Numbers
  import opened NumberText
  import opened Strings
  import opened Sorting
  import opened Seqs
  import opened Json
  import opened JsonLaws
  import opened JsonFields
  import opened Scanner

  function ModeFor(rules: Rules, text: Bytes): Mode { Mode(ExponentLimit(|text|), rules) }

  // ---- strings ----

  /** The text a canonical string spells. */
  method CanonicalStringValue(rules: Rules, canonical: Bytes, ghost s: Bytes) returns (r: Bytes)
    requires Valid(s) && canonical == Canon(Str(s))
    ensures r == s
  {
    QuotedThen(s, []);
    assert canonical + [] == canonical;
    var scanner := new JsonScanner(canonical, rules);
    assert canonical[0..] == canonical;
    assert canonical[1..] == EscapedAll(s) + ([QUOTE] + []);
    var text := scanner.Str();
    r := text.value;
  }

  // ---- objects ----

  lemma ObjectRescans(mode: Mode, room: nat, ms: seq<(Bytes, Doc)>)
    requires mode.limit >= MAX_EXPONENT && WellFormed(mode.rules, room + 1, Obj(ms))
    ensures var r := ScanValue(mode, room + 1, Canon(Obj(ms)));
            r.Some? && r.value.1 == [] && r.value.0.Obj? && CanonMembers(r.value.0.members) == CanonMembers(Sort(ms))
  {
    hide ScanValue, Canon, Sort, WellFormed, CanonMembers, ScanMembers;
    var sorted := Sort(ms);
    var body := JoinMembers(CanonMembers(sorted)) + ([RBRACE] + []);
    ObjectBody(ms, []);
    assert Canon(Obj(ms)) + [] == Canon(Obj(ms));
    ObjectDispatch(mode, room, body);
    if ms == [] {
      EmptyObject(mode, room, sorted);
    } else {
      MembersOfWellFormed(mode.rules, room, ms);
      SortedWellFormed(mode.rules, room, ms);
      JoinMembersHead(sorted, [RBRACE] + []);
      MembersThen(mode, room, {}, sorted, []);
      ScanMembersWellFormed(mode, room, {}, body);
      SameMembers(mode.rules, room, ScanMembers(mode, room, {}, body).value.0, sorted);
    }
  }

  lemma MembersOfWellFormed(rules: Rules, room: nat, ms: seq<(Bytes, Doc)>)
    requires WellFormed(rules, room + 1, Obj(ms))
    ensures DistinctKeys(ms) && WellFormedMembers(rules, room, ms)
  {
    hide DistinctKeys;
  }

  lemma EmptyObject(mode: Mode, room: nat, ms: seq<(Bytes, Doc)>)
    requires ms == []
    ensures ScanObject(mode, room, JoinMembers(CanonMembers(ms)) + ([RBRACE] + [])) == Some((Obj([]), []))
  {
    assert JoinMembers(CanonMembers(ms)) + ([RBRACE] + []) == [RBRACE];
  }

  /** The members of a canonical object, in canonical order, each with its
      canonical text. */
  method CanonicalObjectMembers(rules: Rules, canonical: Bytes, ghost ms: seq<(Bytes, Doc)>) returns (r: seq<(Bytes, Bytes)>)
    requires WellFormed(rules, MAX_DEPTH, Obj(ms)) && canonical == Canon(Obj(ms))
    ensures r == CanonMembers(Sort(ms))
  {
    hide Canon, ScanValue, WellFormed, Sort, CanonMembers;
    var scanner := new JsonScanner(canonical, rules);
    assert canonical[0..] == canonical;
    ObjectRescans(ModeFor(rules, canonical), MAX_DEPTH - 1, ms);
    ObjectOpens(ms);
    var members := scanner.ObjectMembers();
    r := members.value;
  }

  lemma ObjectOpens(ms: seq<(Bytes, Doc)>)
    ensures Canon(Obj(ms)) != [] && Canon(Obj(ms))[0] == LBRACE
  {
  }

  // ---- arrays ----

  /** What stands in the text from the k-th element on. */
  function From(items: seq<Doc>, k: nat): Bytes
    requires k <= |items|
  {
    JoinItems(CanonItems(items[k..])) + [RBRACKET]
  }

  /** What stands behind the k-th element. */
  function Behind(items: seq<Doc>, k: nat): Bytes
    requires k < |items|
  {
    if k + 1 == |items| then [RBRACKET] else [COMMA] + From(items, k + 1)
  }

  lemma FromNext(items: seq<Doc>, k: nat)
    requires k < |items|
    ensures From(items, k) == Canon(items[k]) + Behind(items, k)
  {
    hide Canon;
    var ds := items[k..];
    assert ds[1..] == items[k + 1..];
    var ts := CanonItems(ds);
    assert ts[1..] == CanonItems(ds[1..]);
    if k + 1 < |items| {
      Assoc(ts[0], [COMMA] + JoinItems(ts[1..]), [RBRACKET]);
      Assoc([COMMA], JoinItems(ts[1..]), [RBRACKET]);
    }
  }

  lemma FromEnd(items: seq<Doc>)
    ensures From(items, |items|) == [RBRACKET]
  {
    assert items[|items|..] == [];
  }

  lemma FromHead(items: seq<Doc>, k: nat)
    requires k <= |items|
    ensures From(items, k) != [] && (From(items, k)[0] == RBRACKET <==> k == |items|)
  {
    hide Canon, From;
    if k < |items| {
      FromNext(items, k);
      CanonHead(items[k]);
    } else {
      FromEnd(items);
    }
  }

  lemma ArrayOpens(items: seq<Doc>)
    ensures Canon(Arr(items)) == [LBRACKET] + From(items, 0)
  {
    assert items[0..] == items;
    Assoc([LBRACKET], JoinItems(CanonItems(items)), [RBRACKET]);
  }

  /** Scanning an element of the text gives its canonical text. */
  lemma ElementRescans(mode: Mode, room: nat, d: Doc, post: Bytes)
    requires mode.limit >= MAX_EXPONENT && Stops(post) && WellFormed(mode.rules, room, d)
    ensures var r := ScanValue(mode, room, Canon(d) + post);
            r.Some? && r.value.1 == post && Canon(r.value.0) == Canon(d)
  {
    hide ScanValue, Canon, WellFormed;
    ValueThen(mode, room, d, post);
    ScanValueWellFormed(mode, room, Canon(d) + post);
    SameValueSameText(mode.rules, room, ScanValue(mode, room, Canon(d) + post).value.0, d);
  }

  lemma BehindStops(items: seq<Doc>, k: nat)
    requires k < |items|
    ensures Stops(Behind(items, k))
  {
    hide From;
  }

  /** The canonical texts of a canonical array's elements. The scanner starts
      past the bracket, at no depth. */
  method CanonicalArrayValues(rules: Rules, canonical: Bytes, ghost items: seq<Doc>) returns (out: seq<Bytes>)
    requires WellFormed(rules, MAX_DEPTH, Arr(items)) && canonical == Canon(Arr(items))
    ensures out == CanonItems(items)
  {
    hide Canon, ScanValue, From, CanonItems, Stops, WellFormed;
    ArrayOpens(items);
    var s := new JsonScanner(canonical, rules);
    s.pos := 1;
    out := [];
    ghost var k := 0;
    NoItems(items);
    assert canonical[1..] == From(items, 0);
    FromHead(items, 0);
    while s.input[s.pos] != RBRACKET
      invariant 0 <= k <= |items| && s.pos < |s.input| && s.depth == 0
      invariant s.input[s.pos..] == From(items, k) && s.input[s.pos] == From(items, k)[0]
      invariant out == CanonItems(items[..k])
      decreases |items| - k
    {
      FromHead(items, k);
      FromNext(items, k);
      BehindStops(items, k);
      ItemFits(rules, items, k);
      ElementRescans(s.Reading(), MAX_DEPTH, items[k], Behind(items, k));
      var v := s.Value([]);
      assert [] + Canon(items[k]) == Canon(items[k]);
      ItemsNext(items, k);
      out := out + [v.value];
      assert s.input[s.pos..] == Behind(items, k);
      if k + 1 == |items| { FromEnd(items); }
      if s.input[s.pos] == COMMA {
        assert s.input[s.pos..][1..] == s.input[s.pos + 1..];
        s.pos := s.pos + 1;
      }
      k := k + 1;
      FromHead(items, k);
    }
    FromHead(items, k);
    assert items[..k] == items;
  }

  lemma NoItems(items: seq<Doc>)
    ensures CanonItems(items[..0]) == []
  {
  }

  lemma {:induction false} ItemsNext(items: seq<Doc>, k: nat)
    requires k < |items|
    ensures CanonItems(items[..k + 1]) == CanonItems(items[..k]) + [Canon(items[k])]
  {
    assert items[..k + 1] == items[..k] + [items[k]];
    CanonItemsSnoc(items[..k], items[k]);
  }

  lemma ItemFits(rules: Rules, items: seq<Doc>, k: nat)
    requires WellFormed(rules, MAX_DEPTH, Arr(items)) && k < |items|
    ensures WellFormed(rules, MAX_DEPTH, items[k])
  {
    assert WellFormed(rules, MAX_DEPTH - 1, items[k]);
    MoreRoom(rules, MAX_DEPTH - 1, MAX_DEPTH, items[k]);
  }
}
