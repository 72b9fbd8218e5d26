/** The laws of canonicalisation: the canonical text is a normal form of the
    value a document denotes. */
module JsonLaws {
  import opened Utf8
  import opened Wrappers
  import opened Numbers
  import opened NumberText
  import opened Strings
  import opened Sorting
  import opened Seqs
  import opened Json

  // ---- what the parse produces ----

  lemma {:induction false} ScanValueWellFormed(mode: Mode, room: nat, t: Bytes)
    ensures ScanValue(mode, room, t).Some? ==> WellFormed(mode.rules, room, ScanValue(mode, room, t).value.0)
    decreases |t|, 1
  {
    if t != [] {
      if t[0] == LBRACE {
        if room > 0 { ScanObjectWellFormed(mode, room - 1, t[1..]); }
      } else if t[0] == LBRACKET {
        if room > 0 { ScanArrayWellFormed(mode, room - 1, t[1..]); }
      } else {
        CharsValid(t[1..]);
      }
    }
  }

  lemma {:induction false} ScanArrayWellFormed(mode: Mode, room: nat, t: Bytes)
    ensures ScanArray(mode, room, t).Some? ==> WellFormed(mode.rules, room + 1, ScanArray(mode, room, t).value.0)
    decreases |t|, 3
  {
    ScanItemsWellFormed(mode, room, SkipSpace(t));
  }

  lemma {:induction false} ScanItemsWellFormed(mode: Mode, room: nat, t: Bytes)
    ensures ScanItems(mode, room, t).Some? ==> WellFormedItems(mode.rules, room, ScanItems(mode, room, t).value.0)
    decreases |t|, 2
  {
    if ScanItems(mode, room, t).Some? {
      ScanValueWellFormed(mode, room, SkipSpace(t));
      var d := ScanValue(mode, room, SkipSpace(t)).value;
      var u := SkipSpace(d.1);
      if u[0] == COMMA {
        ScanItemsWellFormed(mode, room, u[1..]);
      }
    }
  }

  lemma {:induction false} ScanObjectWellFormed(mode: Mode, room: nat, t: Bytes)
    ensures ScanObject(mode, room, t).Some? ==> WellFormed(mode.rules, room + 1, ScanObject(mode, room, t).value.0)
    decreases |t|, 3
  {
    ScanMembersWellFormed(mode, room, {}, SkipSpace(t));
  }

  /** Scanned members have distinct keys, none of them seen before. */
  lemma {:induction false} ScanMembersWellFormed(mode: Mode, room: nat, seen: set<Bytes>, t: Bytes)
    ensures var r := ScanMembers(mode, room, seen, t);
            r.Some? ==> WellFormedMembers(mode.rules, room, r.value.0) && DistinctKeys(r.value.0)
                        && forall k :: k in seen ==> !HasKey(r.value.0, k)
    decreases |t|, 2
  {
    if ScanMembers(mode, room, seen, t).Some? {
      assert ScanMember(mode, room, seen, t).Some?;
      var key := ScanKey(seen, t).value;
      CharsValid(SkipSpace(t)[1..]);
      ScanValueWellFormed(mode, room, key.1);
      var d := ScanValue(mode, room, key.1).value;
      var u := SkipSpace(d.1);
      var ms := ScanMembers(mode, room, seen, t).value.0;
      if u[0] == COMMA {
        ScanMembersWellFormed(mode, room, seen + {key.0}, u[1..]);
        var more := ScanMembers(mode, room, seen + {key.0}, u[1..]).value.0;
        assert ms[1..] == more;
        KeySplit(ms);
      } else {
        assert ms[1..] == [];
      }
    }
  }

  lemma ParseWellFormed(rules: Rules, raw: Bytes)
    ensures Parse(rules, raw).Some? ==> WellFormed(rules, MAX_DEPTH, Parse(rules, raw).value)
  {
    ScanValueWellFormed(Mode(ExponentLimit(|raw|), rules), MAX_DEPTH, SkipSpace(raw));
  }

  // ---- mapped forms ----

  lemma {:induction false} CanonMembersMap(ms: seq<(Bytes, Doc)>)
    ensures CanonMembers(ms) == MapPayload(Canon, ms)
  {
    if ms != [] { CanonMembersMap(ms[1..]); }
  }

  lemma {:induction false} DenoteMembersMap(ms: seq<(Bytes, Doc)>)
    ensures DenoteMembers(ms) == MapPayload(Denote, ms)
  {
    if ms != [] { DenoteMembersMap(ms[1..]); }
  }

  /** An object's text is its members' texts in sorted order. */
  lemma ObjectTextSorted(ms: seq<(Bytes, Doc)>)
    ensures ObjectText(CanonMembers(ms)) == [LBRACE] + JoinMembers(CanonMembers(Sort(ms))) + [RBRACE]
  {
    CanonMembersMap(ms);
    CanonMembersMap(Sort(ms));
    SortMapped(Canon, ms);
  }

  /** Sorting members does not change the value of the object. */
  lemma SortedDenotes(ms: seq<(Bytes, Doc)>)
    requires DistinctKeys(ms) && ValidKeys(ms)
    ensures ToMap(DenoteMembers(Sort(ms))) == ToMap(DenoteMembers(ms))
  {
    DenoteMembersMap(ms);
    DenoteMembersMap(Sort(ms));
    SortMapped(Denote, ms);
    MapDistinct(Denote, ms);
    MapKeys(Denote, ms);
    SortKeepsMap(DenoteMembers(ms));
  }

  lemma SortedWellFormed(rules: Rules, room: nat, ms: seq<(Bytes, Doc)>)
    requires DistinctKeys(ms) && WellFormedMembers(rules, room, ms)
    ensures WellFormedMembers(rules, room, Sort(ms)) && Ascending(Sort(ms)) && DistinctKeys(Sort(ms))
  {
    SortAscending(ms);
    AscendingDistinct(Sort(ms));
    SortKeys(ms);
    var r := Sort(ms);
    forall i | 0 <= i < |r| ensures WellFormed(rules, room, r[i].1) {
      assert r[i] in r;
    }
  }

  // ---- equal values have equal canonical texts ----

  lemma {:induction false} SameValueSameText(rules: Rules, room: nat, a: Doc, b: Doc)
    requires WellFormed(rules, room, a) && WellFormed(rules, room, b)
    requires Denote(a) == Denote(b)
    ensures Canon(a) == Canon(b)
    decreases room, 0
  {
    match (a, b)
    case (Num(l), Num(m)) =>
      NormalizeValue(l);
      NormalizeValue(m);
      DecimalUnique(Normalize(l), Normalize(m));
    case (Arr(xs), Arr(ys)) =>
      SameItems(rules, room - 1, xs, ys);
    case (Obj(xs), Obj(ys)) =>
      SameObjects(rules, room - 1, xs, ys);
    case _ =>
  }

  lemma {:induction false} SameItems(rules: Rules, room: nat, xs: seq<Doc>, ys: seq<Doc>)
    requires WellFormedItems(rules, room, xs) && WellFormedItems(rules, room, ys)
    requires DenoteItems(xs) == DenoteItems(ys)
    ensures CanonItems(xs) == CanonItems(ys)
    decreases room, |xs| + 2
  {
    if xs != [] {
      assert DenoteItems(xs)[0] == DenoteItems(ys)[0];
      assert DenoteItems(xs)[1..] == DenoteItems(xs[1..]);
      assert DenoteItems(ys)[1..] == DenoteItems(ys[1..]);
      SameValueSameText(rules, room, xs[0], ys[0]);
      SameItems(rules, room, xs[1..], ys[1..]);
    }
  }

  lemma {:induction false} SameMembers(rules: Rules, room: nat, xs: seq<(Bytes, Doc)>, ys: seq<(Bytes, Doc)>)
    requires WellFormedMembers(rules, room, xs) && WellFormedMembers(rules, room, ys)
    requires DenoteMembers(xs) == DenoteMembers(ys)
    ensures CanonMembers(xs) == CanonMembers(ys)
    decreases room, |xs| + 2
  {
    if xs != [] {
      assert DenoteMembers(xs)[0] == DenoteMembers(ys)[0];
      assert DenoteMembers(xs)[1..] == DenoteMembers(xs[1..]);
      assert DenoteMembers(ys)[1..] == DenoteMembers(ys[1..]);
      SameValueSameText(rules, room, xs[0].1, ys[0].1);
      SameMembers(rules, room, xs[1..], ys[1..]);
    }
  }

  /** Objects with the same members in any order have the same text: a sorted
      list of distinct members is determined by the map it forms. */
  lemma {:induction false} SameObjects(rules: Rules, room: nat, xs: seq<(Bytes, Doc)>, ys: seq<(Bytes, Doc)>)
    requires WellFormedMembers(rules, room, xs) && WellFormedMembers(rules, room, ys)
    requires DistinctKeys(xs) && DistinctKeys(ys)
    requires ToMap(DenoteMembers(xs)) == ToMap(DenoteMembers(ys))
    ensures ObjectText(CanonMembers(xs)) == ObjectText(CanonMembers(ys))
    decreases room, |xs| + 3
  {
    var sx, sy := Sort(xs), Sort(ys);
    SortedWellFormed(rules, room, xs);
    SortedWellFormed(rules, room, ys);
    SortedDenotes(xs);
    SortedDenotes(ys);
    DenotedAscending(sx);
    DenotedAscending(sy);
    AscendingUnique(DenoteMembers(sx), DenoteMembers(sy));
    SameMembers(rules, room, sx, sy);
    ObjectTextSorted(xs);
    ObjectTextSorted(ys);
  }

  lemma {:induction false} DenotedAscending(ms: seq<(Bytes, Doc)>)
    requires Ascending(ms)
    ensures Ascending(DenoteMembers(ms))
  {
    if ms != [] {
      DenotedAscending(ms[1..]);
      DenoteMembersMap(ms[1..]);
      assert DenoteMembers(ms)[1..] == DenoteMembers(ms[1..]);
    }
  }

  // ---- the canonical text reads back ----

  /** The text reads as a document of value v, leaving post. */
  ghost predicate Reads(mode: Mode, room: nat, t: Bytes, v: Value, post: Bytes) {
    var r := ScanValue(mode, room, t);
    r.Some? && r.value.1 == post && Denote(r.value.0) == v
  }

  ghost predicate ReadsItems(mode: Mode, room: nat, t: Bytes, vs: seq<Value>, post: Bytes) {
    var r := ScanItems(mode, room, t);
    r.Some? && r.value.1 == post && DenoteItems(r.value.0) == vs
  }

  ghost predicate ReadsMembers(mode: Mode, room: nat, seen: set<Bytes>, t: Bytes, vs: seq<(Bytes, Value)>, post: Bytes) {
    var r := ScanMembers(mode, room, seen, t);
    r.Some? && r.value.1 == post && DenoteMembers(r.value.0) == vs
  }

  predicate StartsSolid(t: Bytes) { t != [] && !IsSpace(t[0]) }

  /** A printed number starts with a digit or a minus sign. */
  lemma PrintHead(d: Decimal)
    requires d.Normal()
    ensures Print(d) != [] && (Print(d)[0] == MINUS || IsDigit(Print(d)[0]))
  {
  }

  /** A canonical text never starts with a space. */
  lemma CanonHead(d: Doc)
    ensures StartsSolid(Canon(d))
    ensures Canon(d)[0] != RBRACKET && Canon(d)[0] != RBRACE
  {
    hide Print, Normalize, Quoted, JoinItems, CanonItems, CanonMembers, JoinMembers, Sort;
    match d
    case Num(l) => PrintHead(Normalize(l));
    case Str(s) => QuotedHead(s);
    case _ =>
  }

  lemma QuotedHead(s: Bytes)
    ensures Quoted(s) != [] && Quoted(s)[0] == QUOTE
  {
  }

  lemma NumberDispatch(mode: Mode, room: nat, t: Bytes)
    requires t != [] && (t[0] == MINUS || IsDigit(t[0]))
    ensures ScanValue(mode, room, t) == ScanNumber(mode, t)
  {
    hide ScanNumber;
  }

  lemma NumberThen(mode: Mode, room: nat, l: Number, post: Bytes)
    requires mode.limit >= MAX_EXPONENT && Stops(post)
    requires Normalize(l).InRange() && mode.rules.Admits(l.Value())
    ensures Reads(mode, room, Canon(Num(l)) + post, VNum(l.Value()), post)
  {
    var t := Print(Normalize(l)) + post;
    PrintHead(Normalize(l));
    NumberDispatch(mode, room, t);
    ScanPrinted(mode.limit, Normalize(l), post);
    SameNormalSameValue(ScanLiteral(mode.limit, t).value.0, l);
  }

  lemma SameNormalSameValue(l: Number, m: Number)
    requires Normalize(l) == Normalize(m)
    ensures l.Value() == m.Value()
  {
    NormalizeValue(l);
    NormalizeValue(m);
  }

  lemma StringThen(mode: Mode, room: nat, s: Bytes, post: Bytes)
    requires Valid(s)
    ensures Reads(mode, room, Quoted(s) + post, VStr(s), post)
  {
    QuotedThen(s, post);
    Cut([QUOTE], EscapedAll(s) + ([QUOTE] + post));
  }

  lemma WordThen(mode: Mode, room: nat, d: Doc, post: Bytes)
    requires d.Null? || d.Bool?
    ensures Reads(mode, room, Canon(d) + post, Denote(d), post)
  {
    Cut(Canon(d), post);
    assert (Canon(d) + post)[0] == Canon(d)[0];
    assert Canon(d) <= Canon(d) + post;
  }

  lemma {:induction false} ValueThen(mode: Mode, room: nat, d: Doc, post: Bytes)
    requires mode.limit >= MAX_EXPONENT && Stops(post)
    requires WellFormed(mode.rules, room, d)
    ensures Reads(mode, room, Canon(d) + post, Denote(d), post)
    decreases room, 0
  {
    match d
    case Num(l) => NumberThen(mode, room, l, post);
    case Str(s) => StringThen(mode, room, s, post);
    case Arr(items) => ArrayThen(mode, room - 1, items, post);
    case Obj(members) => ObjectThen(mode, room - 1, members, post);
    case _ => WordThen(mode, room, d, post);
  }

  lemma {:induction false} ArrayThen(mode: Mode, room: nat, items: seq<Doc>, post: Bytes)
    requires mode.limit >= MAX_EXPONENT
    requires WellFormedItems(mode.rules, room, items)
    ensures Reads(mode, room + 1, Canon(Arr(items)) + post, Denote(Arr(items)), post)
    decreases room, |items| + 3
  {
    var body := JoinItems(CanonItems(items)) + ([RBRACKET] + post);
    Assoc([LBRACKET] + JoinItems(CanonItems(items)), [RBRACKET], post);
    Assoc([LBRACKET], JoinItems(CanonItems(items)), [RBRACKET] + post);
    assert Canon(Arr(items)) + post == [LBRACKET] + body;
    Cut([LBRACKET], body);
    if items == [] {
      assert body == [RBRACKET] + post;
      Cut([RBRACKET], post);
    } else {
      JoinItemsHead(items, [RBRACKET] + post);
      ItemsThen(mode, room, items, post);
    }
  }

  lemma JoinItemsHead(items: seq<Doc>, rest: Bytes)
    requires items != []
    ensures var t := JoinItems(CanonItems(items)) + rest;
            StartsSolid(t) && t[0] != RBRACKET
  {
    CanonHead(items[0]);
  }

  lemma {:induction false} ItemsThen(mode: Mode, room: nat, ds: seq<Doc>, post: Bytes)
    requires mode.limit >= MAX_EXPONENT && ds != []
    requires WellFormedItems(mode.rules, room, ds)
    ensures ReadsItems(mode, room, JoinItems(CanonItems(ds)) + ([RBRACKET] + post), DenoteItems(ds), post)
    decreases room, |ds| + 2
  {
    var head, rest := Canon(ds[0]), CanonItems(ds[1..]);
    var tail := [RBRACKET] + post;
    var after := if |ds| == 1 then tail else [COMMA] + (JoinItems(rest) + tail);
    var t := JoinItems(CanonItems(ds)) + tail;
    assert CanonItems(ds)[1..] == rest;
    if |ds| > 1 {
      Assoc(head, [COMMA] + JoinItems(rest), tail);
      Assoc([COMMA], JoinItems(rest), tail);
      ItemsThen(mode, room, ds[1..], post);
    }
    assert t == head + after;
    ValueThen(mode, room, ds[0], after);
    CanonHead(ds[0]);
    assert t[0] == head[0];
    ItemsStep(mode, room, t, Denote(ds[0]), after, DenoteItems(ds[1..]), post);
  }

  /** One element, then either the bracket or a comma and the rest. */
  lemma ItemsStep(mode: Mode, room: nat, t: Bytes, v: Value, after: Bytes, vs: seq<Value>, post: Bytes)
    requires StartsSolid(t) && Reads(mode, room, t, v, after)
    requires if vs == [] then after == [RBRACKET] + post
             else after != [] && after[0] == COMMA && ReadsItems(mode, room, after[1..], vs, post)
    ensures ReadsItems(mode, room, t, [v] + vs, post)
  {
    assert SkipSpace(t) == t && SkipSpace(after) == after;
    var d := ScanValue(mode, room, t).value.0;
    if vs == [] {
      Cut([RBRACKET], post);
      assert DenoteItems([d]) == [v] + vs;
    } else {
      var more := ScanItems(mode, room, after[1..]).value.0;
      assert ([d] + more)[1..] == more;
      assert DenoteItems([d] + more) == [v] + vs;
    }
  }

  lemma ObjectBody(ms: seq<(Bytes, Doc)>, post: Bytes)
    ensures Canon(Obj(ms)) + post == [LBRACE] + (JoinMembers(CanonMembers(Sort(ms))) + ([RBRACE] + post))
  {
    var joined := JoinMembers(CanonMembers(Sort(ms)));
    ObjectTextSorted(ms);
    Assoc([LBRACE] + joined, [RBRACE], post);
    Assoc([LBRACE], joined, [RBRACE] + post);
  }

  lemma ObjectDispatch(mode: Mode, room: nat, body: Bytes)
    ensures ScanValue(mode, room + 1, [LBRACE] + body) == ScanObject(mode, room, body)
  {
    Cut([LBRACE], body);
  }

  lemma {:induction false} ObjectThen(mode: Mode, room: nat, ms: seq<(Bytes, Doc)>, post: Bytes)
    requires mode.limit >= MAX_EXPONENT
    requires DistinctKeys(ms) && WellFormedMembers(mode.rules, room, ms)
    ensures Reads(mode, room + 1, Canon(Obj(ms)) + post, Denote(Obj(ms)), post)
    decreases room, |ms| + 3
  {
    var sorted := Sort(ms);
    var body := JoinMembers(CanonMembers(sorted)) + ([RBRACE] + post);
    ObjectBody(ms, post);
    ObjectDispatch(mode, room, body);
    if ms == [] {
      assert body == [RBRACE] + post;
      Cut([RBRACE], post);
    } else {
      SortedWellFormed(mode.rules, room, ms);
      SortedDenotes(ms);
      JoinMembersHead(sorted, [RBRACE] + post);
      MembersThen(mode, room, {}, sorted, post);
    }
  }

  lemma JoinMembersHead(ms: seq<(Bytes, Doc)>, rest: Bytes)
    requires ms != []
    ensures var t := JoinMembers(CanonMembers(ms)) + rest;
            t != [] && t[0] == QUOTE
  {
  }

  /** The text after the first member: the closing text, or a comma and the
      other members. */
  function AfterFirst(ms: seq<(Bytes, Doc)>, tail: Bytes): Bytes
    requires ms != []
  {
    if |ms| == 1 then tail else [COMMA] + (JoinMembers(CanonMembers(ms[1..])) + tail)
  }

  lemma FirstMember(ms: seq<(Bytes, Doc)>, tail: Bytes)
    requires ms != []
    ensures JoinMembers(CanonMembers(ms)) + tail == MemberText((ms[0].0, Canon(ms[0].1))) + AfterFirst(ms, tail)
  {
    var rest := CanonMembers(ms[1..]);
    assert CanonMembers(ms)[1..] == rest;
    if |ms| > 1 {
      Assoc(MemberText((ms[0].0, Canon(ms[0].1))), [COMMA] + JoinMembers(rest), tail);
      Assoc([COMMA], JoinMembers(rest), tail);
    }
  }

  lemma {:induction false} MembersThen(mode: Mode, room: nat, seen: set<Bytes>, ms: seq<(Bytes, Doc)>, post: Bytes)
    requires mode.limit >= MAX_EXPONENT && ms != []
    requires WellFormedMembers(mode.rules, room, ms) && DistinctKeys(ms)
    requires forall k :: k in seen ==> !HasKey(ms, k)
    ensures ReadsMembers(mode, room, seen, JoinMembers(CanonMembers(ms)) + ([RBRACE] + post), DenoteMembers(ms), post)
    decreases room, |ms| + 2
  {
    var key, head, tail := ms[0].0, Canon(ms[0].1), [RBRACE] + post;
    var after := AfterFirst(ms, tail);
    FirstMember(ms, tail);
    KeySplit(ms);
    if |ms| > 1 {
      MembersThen(mode, room, seen + {key}, ms[1..], post);
    }
    CanonHead(ms[0].1);
    KeyThen(seen, key, head, after);
    ValueThen(mode, room, ms[0].1, after);
    MembersStep(mode, room, seen, MemberText((key, head)) + after, key, head + after, Denote(ms[0].1), after,
                DenoteMembers(ms[1..]), post);
  }

  /** A member's text reads as its key, then its value's text. */
  lemma KeyThen(seen: set<Bytes>, key: Bytes, head: Bytes, after: Bytes)
    requires Valid(key) && key !in seen && StartsSolid(head + after)
    ensures ScanKey(seen, MemberText((key, head)) + after) == Some((key, head + after))
  {
    var rest := [COLON] + (head + after);
    Assoc(Quoted(key), [COLON] + head, after);
    Assoc([COLON], head, after);
    QuotedThen(key, rest);
    Cut([QUOTE], EscapedAll(key) + ([QUOTE] + rest));
    Cut([COLON], head + after);
  }

  lemma MembersStep(mode: Mode, room: nat, seen: set<Bytes>, t: Bytes, key: Bytes, u: Bytes, v: Value, after: Bytes,
                    vs: seq<(Bytes, Value)>, post: Bytes)
    requires ScanKey(seen, t) == Some((key, u)) && Reads(mode, room, u, v, after)
    requires if vs == [] then after == [RBRACE] + post
             else after != [] && after[0] == COMMA && ReadsMembers(mode, room, seen + {key}, after[1..], vs, post)
    ensures ReadsMembers(mode, room, seen, t, [(key, v)] + vs, post)
  {
    assert SkipSpace(after) == after;
    var d := ScanValue(mode, room, u).value.0;
    if vs == [] {
      Cut([RBRACE], post);
      assert DenoteMembers([(key, d)]) == [(key, v)] + vs;
    } else {
      var more := ScanMembers(mode, room, seen + {key}, after[1..]).value.0;
      assert ([(key, d)] + more)[1..] == more;
      assert DenoteMembers([(key, d)] + more) == [(key, v)] + vs;
    }
  }

  // ---- the theorems ----

  /** The canonical text of an accepted text parses, under the same rules and
      depth bound, to a document of the same value. */
  lemma CanonParses(rules: Rules, d: Doc)
    requires WellFormed(rules, MAX_DEPTH, d)
    ensures Parse(rules, Canon(d)).Some? && Denote(Parse(rules, Canon(d)).value) == Denote(d)
  {
    var t := Canon(d);
    ValueThen(Mode(ExponentLimit(|t|), rules), MAX_DEPTH, d, []);
    assert t + [] == t;
    CanonHead(d);
  }

  /** Canonicalisation is a fixed point: every canonical text is accepted again
      and comes back unchanged. */
  lemma CanonicalizeFixedPoint(rules: Rules, raw: Bytes)
    requires Canonicalize(rules, raw).Some?
    ensures Canonicalize(rules, Canonicalize(rules, raw).value) == Canonicalize(rules, raw)
  {
    var d := Parse(rules, raw).value;
    ParseWellFormed(rules, raw);
    CanonParses(rules, d);
    ParseWellFormed(rules, Canon(d));
    SameValueSameText(rules, MAX_DEPTH, Parse(rules, Canon(d)).value, d);
  }

  /** Two accepted texts canonicalise to the same bytes exactly when they
      denote the same value. */
  lemma CanonicalizeIsEquality(rules: Rules, a: Bytes, b: Bytes)
    requires Parse(rules, a).Some? && Parse(rules, b).Some?
    ensures Canonicalize(rules, a) == Canonicalize(rules, b)
            <==> Denote(Parse(rules, a).value) == Denote(Parse(rules, b).value)
  {
    var x, y := Parse(rules, a).value, Parse(rules, b).value;
    ParseWellFormed(rules, a);
    ParseWellFormed(rules, b);
    CanonParses(rules, x);
    CanonParses(rules, y);
    if Denote(x) == Denote(y) {
      SameValueSameText(rules, MAX_DEPTH, x, y);
    }
  }
}
