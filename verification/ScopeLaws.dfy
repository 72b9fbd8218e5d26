/** The laws of canonical URLs in terms of what normalisation would do, and the
    normal form of a Scope URL written out. */
module ScopeLaws {
  import opened Utf8
  import opened Wrappers
  import opened Strings
  import opened Seqs
  import opened Splitting
  import opened Segments
  import opened JsonFields
  import opened UrlText
  import opened DotSegments
  import opened Escapes
  import opened Hosts
  import opened Ports
  import opened ScopeUrls

  // ---- a path the URL parser leaves alone ----

  /** Escapes do not reach across a slash. */
  lemma {:induction false} EscapesApart(a: Bytes, rest: Bytes)
    ensures CanonicalEscapes(a + ([SLASH] + rest)) <==> CanonicalEscapes(a) && CanonicalEscapes(rest)
    decreases |a|
  {
    hide Respelled, HexValue;
    var t := a + ([SLASH] + rest);
    if a == [] {
      assert t == [SLASH] + rest;
      CanonicalStep(SLASH, rest);
    } else if a[0] != PERCENT {
      EscapesApart(a[1..], rest);
      assert t[0] == a[0] && t[1..] == a[1..] + ([SLASH] + rest);
    } else {
      EscapeApart(a, rest);
      if |a| >= 3 {
        EscapesApart(a[3..], rest);
        assert t[3..] == a[3..] + ([SLASH] + rest) && t[..3] == a[..3];
      }
    }
  }

  lemma EscapeApart(a: Bytes, rest: Bytes)
    requires a != [] && a[0] == PERCENT
    ensures EscapeAt(a + ([SLASH] + rest)) == EscapeAt(a)
  {
    var t := a + ([SLASH] + rest);
    assert |a| < 3 ==> t[|a|] == SLASH;
    assert forall i :: 0 <= i < |a| ==> t[i] == a[i];
  }

  ghost predicate AllEscapes(parts: seq<Bytes>) { forall i :: 0 <= i < |parts| ==> CanonicalEscapes(parts[i]) }

  lemma {:induction false} EscapesByPart(parts: seq<Bytes>)
    requires parts != []
    ensures CanonicalEscapes(Join(parts, SLASH)) <==> AllEscapes(parts)
  {
    hide CanonicalEscapes;
    if |parts| > 1 {
      EscapesByPart(parts[1..]);
      EscapesApart(parts[0], Join(parts[1..], SLASH));
      assert forall i :: 0 < i < |parts| ==> parts[1..][i - 1] == parts[i];
    }
  }

  ghost predicate Harmless(t: Bytes) { forall i :: 0 <= i < |t| ==> !IsPathBad(t[i]) }

  ghost predicate AllHarmless(parts: seq<Bytes>) { forall i :: 0 <= i < |parts| ==> Harmless(parts[i]) }

  lemma HarmlessJoined(a: Bytes, rest: Bytes)
    ensures Harmless(a + ([SLASH] + rest)) <==> Harmless(a) && Harmless(rest)
  {
    var t := a + ([SLASH] + rest);
    assert forall i :: 0 <= i < |a| ==> t[i] == a[i];
    assert forall i :: 0 <= i < |rest| ==> t[|a| + 1 + i] == rest[i];
    assert t[|a|] == SLASH;
    forall i | |a| < i < |t| ensures t[i] == rest[i - |a| - 1] {}
  }

  lemma {:induction false} HarmlessByPart(parts: seq<Bytes>)
    requires parts != []
    ensures Harmless(Join(parts, SLASH)) <==> AllHarmless(parts)
  {
    hide Harmless;
    if |parts| > 1 {
      HarmlessByPart(parts[1..]);
      HarmlessJoined(parts[0], Join(parts[1..], SLASH));
      assert forall i :: 0 < i < |parts| ==> parts[1..][i - 1] == parts[i];
    }
  }

  predicate Dotless(parts: seq<Bytes>) { forall i :: 0 <= i < |parts| ==> !IsDots(parts[i]) }

  lemma CleanMeans(parts: seq<Bytes>)
    requires Free(parts, SLASH)
    ensures Clean(parts) <==> Dotless(parts)
  {
    hide IsDots;
  }

  /** A path has no dot segment exactly when removing them changes nothing. */
  lemma DotlessExactly(path: Bytes)
    ensures WithoutDots(path) == path <==> Dotless(Split(path, SLASH))
  {
    hide WithoutDots, Split, Clean, Dotless, Free;
    SplitFree(path, SLASH);
    CleanMeans(Split(path, SLASH));
    if WithoutDots(path) == path { WithoutDotsClean(path); }
    if Dotless(Split(path, SLASH)) { CleanPathKept(path); }
  }

  lemma LeadingPart(path: Bytes)
    requires path != [] && path[0] == SLASH
    ensures Split(path, SLASH) == [[]] + Split(path[1..], SLASH)
  {
    assert path == [] + ([SLASH] + path[1..]);
    SplitFirst([], SLASH, path[1..]);
  }

  lemma EmptyPart()
    ensures CanonicalEscapes([]) && Harmless([]) && !IsDots([])
  {
  }

  /** The URL parser leaves a path alone exactly when its escapes are spelled as
      the normaliser spells them, removing dot segments changes nothing, and no
      character would be escaped. */
  lemma UndisturbedExactly(path: Bytes)
    requires path != [] && path[0] == SLASH
    ensures UndisturbedPath(path)
       <==> CanonicalEscapes(path) && WithoutDots(path) == path && forall i :: 0 <= i < |path| ==> !IsPathBad(path[i])
  {
    hide CanonicalEscapes, WithoutDots, IsDots, Split, Harmless;
    var parts, rest := Split(path, SLASH), Split(path[1..], SLASH);
    LeadingPart(path);
    EmptyPart();
    JoinSplit(path, SLASH);
    EscapesByPart(parts);
    HarmlessByPart(parts);
    DotlessExactly(path);
    assert forall i :: 0 <= i < |rest| ==> parts[i + 1] == rest[i];
    assert forall i :: 0 < i < |parts| ==> parts[i] == rest[i - 1];
    HarmlessMeans(path);
    forall t: Bytes ensures Undisturbed(t) <==> !IsDots(t) && CanonicalEscapes(t) && Harmless(t) { HarmlessMeans(t); }
  }

  lemma HarmlessMeans(t: Bytes)
    ensures Harmless(t) <==> forall i :: 0 <= i < |t| ==> !IsPathBad(t[i])
  {
  }

  // ---- the normal form written out ----

  /** scheme://host, the port when there is one, and the path with a slash at its
      end. */
  function OriginText(o: Origin): Bytes {
    o.scheme + (Text("://") + (o.host + if o.port == [] then [] else Text(":") + o.port))
  }

  function Slashed(path: Bytes): Bytes { if path != [] && path[|path| - 1] == 0x2F then path else path + Text("/") }

  lemma Marks()
    ensures Text("://") == [COLON] + SLASHES && Text(":") == [COLON] && Text("/") == [SLASH]
  {
  }

  lemma RebuiltText(o: Origin, path: Bytes)
    ensures UrlTextOf(Rebuilt(o, Tail(path, false, [], false, []))) == OriginText(o) + Slashed(path)
  {
    hide Text;
    Marks();
    var a := o.host + Marked(o.port != [], COLON, o.port);
    var path' := WithSlash(path);
    assert path' == Slashed(path);
    assert path' + ([] + []) == path';
    Assoc([COLON], SLASHES, a);
    Assoc([COLON], SLASHES + a, path');
    Assoc(SLASHES, a, path');
    Assoc(o.scheme, [COLON] + (SLASHES + a), path');
  }

  /** The parts of a tail cut apart have no marks in the wrong place. */
  lemma TailMarks(t: Bytes)
    ensures var p := SplitTail(t);
            && HASH !in p.path && QUESTION !in p.path && (p.hasQuery ==> HASH !in p.query)
            && (!p.hasQuery ==> p.query == []) && (!p.hasFragment ==> p.fragment == [])
  {
    hide CutFirst;
    var f := CutFirst(t, HASH);
    var q := CutFirst(f.before, QUESTION);
    assert f.before == q.before + Marked(q.found, QUESTION, q.after);
    if q.found { assert forall c :: c in q.after ==> c in f.before; }
    assert forall c :: c in q.before ==> c in f.before;
  }

  /** A tail written out and cut apart again keeps its marks. */
  lemma TailSplits(t: Tail)
    requires HASH !in t.path && QUESTION !in t.path && (t.hasQuery ==> HASH !in t.query)
    requires (!t.hasQuery ==> t.query == []) && (!t.hasFragment ==> t.fragment == [])
    ensures SplitTail(TailText(t)) == t
  {
    hide CutFirst;
    var front := t.path + Marked(t.hasQuery, QUESTION, t.query);
    Assoc(t.path, Marked(t.hasQuery, QUESTION, t.query), Marked(t.hasFragment, HASH, t.fragment));
    assert TailText(t) == front + Marked(t.hasFragment, HASH, t.fragment);
    assert HASH !in front;
    if t.hasFragment {
      CutFirstMarked(front, HASH, t.fragment);
    } else {
      assert front + [] == front;
      CutFirstAbsent(front, HASH);
    }
    if t.hasQuery {
      CutFirstMarked(t.path, QUESTION, t.query);
    } else {
      assert t.path + [] == t.path;
      CutFirstAbsent(t.path, QUESTION);
    }
  }

  /** The rebuilt URL keeps a query or fragment, which no Scope URL may have. */
  lemma MarksKept(parse: AddressParser, s: Bytes, o: Origin)
    requires SplitUrl(s).Some? && OriginOf(parse, SplitUrl(s).value) == Some(o)
    requires PersistedScopeUrl(parse, UrlTextOf(Rebuilt(o, SplitUrl(s).value.tail)))
    ensures !SplitUrl(s).value.tail.hasQuery && !SplitUrl(s).value.tail.hasFragment
  {
    hide SplitUrl, NormalHost, NormalPort, HostText, PortText, TailText, SplitTail, ScopePath, UndisturbedPath, Complete;
    var p := SplitUrl(s).value;
    var r := Rebuilt(o, p.tail);
    NormalHostText(parse, p.authority.host);
    NormalPortText(p.authority.port, o.scheme);
    PathLeads(s);
    RebuiltTail(o, s);
  }

  lemma RebuiltTail(o: Origin, s: Bytes)
    requires SplitUrl(s).Some? && IsWeb(o.scheme) && HostText(o.host) && PortText(o.port)
    ensures var r := Rebuilt(o, SplitUrl(s).value.tail);
            SplitUrl(UrlTextOf(r)) == Some(r)
  {
    hide SplitUrl, SplitAuthority, AuthorityText, HostText, PortText, SplitTail, IsSchemeToken, TailText;
    var p := SplitUrl(s).value;
    var r := Rebuilt(o, p.tail);
    PathLeads(s);
    WebIsLower(o.scheme);
    OriginAuthority(o.host, o.port);
    AuthorityBytes(o.host, o.port);
    var scheme, authority, tail := UrlShape(s);
    TailMarks(tail);
    SlashedMarks(p.tail);
    TailSplits(r.tail);
    TailHead(r.tail);
    SplitJoined(o.scheme, AuthorityText(r.authority), TailText(r.tail));
  }

  lemma SlashedMarks(t: Tail)
    requires HASH !in t.path && QUESTION !in t.path
    ensures HASH !in WithSlash(t.path) && QUESTION !in WithSlash(t.path)
  {
  }

  lemma TailHead(t: Tail)
    requires t.path != [] && t.path[0] == SLASH
    ensures TailText(t) != [] && IsDelimiter(TailText(t)[0])
  {
  }

  /** A Scope URL is accepted exactly without credentials, query and fragment,
      and its normal form is its origin and its path with a slash at the end. */
  lemma NormalFormExactly(parse: AddressParser, s: Bytes, out: Bytes)
    ensures NormalScopeUrl(parse, s) == Some(out)
       <==> && SplitUrl(s).Some?
            && var p := SplitUrl(s).value;
            && !p.authority.hasUserinfo && !p.tail.hasQuery && !p.tail.hasFragment
            && OriginOf(parse, p).Some? && out == OriginText(OriginOf(parse, p).value) + Slashed(p.tail.path)
            && PersistedScopeUrl(parse, out)
  {
    hide OriginOf, PersistedScopeUrl, UrlTextOf, Rebuilt, OriginText, Slashed, SplitAuthority, SplitTail, IsSchemeToken;
    if SplitUrl(s).Some? {
      var p := SplitUrl(s).value;
      if !p.authority.hasUserinfo && OriginOf(parse, p).Some? {
        var o := OriginOf(parse, p).value;
        if PersistedScopeUrl(parse, UrlTextOf(Rebuilt(o, p.tail))) { MarksKept(parse, s, o); }
        if !p.tail.hasQuery && !p.tail.hasFragment {
          PlainTail(s);
          RebuiltText(o, p.tail.path);
        }
      }
    }
  }

  lemma PlainTail(s: Bytes)
    requires SplitUrl(s).Some? && !SplitUrl(s).value.tail.hasQuery && !SplitUrl(s).value.tail.hasFragment
    ensures SplitUrl(s).value.tail == Tail(SplitUrl(s).value.tail.path, false, [], false, [])
  {
    hide SplitUrl, SplitAuthority, SplitTail, IsSchemeToken;
    var scheme, authority, tail := UrlShape(s);
    TailMarks(tail);
  }

  // ---- canonical URLs written out ----

  /** A URL is canonical exactly when its bytes are printable, its escapes
      complete, and it is its own origin, an undisturbed path and a query that
      would not be escaped, without credentials and fragment. */
  lemma CanonicalExactly(parse: AddressParser, s: Bytes)
    ensures CanonicalUrl(parse, s)
       <==> && (forall i :: 0 <= i < |s| ==> IsUrlByte(s[i])) && Complete(s) && SplitUrl(s).Some?
            && var p := SplitUrl(s).value;
            && !p.authority.hasUserinfo && !p.tail.hasFragment && UndisturbedPath(p.tail.path)
            && OriginOf(parse, p).Some?
            && s == OriginText(OriginOf(parse, p).value) + Behind(p.tail)
            && (p.tail.hasQuery ==> forall i :: 0 <= i < |p.tail.query| ==> !IsQueryBad(p.tail.query[i]))
  {
    hide UndisturbedPath, Complete, OriginOf, SplitAuthority, SplitTail, IsSchemeToken, OriginText, Behind;
    if SplitUrl(s).Some? && OriginOf(parse, SplitUrl(s).value).Some? && !SplitUrl(s).value.authority.hasUserinfo
       && !SplitUrl(s).value.tail.hasFragment {
      SpelledExactly(parse, s);
    }
  }

  /** The text of an origin before a tail. */
  lemma OriginThen(o: Origin, tail: Bytes)
    ensures OriginText(o) + tail
         == o.scheme + ([COLON] + (SLASHES + (AuthorityText(Authority(false, o.host, o.port != [], o.port)) + tail)))
  {
    hide Text;
    Marks();
    var a := o.host + Marked(o.port != [], COLON, o.port);
    Assoc([COLON], SLASHES, a);
    Assoc([COLON], SLASHES + a, tail);
    Assoc(SLASHES, a, tail);
    Assoc(o.scheme, [COLON] + (SLASHES + a), tail);
  }

  lemma OriginSplits(o: Origin, tail: Bytes)
    requires IsWeb(o.scheme) && HostText(o.host) && PortText(o.port) && (tail == [] || IsDelimiter(tail[0]))
    ensures SplitUrl(OriginText(o) + tail)
         == Some(UrlParts(o.scheme, Authority(false, o.host, o.port != [], o.port), SplitTail(tail)))
  {
    hide SplitUrl, SplitAuthority, AuthorityText, SplitTail, IsSchemeToken, HostText, PortText, OriginText, Text;
    WebIsLower(o.scheme);
    OriginAuthority(o.host, o.port);
    AuthorityBytes(o.host, o.port);
    OriginThen(o, tail);
    SplitJoined(o.scheme, AuthorityText(Authority(false, o.host, o.port != [], o.port)), tail);
  }

  /** Path and query, as they are spelled. */
  function Behind(t: Tail): Bytes { t.path + if t.hasQuery then Text("?") + t.query else [] }

  lemma BehindIs(s: Bytes)
    requires SplitUrl(s).Some? && !SplitUrl(s).value.tail.hasFragment
    ensures var t := SplitUrl(s).value.tail;
            Behind(t) == TailText(t) && (Behind(t) == [] || IsDelimiter(Behind(t)[0]))
  {
    hide SplitUrl;
    PathLeads(s);
    assert Text("?") == [QUESTION];
    var t := SplitUrl(s).value.tail;
    assert Marked(t.hasQuery, QUESTION, t.query) + [] == Marked(t.hasQuery, QUESTION, t.query);
  }

  /** The spelling is the origin's exactly when its text is. */
  lemma SpelledExactly(parse: AddressParser, s: Bytes)
    requires SplitUrl(s).Some? && !SplitUrl(s).value.authority.hasUserinfo && !SplitUrl(s).value.tail.hasFragment
    requires OriginOf(parse, SplitUrl(s).value).Some?
    ensures IsWeb(SplitUrl(s).value.scheme) && SpelledAsOrigin(SplitUrl(s).value.authority, OriginOf(parse, SplitUrl(s).value).value)
       <==> s == OriginText(OriginOf(parse, SplitUrl(s).value).value) + Behind(SplitUrl(s).value.tail)
  {
    hide SplitUrl, OriginText, Behind, NormalHost, NormalPort, HostText, PortText, SplitTail, AuthorityText, TailText, Lower;
    var p := SplitUrl(s).value;
    var o := OriginOf(parse, p).value;
    NormalHostText(parse, p.authority.host);
    NormalPortText(p.authority.port, o.scheme);
    BehindIs(s);
    OriginSplits(o, Behind(p.tail));
    if IsWeb(p.scheme) && SpelledAsOrigin(p.authority, o) {
      WebIsLower(p.scheme);
      if !p.authority.hasPort { NoPortKept(s, o.scheme); }
      UrlRejoins(s);
      OriginThen(o, Behind(p.tail));
    }
  }

  lemma NoPortKept(s: Bytes, scheme: Bytes)
    requires SplitUrl(s).Some? && !SplitUrl(s).value.authority.hasPort
    ensures SplitUrl(s).value.authority.port == [] && NormalPort([], scheme) == Some([])
  {
    hide SplitUrl;
    NoPortText(s);
  }
}
