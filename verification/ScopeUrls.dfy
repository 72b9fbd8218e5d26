/** Origins, the canonical http(s) URL laws, and the normalisation a configured
    Scope URL goes through. */
module ScopeUrls {
  import opened Utf8
  import opened Wrappers
  import opened Seqs
  import opened Splitting
  import opened Segments
  import opened Numbers
  import opened NumberText
  import opened UrlText
  import opened DotSegments
  import opened Escapes
  import opened Ipv4
  import opened Hosts
  import opened Ports

  /** /local-test/ */
  const LOCAL_TEST: Bytes := [0x2F, 0x6C, 0x6F, 0x63, 0x61, 0x6C, 0x2D, 0x74, 0x65, 0x73, 0x74, 0x2F]

  // ---- origins ----

  datatype Origin = Origin(scheme: Bytes, host: Bytes, port: Bytes)

  predicate IsWeb(scheme: Bytes) { scheme == HTTP || scheme == HTTPS }

  function OriginOf(parse: AddressParser, p: UrlParts): Option<Origin> {
    var scheme := Lower(p.scheme);
    if !IsWeb(scheme) then None
    else
      var host :- NormalHost(parse, p.authority.host);
      var port :- NormalPort(p.authority.port, scheme);
      Some(Origin(scheme, host, port))
  }

  // ---- the URL laws ----

  /** Printable ASCII without space and backslash. */
  predicate IsUrlByte(c: byte) { 0x20 < c < 0x7F && c != BACKSLASH }

  predicate IsPathBad(c: byte) { c == QUOTE || c == 0x3C || c == 0x3E || c == 0x60 || c == 0x7B || c == 0x7D }

  predicate IsQueryBad(c: byte) { c == QUOTE || c == 0x3C || c == 0x3E || c == 0x27 }

  /** A path segment the URL parser would leave alone. */
  predicate Undisturbed(segment: Bytes) {
    && !IsDots(segment) && CanonicalEscapes(segment)
    && forall i :: 0 <= i < |segment| ==> !IsPathBad(segment[i])
  }

  predicate UndisturbedPath(path: Bytes) {
    path != [] && forall i :: 0 <= i < |Split(path[1..], SLASH)| ==> Undisturbed(Split(path[1..], SLASH)[i])
  }

  /** The spelled authority is the origin already. */
  predicate SpelledAsOrigin(a: Authority, o: Origin) {
    && o.host == a.host
    && (a.hasPort ==> a.port != [] && o.port != [] && o.port == a.port)
  }

  predicate CanonicalParts(parse: AddressParser, p: UrlParts) {
    && IsWeb(p.scheme) && !p.authority.hasUserinfo && !p.tail.hasFragment
    && OriginOf(parse, p).Some? && SpelledAsOrigin(p.authority, OriginOf(parse, p).value)
    && UndisturbedPath(p.tail.path)
    && (p.tail.hasQuery ==> forall i :: 0 <= i < |p.tail.query| ==> !IsQueryBad(p.tail.query[i]))
  }

  /** What Scope URLs and Type URLs have in common. */
  predicate CanonicalUrl(parse: AddressParser, s: Bytes) {
    && (forall i :: 0 <= i < |s| ==> IsUrlByte(s[i]))
    && SplitUrl(s).Some? && CanonicalParts(parse, SplitUrl(s).value) && Complete(s)
  }

  /** A Scope URL's path: canonical segments between slashes. */
  predicate ScopePath(path: Bytes) {
    var parts := Split(path, SLASH);
    && path != [] && path[|path| - 1] == SLASH
    && forall i :: 1 <= i < |parts| - 1 ==> CanonicalSegment(parts[i])
  }

  predicate ScopeUrl(parse: AddressParser, s: Bytes) {
    CanonicalUrl(parse, s) && var t := SplitUrl(s).value.tail; !t.hasQuery && ScopePath(t.path)
  }

  predicate PersistedScopeUrl(parse: AddressParser, s: Bytes) {
    ScopeUrl(parse, s) && !(LOCAL_TEST <= SplitUrl(s).value.tail.path)
  }

  // ---- normalisation ----

  function WithSlash(path: Bytes): (r: Bytes)
    ensures r != [] && r[|r| - 1] == SLASH
  {
    if path == [] then [SLASH] else if path[|path| - 1] == SLASH then path else path + [SLASH]
  }

  /** A URL spelled with its origin, and a path that ends in a slash. */
  function Rebuilt(o: Origin, t: Tail): UrlParts {
    UrlParts(o.scheme, Authority(false, o.host, o.port != [], o.port), t.(path := WithSlash(t.path)))
  }

  function NormalScopeUrl(parse: AddressParser, s: Bytes): Option<Bytes> {
    var p :- SplitUrl(s);
    if p.authority.hasUserinfo then None
    else
      var o :- OriginOf(parse, p);
      var out := UrlTextOf(Rebuilt(o, p.tail));
      if PersistedScopeUrl(parse, out) then Some(out) else None
  }

  // ---- accepted URLs are their own normal form ----

  lemma WebIsLower(scheme: Bytes)
    requires IsWeb(scheme)
    ensures Lower(scheme) == scheme && IsSchemeToken(scheme) && COLON !in scheme
  {
  }

  lemma NoPortText(s: Bytes)
    requires SplitUrl(s).Some? && !SplitUrl(s).value.authority.hasPort
    ensures SplitUrl(s).value.authority.port == []
  {
    hide CutFirst, CutLast, IsSchemeToken, SplitTail;
  }

  /** The origin of canonical parts is their spelling. */
  lemma CanonicalOrigin(parse: AddressParser, p: UrlParts)
    requires CanonicalParts(parse, p) && (!p.authority.hasPort ==> p.authority.port == [])
    ensures OriginOf(parse, p) == Some(Origin(p.scheme, p.authority.host, p.authority.port))
    ensures p.authority == Authority(false, p.authority.host, p.authority.port != [], p.authority.port)
  {
    hide NormalHost, UndisturbedPath;
    WebIsLower(p.scheme);
  }

  /** Every URL the store may persist normalises to itself. */
  lemma PersistedIsNormal(parse: AddressParser, s: Bytes)
    requires PersistedScopeUrl(parse, s)
    ensures NormalScopeUrl(parse, s) == Some(s)
  {
    hide SplitUrl, OriginOf, UrlTextOf, UndisturbedPath;
    var p := SplitUrl(s).value;
    if !p.authority.hasPort { NoPortText(s); }
    CanonicalOrigin(parse, p);
    UrlRejoins(s);
    assert Rebuilt(OriginOf(parse, p).value, p.tail) == p;
  }

  /** Normalising twice is normalising once. */
  lemma NormalisedOnce(parse: AddressParser, s: Bytes)
    requires NormalScopeUrl(parse, s).Some?
    ensures NormalScopeUrl(parse, NormalScopeUrl(parse, s).value) == NormalScopeUrl(parse, s)
  {
    hide PersistedScopeUrl, SplitUrl, OriginOf, UrlTextOf;
    PersistedIsNormal(parse, NormalScopeUrl(parse, s).value);
  }

  // ---- the origin is kept ----

  predicate PortText(port: Bytes) { AllDigits(port) }

  lemma NormalPortText(port: Bytes, scheme: Bytes)
    requires NormalPort(port, scheme).Some?
    ensures PortText(NormalPort(port, scheme).value)
  {
    hide DecimalText;
  }

  lemma NameAuthority(host: Bytes, port: Bytes)
    requires host != [] && NameText(host) && PortText(port)
    ensures var a := Authority(false, host, port != [], port);
            SplitAuthority(AuthorityText(a)) == Some(a)
  {
    hide CutLast;
    var text := host + Marked(port != [], COLON, port);
    assert AT !in text;
    CutLastAbsent(text, AT);
    assert text[0] == host[0] != LBRACKET;
    if port != [] {
      CutLastMarked(host, COLON, port);
    } else {
      assert text == host;
      CutLastAbsent(host, COLON);
    }
  }

  lemma BracketedAuthority(host: Bytes, port: Bytes)
    requires |host| >= 2 && host[0] == LBRACKET && host[|host| - 1] == RBRACKET && AddressText(host[1..|host| - 1])
    requires PortText(port)
    ensures var a := Authority(false, host, port != [], port);
            SplitAuthority(AuthorityText(a)) == Some(a)
  {
    hide CutLast, CutFirst;
    var front := host[..|host| - 1];
    var inner := host[1..|host| - 1];
    var rest := Marked(port != [], COLON, port);
    var text := host + rest;
    assert front == [LBRACKET] + inner;
    assert host == front + [RBRACKET];
    assert RBRACKET !in front && AT !in host && AT !in rest;
    assert AT !in text;
    CutLastAbsent(text, AT);
    Assoc(front, [RBRACKET], rest);
    CutFirstMarked(front, RBRACKET, rest);
    assert port != [] ==> rest[1..] == port;
  }

  lemma OriginAuthority(host: Bytes, port: Bytes)
    requires HostText(host) && PortText(port)
    ensures var a := Authority(false, host, port != [], port);
            SplitAuthority(AuthorityText(a)) == Some(a)
  {
    hide NameText, AddressText, SplitAuthority;
    if host != [] && NameText(host) {
      NameAuthority(host, port);
    } else {
      BracketedAuthority(host, port);
    }
  }

  lemma AuthorityBytes(host: Bytes, port: Bytes)
    requires HostText(host) && PortText(port)
    ensures var t := AuthorityText(Authority(false, host, port != [], port));
            forall i :: 0 <= i < |t| ==> !IsDelimiter(t[i])
  {
    HostBytes(host);
    var rest := Marked(port != [], COLON, port);
    assert forall i :: 0 <= i < |rest| ==> !IsDelimiter(rest[i]);
  }

  lemma HostBytes(host: Bytes)
    requires HostText(host)
    ensures forall i :: 0 <= i < |host| ==> !IsDelimiter(host[i])
  {
    if !NameText(host) {
      var inner := host[1..|host| - 1];
      assert forall i :: 0 < i < |host| - 1 ==> host[i] == inner[i - 1];
    }
  }

  /** A URL put together from an origin splits into that origin's parts. */
  lemma RebuiltSplits(o: Origin, t: Tail)
    requires IsWeb(o.scheme) && HostText(o.host) && PortText(o.port)
    requires t.path == [] || t.path[0] == SLASH
    ensures var r := SplitUrl(UrlTextOf(Rebuilt(o, t)));
            r.Some? && r.value.scheme == o.scheme && r.value.authority == Authority(false, o.host, o.port != [], o.port)
  {
    hide SplitAuthority, AuthorityText, IsSchemeToken, SplitUrl, HostText, PortText, SplitTail;
    var r := Rebuilt(o, t);
    WebIsLower(o.scheme);
    OriginAuthority(o.host, o.port);
    AuthorityBytes(o.host, o.port);
    assert TailText(r.tail)[0] == SLASH;
    SplitJoined(o.scheme, AuthorityText(r.authority), TailText(r.tail));
  }

  lemma PathLeads(s: Bytes)
    requires SplitUrl(s).Some?
    ensures var path := SplitUrl(s).value.tail.path; path == [] || path[0] == SLASH
  {
    hide SplitAuthority, IsSchemeToken;
    var rest := CutFirst(s, COLON).after[2..];
    TailLeads(rest[AuthorityEnd(rest)..]);
  }

  lemma TailLeads(t: Bytes)
    requires t == [] || IsDelimiter(t[0])
    ensures SplitTail(t).path == [] || SplitTail(t).path[0] == SLASH
  {
    hide CutFirst, Marked;
    var f := CutFirst(t, HASH);
    var q := CutFirst(f.before, QUESTION);
    assert q.before != [] ==> f.before[0] == q.before[0] && t[0] == q.before[0];
    assert q.before != [] ==> q.before[0] in f.before && q.before[0] in q.before;
  }

  /** Normalisation keeps the origin, whatever spelling it came in. */
  lemma NormalisedKeepsOrigin(parse: AddressParser, s: Bytes)
    requires NormalScopeUrl(parse, s).Some?
    ensures var out := NormalScopeUrl(parse, s).value;
            && SplitUrl(out).Some?
            && OriginOf(parse, SplitUrl(out).value) == OriginOf(parse, SplitUrl(s).value)
  {
    hide SplitUrl, UrlTextOf, UndisturbedPath, NormalHost, NormalPort, HostText, PortText;
    var p := SplitUrl(s).value;
    var o := OriginOf(parse, p).value;
    var out := NormalScopeUrl(parse, s).value;
    NormalHostText(parse, p.authority.host);
    NormalPortText(p.authority.port, o.scheme);
    PathLeads(s);
    RebuiltSplits(o, p.tail);
    CanonicalOrigin(parse, SplitUrl(out).value);
  }

  // ---- the laws admit something ----

  lemma {:induction false} NoPercentComplete(t: Bytes)
    requires PERCENT !in t
    ensures Complete(t)
  {
    if t != [] {
      assert t == [t[0]] + t[1..];
      NoPercentComplete(t[1..]);
    }
  }

  lemma RootPath()
    ensures SplitTail([SLASH]) == Tail([SLASH], false, [], false, []) && UndisturbedPath([SLASH]) && ScopePath([SLASH])
  {
    assert [SLASH][1..] == [];
    assert Split([], SLASH) == [[]];
    assert [SLASH] == [] + ([SLASH] + []);
    SplitFirst([], SLASH, []);
    CutFirstAbsent([SLASH], HASH);
    CutFirstAbsent([SLASH], QUESTION);
  }

  function RootUrl(host: Bytes): Bytes { HTTP + ([COLON] + (SLASHES + (host + [SLASH]))) }

  lemma RootUrlBytes(host: Bytes)
    requires NameText(host)
    ensures PERCENT !in RootUrl(host) && forall i :: 0 <= i < |RootUrl(host)| ==> IsUrlByte(RootUrl(host)[i])
  {
    assert forall c :: c in RootUrl(host) ==> c in HTTP || c == COLON || c in SLASHES || c in host || c == SLASH;
  }

  /** The root URL of every registered name is a Scope URL that may be
      persisted. */
  lemma RegisteredRoot(parse: AddressParser, host: Bytes)
    requires RegisteredName(host) && !EndsInNumber(host)
    ensures PersistedScopeUrl(parse, RootUrl(host))
  {
    hide RegisteredName, EndsInNumber, NameText, UndisturbedPath, ScopePath, SplitTail, SplitUrl, Complete, RootUrl, NormalHost;
    var s := RootUrl(host);
    RegisteredText(host);
    RootUrlBytes(host);
    NoPercentComplete(s);
    RootPath();
    RootSplits(host);
    NameNormal(parse, host);
    WebIsLower(HTTP);
  }

  lemma RootSplits(host: Bytes)
    requires host != [] && NameText(host)
    ensures SplitUrl(RootUrl(host)) == Some(UrlParts(HTTP, Authority(false, host, false, []), SplitTail([SLASH])))
  {
    hide NameText, SplitUrl, SplitTail, SplitAuthority, AuthorityText;
    WebIsLower(HTTP);
    NameAuthority(host, []);
    BareAuthority(host);
    HostBytes(host);
    SplitJoined(HTTP, host, [SLASH]);
  }

  lemma BareAuthority(host: Bytes)
    ensures AuthorityText(Authority(false, host, false, [])) == host
  {
  }
}
