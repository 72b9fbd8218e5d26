/** A scheme's own port: which it is, and that spelling it changes no Scope and
    no reference. */
module DefaultPorts {
  import opened Utf8
  import opened Wrappers
  import opened Seqs
  import opened Splitting
  import opened Numbers
  import opened NumberText
  import opened Segments
  import opened ResourceIds
  import opened JsonFields
  import opened UrlText
  import opened Escapes
  import opened Hosts
  import opened Ports
  import opened ScopeUrls
  import opened References

  /** Digits of value 443 under https, or of value 80 under http. */
  predicate SpellsDefault(port: Bytes, scheme: Bytes) {
    && port != [] && AllDigits(port)
    && ((scheme == Text("https") && NatOf(port) == 443) || (scheme == Text("http") && NatOf(port) == 80))
  }

  lemma Schemes()
    ensures HTTP == Text("http") && HTTPS == Text("https") && Text("http") != Text("https")
  {
    assert |Text("http")| == 4;
  }

  lemma DefaultTexts()
    ensures DecimalText(443) == PORT_HTTPS && DecimalText(80) == PORT_HTTP
  {
    assert DecimalText(4) == [0x34] && DecimalText(44) == [0x34, 0x34] && DecimalText(8) == [0x38];
  }

  /** The ports that are no port at all. */
  lemma DroppedExactly(port: Bytes, scheme: Bytes)
    requires scheme == Text("http") || scheme == Text("https")
    ensures NormalPort(port, scheme) == Some([]) <==> port == [] || SpellsDefault(port, scheme)
  {
    hide DecimalText, NatOf, Text;
    Schemes();
    DefaultTexts();
    NatOfDecimalText(443);
    NatOfDecimalText(80);
    if port != [] && AllDigits(port) {
      NatOfDecimalText(NatOf(port));
      TextNonempty(NatOf(port));
    }
  }

  lemma TextNonempty(n: nat)
    ensures DecimalText(n) != []
  {
  }

  /** A port is refused exactly when it is spelled and is not digits of a number
      up to 65535; any other number is kept in decimal. */
  lemma PortExactly(port: Bytes, scheme: Bytes)
    requires scheme == Text("http") || scheme == Text("https")
    ensures NormalPort(port, scheme) == None <==> port != [] && !(AllDigits(port) && NatOf(port) <= 65535)
    ensures port != [] && AllDigits(port) && NatOf(port) <= 65535 && !SpellsDefault(port, scheme)
            ==> NormalPort(port, scheme) == Some(DecimalText(NatOf(port)))
  {
    hide DecimalText, NatOf, Text;
    DroppedExactly(port, scheme);
  }

  // ---- Scope URLs ----

  /** The authority without its port. */
  function Portless(a: Authority): Authority { Authority(a.hasUserinfo, a.host, false, []) }

  /** A host text that does not contain a port of its own. */
  predicate PlainHost(host: Bytes) { COLON !in host || (host != [] && host[0] == LBRACKET) }

  lemma HostAlone(t: Bytes)
    requires SplitAuthority(t).Some? && !SplitAuthority(t).value.hasUserinfo && PlainHost(SplitAuthority(t).value.host)
    ensures var a := SplitAuthority(t).value; SplitAuthority(a.host) == Some(Portless(a)) && a.host <= t
  {
    hide CutFirst, CutLast;
    NoUserinfo(t);
    AuthorityRejoins(t);
    var host := SplitAuthority(t).value.host;
    assert AT !in host;
    CutLastAbsent(host, AT);
    if t != [] && t[0] == LBRACKET {
      var c := CutFirst(t, RBRACKET);
      CutFirstMarked(c.before, RBRACKET, []);
      assert host == c.before + ([RBRACKET] + []);
      assert host[0] == t[0];
    } else {
      assert host != [] ==> host[0] == t[0];
      CutLastAbsent(host, COLON);
    }
  }

  /** The URL with its port left out. */
  function WithoutPort(p: UrlParts): Bytes { UrlTextOf(p.(authority := Portless(p.authority))) }

  lemma WithoutPortSplits(s: Bytes)
    requires SplitUrl(s).Some? && !SplitUrl(s).value.authority.hasUserinfo && PlainHost(SplitUrl(s).value.authority.host)
    ensures var p := SplitUrl(s).value; SplitUrl(WithoutPort(p)) == Some(p.(authority := Portless(p.authority)))
  {
    hide SplitUrl, SplitAuthority, SplitTail, TailText, IsSchemeToken;
    var p := SplitUrl(s).value;
    var scheme, authority, tail := UrlShape(s);
    HostAlone(authority);
    TailRejoins(tail);
    BareHost(p.authority.host);
    SplitJoined(scheme, p.authority.host, tail);
  }

  lemma BareHost(host: Bytes)
    ensures forall user :: AuthorityText(Authority(user, host, false, [])) == host
  {
  }

  /** A URL that spells its scheme's port normalises as the one without it. */
  lemma DefaultPortNormal(parse: AddressParser, s: Bytes)
    requires SplitUrl(s).Some? && !SplitUrl(s).value.authority.hasUserinfo && PlainHost(SplitUrl(s).value.authority.host)
    requires SpellsDefault(SplitUrl(s).value.authority.port, Lower(SplitUrl(s).value.scheme))
    ensures NormalScopeUrl(parse, s) == NormalScopeUrl(parse, WithoutPort(SplitUrl(s).value))
  {
    hide SplitUrl, UrlTextOf, PersistedScopeUrl, NormalHost, NormalPort, Lower, SpellsDefault, Text;
    var p := SplitUrl(s).value;
    WithoutPortSplits(s);
    OneIsWeb(p.authority.port, Lower(p.scheme));
    DroppedExactly(p.authority.port, Lower(p.scheme));
    DroppedExactly([], Lower(p.scheme));
  }

  lemma OneIsWeb(port: Bytes, scheme: Bytes)
    requires SpellsDefault(port, scheme)
    ensures IsWeb(scheme) && (scheme == Text("http") || scheme == Text("https")) && port != [] && PortText(port)
  {
    hide NatOf, Text;
    Schemes();
  }

  // ---- references ----

  /** The Scope's URL with this port in it. */
  function WithPort(p: UrlParts, port: Bytes): UrlParts { p.(authority := Authority(false, p.authority.host, true, port)) }

  lemma WithPortSplits(parse: AddressParser, p: UrlParts, port: Bytes)
    requires CanonicalParts(parse, p) && PortText(port) && port != [] && !p.tail.hasQuery
    requires p.tail.path[0] == SLASH && p.tail == SplitTail(p.tail.path)
    ensures SplitUrl(UrlTextOf(WithPort(p, port))) == Some(WithPort(p, port))
  {
    hide SplitAuthority, AuthorityText, IsSchemeToken, SplitUrl, HostText, PortText, SplitTail, NormalHost, NormalPort, UndisturbedPath;
    WebIsLower(p.scheme);
    NormalHostText(parse, p.authority.host);
    OriginAuthority(p.authority.host, port);
    AuthorityBytes(p.authority.host, port);
    TailIsPath(p.tail);
    SplitJoined(p.scheme, AuthorityText(WithPort(p, port).authority), p.tail.path);
  }

  /** The text up to the path. */
  function Front(p: UrlParts, port: Bytes): Bytes {
    p.scheme + ([COLON] + (SLASHES + (p.authority.host + ([COLON] + port))))
  }

  lemma FrontThen(p: UrlParts, port: Bytes, id: Bytes)
    requires !p.tail.hasQuery && !p.tail.hasFragment
    ensures UrlTextOf(WithPort(p, port)) + id == Front(p, port) + (p.tail.path + id)
  {
    var a := p.authority.host + ([COLON] + port);
    TailIsPath(p.tail);
    Assoc(p.scheme, [COLON] + (SLASHES + (a + p.tail.path)), id);
    Assoc([COLON], SLASHES + (a + p.tail.path), id);
    Assoc(SLASHES, a + p.tail.path, id);
    Assoc(a, p.tail.path, id);
    Assoc(p.scheme, [COLON] + (SLASHES + a), p.tail.path + id);
    Assoc([COLON], SLASHES + a, p.tail.path + id);
    Assoc(SLASHES, a, p.tail.path + id);
  }

  lemma FrontIsUri(p: UrlParts, port: Bytes)
    requires IsWeb(p.scheme) && HostText(p.authority.host) && PortText(port) && port != []
    ensures UriBytes(Front(p, port)) && Complete(Front(p, port))
  {
    hide UriBytes, HostText, Complete;
    WebIsUri(p.scheme);
    HostIsUri(p.authority.host, port);
    UriBytesConcat(p.authority.host, [COLON] + port);
    UriBytesConcat(SLASHES, p.authority.host + ([COLON] + port));
    UriBytesConcat([COLON], SLASHES + (p.authority.host + ([COLON] + port)));
    UriBytesConcat(p.scheme, [COLON] + (SLASHES + (p.authority.host + ([COLON] + port))));
    FrontPlain(p, port);
    NoPercentComplete(Front(p, port));
  }

  lemma FrontPlain(p: UrlParts, port: Bytes)
    requires IsWeb(p.scheme) && HostText(p.authority.host) && PortText(port)
    ensures PERCENT !in Front(p, port)
  {
    HostPlain(p.authority.host);
    assert PERCENT !in p.scheme && PERCENT !in port && PERCENT !in SLASHES;
  }

  lemma HostPlain(host: Bytes)
    requires HostText(host)
    ensures PERCENT !in host
  {
    if !NameText(host) {
      var inner := host[1..|host| - 1];
      assert forall i :: 0 < i < |host| - 1 ==> host[i] == inner[i - 1];
    }
  }

  /** What the proof needs of a Scope: its parts, and the text behind them. */
  lemma ScopeFacts(parse: AddressParser, scope: Bytes, id: Bytes)
    requires ScopeUrl(parse, scope) && CanonicalId(id)
    ensures var p := SplitUrl(scope).value;
            && IsWeb(p.scheme) && HostText(p.authority.host) && p.tail.path != [] && p.tail.path[0] == SLASH
            && p.tail == SplitTail(p.tail.path) && UrlTextOf(p) == scope && UriBytes(p.tail.path + id) && Complete(p.tail.path + id)
            && (!p.authority.hasPort ==> p.authority.port == [])
  {
    hide SplitUrl, CanonicalParts, ScopePath, CanonicalId, NormalPath, IdText, HostText, UriBytes, Complete, UrlTextOf, SplitTail;
    var p := SplitUrl(scope).value;
    UrlOfId(parse, scope, id);
    NonemptyPath(p.tail.path);
    PathLeads(scope);
    if !p.authority.hasPort { NoPortText(scope); }
    UrlRejoins(scope);
    PartsFacts(parse, p);
    IdTextIsUri(p.tail.path + id);
    PathComplete(p.tail.path, id);
    PathIsTail(scope);
  }

  lemma PartsFacts(parse: AddressParser, p: UrlParts)
    requires CanonicalParts(parse, p)
    ensures IsWeb(p.scheme) && HostText(p.authority.host)
  {
    hide NormalHost, NormalPort, UndisturbedPath, HostText;
    NormalHostText(parse, p.authority.host);
  }

  lemma PathComplete(path: Bytes, id: Bytes)
    requires ScopePath(path) && path[0] == SLASH && CanonicalId(id)
    ensures Complete(path + id)
  {
    hide Complete, ScopePath, CanonicalId, PathParts;
    PathExtended(path, id);
    JoinedEscapes(Split(path + id, SLASH));
    JoinSplit(path + id, SLASH);
  }

  lemma PathIsTail(s: Bytes)
    requires SplitUrl(s).Some? && !SplitUrl(s).value.tail.hasQuery && !SplitUrl(s).value.tail.hasFragment
    ensures SplitUrl(s).value.tail == SplitTail(SplitUrl(s).value.tail.path)
  {
    hide SplitUrl, SplitAuthority, SplitTail, IsSchemeToken;
    var scheme, authority, tail := UrlShape(s);
    TailRejoins(tail);
    TailIsPath(SplitTail(tail));
  }

  /** The spelling with the port does not begin with the Scope's URL. */
  lemma NotAPrefix(p: UrlParts, port: Bytes, rest: Bytes)
    requires !p.authority.hasPort && !p.tail.hasQuery && !p.tail.hasFragment && p.tail.path != [] && p.tail.path[0] == SLASH
    ensures !(UrlTextOf(p) <= Front(p, port) + rest)
  {
    TailIsPath(p.tail);
    BareHost(p.authority.host);
    var a := p.scheme + ([COLON] + (SLASHES + p.authority.host));
    var n := |a|;
    assert UrlTextOf(p)[n] == SLASH;
    assert (Front(p, port) + rest)[n] == COLON;
  }

  /** A Scope without a port, and one of its own URLs with the scheme's port
      spelled out: refused, never external. */
  lemma DefaultPortRefused(parse: AddressParser, scope: Bytes, port: Bytes, id: Bytes, pin: Bytes)
    requires ScopeUrl(parse, scope) && CanonicalId(id) && Valid(pin) && !SplitUrl(scope).value.authority.hasPort
    requires SpellsDefault(port, SplitUrl(scope).value.scheme)
    ensures ParseRef(parse, scope, UrlTextOf(WithPort(SplitUrl(scope).value, port)) + id, pin) == None
  {
    var p := SplitUrl(scope).value;
    hide ScopeUrl, CanonicalId, ClaimsScope, SplitUrl, UrlTextOf, Front, SpellsDefault, UriBytes, Complete, HostText, PortText;
    var reference := UrlTextOf(WithPort(p, port)) + id;
    ScopeFacts(parse, scope, id);
    OneIsWeb(port, p.scheme);
    DefaultPortClaims(parse, scope, port, id);
    FrontThen(p, port, id);
    FrontIsUri(p, port);
    UriBytesConcat(Front(p, port), p.tail.path + id);
    CompleteConcat(Front(p, port), p.tail.path + id);
    SplitHasScheme(reference);
    SchemeNonempty(reference);
    NotAPrefix(p, port, p.tail.path + id);
  }

  lemma SplitHasScheme(s: Bytes)
    requires SplitUrl(s).Some?
    ensures HasScheme(s)
  {
  }

  lemma DefaultPortClaims(parse: AddressParser, scope: Bytes, port: Bytes, id: Bytes)
    requires ScopeUrl(parse, scope) && CanonicalId(id) && !SplitUrl(scope).value.authority.hasPort
    requires SpellsDefault(port, SplitUrl(scope).value.scheme)
    ensures ClaimsScope(parse, scope, UrlTextOf(WithPort(SplitUrl(scope).value, port)) + id)
    ensures !SplitUrl(scope).value.tail.hasQuery && !SplitUrl(scope).value.tail.hasFragment
    ensures SplitUrl(UrlTextOf(WithPort(SplitUrl(scope).value, port)) + id).Some?
  {
    hide CanonicalParts, SplitUrl, UrlTextOf, SpellsDefault, NormalPath, CanonicalId, ScopePath, Complete, NormalHost, NormalPort, HostText, Lower;
    var p := SplitUrl(scope).value;
    ScopeFacts(parse, scope, id);
    UrlOfId(parse, scope, id);
    OneIsWeb(port, p.scheme);
    WithPortSplits(parse, p, port);
    IdBytes(id);
    SplitAppended(UrlTextOf(WithPort(p, port)), id);
    CanonicalHasOrigin(parse, p);
    WebIsLower(p.scheme);
    DroppedExactly(port, p.scheme);
    DroppedExactly([], p.scheme);
    assert p.tail.path <= p.tail.path + id;
  }
}
