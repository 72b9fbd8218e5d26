/** References: a canonical local ID, the exact URL of one, or an absolute URI
    outside the Scope. */
module References {
  import opened Utf8
  import opened Wrappers
  import opened Strings
  import opened Seqs
  import opened Splitting
  import opened Segments
  import opened ResourceIds
  import opened Numbers
  import opened UrlText
  import opened DotSegments
  import opened Escapes
  import opened Hosts
  import opened Ports
  import opened ScopeUrls

  // ---- absolute URIs ----

  predicate IsSubDelim(c: byte) {
    c == 0x21 || c == 0x24 || c == 0x26 || c == 0x27 || c == 0x28 || c == 0x29 || c == 0x2A || c == 0x2B || c == 0x2C
    || c == 0x3B || c == 0x3D
  }

  predicate IsGenDelim(c: byte) {
    c == COLON || c == SLASH || c == QUESTION || c == HASH || c == LBRACKET || c == RBRACKET || c == AT
  }

  predicate IsUriByte(c: byte) { IsUnreserved(c) || IsSubDelim(c) || IsGenDelim(c) || c == PERCENT }

  predicate UriBytes(t: Bytes) { forall i :: 0 <= i < |t| ==> IsUriByte(t[i]) }

  predicate HasScheme(s: Bytes) { var c := CutFirst(s, COLON); c.found && IsSchemeToken(c.before) }

  /** A scheme, URI characters, and complete escapes. */
  predicate AbsoluteUri(s: Bytes) { HasScheme(s) && UriBytes(s) && Complete(s) }

  method IsAbsoluteUri(s: Bytes) returns (ok: bool)
    ensures ok == AbsoluteUri(s)
  {
    hide IsSubDelim, IsGenDelim, IsUnreserved, HexValue, HasScheme;
    if !HasScheme(s) {
      return false;
    }
    var j := 0;
    while j < |s|
      invariant 0 <= j <= |s| && UriBytes(s[..j]) && Complete(s[j..]) == Complete(s)
      decreases |s| - j
    {
      var c := s[j];
      UriBytesNext(s, j);
      if IsUnreserved(c) || IsSubDelim(c) || IsGenDelim(c) {
        NotPercent(c);
        DropDrop(s, j, 1);
        j := j + 1;
      } else if c == PERCENT {
        if j + 2 >= |s| || HexValue(s[j + 1]).None? || HexValue(s[j + 2]).None? {
          return false;
        }
        HexIsUri(s[j + 1]);
        HexIsUri(s[j + 2]);
        UriBytesNext(s, j + 1);
        UriBytesNext(s, j + 2);
        DropDrop(s, j, 3);
        j := j + 3;
      } else {
        return false;
      }
    }
    assert s[..j] == s;
    ok := true;
  }

  lemma UriBytesNext(s: Bytes, j: nat)
    requires j < |s|
    ensures UriBytes(s[..j]) && IsUriByte(s[j]) ==> UriBytes(s[..j + 1])
    ensures !IsUriByte(s[j]) ==> !UriBytes(s)
  {
    hide IsUriByte;
    assert s[..j + 1] == s[..j] + [s[j]];
  }

  lemma NotPercent(c: byte)
    requires IsUnreserved(c) || IsSubDelim(c) || IsGenDelim(c)
    ensures c != PERCENT
  {
  }

  lemma HexIsUri(c: byte)
    requires HexValue(c).Some?
    ensures IsUriByte(c)
  {
  }

  // ---- references ----

  datatype Ref = InScope(path: Bytes, pin: Bytes) | External(uri: Bytes, pin: Bytes) {
    /** The identity as an absolute URI. */
    function Url(scope: Bytes): Bytes {
      match this
      case InScope(path, _) => scope + path
      case External(uri, _) => uri
    }
  }

  function NormalPath(path: Bytes): Bytes {
    WithoutDots(Normalized(if path == [] then [SLASH] else path))
  }

  /** The reference resolves under the Scope URL, however it is spelled. */
  predicate ClaimsScope(parse: AddressParser, scope: Bytes, reference: Bytes)
    requires ScopeUrl(parse, scope)
  {
    && SplitUrl(reference).Some?
    && var p, sp := SplitUrl(reference).value, SplitUrl(scope).value;
    && OriginOf(parse, p).Some? && OriginOf(parse, p) == OriginOf(parse, sp)
    && sp.tail.path <= NormalPath(p.tail.path)
  }

  function NewInScopeRef(path: Bytes, pin: Bytes): Option<Ref> {
    if CanonicalId(path) && Valid(pin) then Some(InScope(path, pin)) else None
  }

  function PublicUrl(parse: AddressParser, scope: Bytes, id: Bytes): Option<Bytes> {
    if ScopeUrl(parse, scope) && CanonicalId(id) then Some(scope + id) else None
  }

  function LocalId(parse: AddressParser, scope: Bytes, uri: Bytes): Option<Bytes> {
    if ScopeUrl(parse, scope) && scope <= uri && CanonicalId(uri[|scope|..]) then Some(uri[|scope|..]) else None
  }

  function ParseRef(parse: AddressParser, scope: Bytes, reference: Bytes, pin: Bytes): Option<Ref> {
    if !ScopeUrl(parse, scope) || reference == [] || !Valid(pin) then None
    else if !AbsoluteUri(reference) then NewInScopeRef(reference, pin)
    else if ClaimsScope(parse, scope, reference) then
      var path :- LocalId(parse, scope, reference);
      Some(InScope(path, pin))
    else Some(External(reference, pin))
  }

  /** Composing a URL and reading the ID back are inverse to each other. */
  lemma LocalIdInverse(parse: AddressParser, scope: Bytes, id: Bytes, uri: Bytes)
    ensures PublicUrl(parse, scope, id) == Some(uri) <==> LocalId(parse, scope, uri) == Some(id)
  {
    hide ScopeUrl, CanonicalId;
    if PublicUrl(parse, scope, id) == Some(uri) {
      assert uri[|scope|..] == id;
    }
    if LocalId(parse, scope, uri) == Some(id) {
      assert uri == scope + id;
    }
  }

  // ---- a Scope's own URLs claim it ----

  /** A part of a canonical path: empty at its ends, canonical inside. */
  predicate PathPart(t: Bytes) { t == [] || CanonicalSegment(t) }

  predicate PathParts(parts: seq<Bytes>) { forall i :: 0 <= i < |parts| ==> PathPart(parts[i]) }

  lemma PathPartClean(t: Bytes)
    requires PathPart(t)
    ensures !IsDots(t) && SLASH !in t && IdText(t)
  {
    hide DecodeSegment, EncodeSegment, Scalars, Valid;
    if t != [] {
      CanonicalBytes(t);
      NameDecodes(DOT_SEGMENT);
      NameDecodes(DOTS_SEGMENT);
    }
  }

  lemma PathPartsClean(parts: seq<Bytes>)
    requires PathParts(parts)
    ensures Clean(parts)
  {
    hide PathPart, IsDots;
    forall i | 0 <= i < |parts| ensures !IsDots(parts[i]) && SLASH !in parts[i] { PathPartClean(parts[i]); }
  }

  lemma PathPartEscapes(t: Bytes, rest: Bytes)
    requires PathPart(t)
    ensures Complete(t + rest) <==> Complete(rest)
    ensures CanonicalEscapes(t + rest) <==> CanonicalEscapes(rest)
  {
    hide Complete, CanonicalEscapes, Admissible;
    if t == [] {
      assert t + rest == rest;
    } else {
      EncodedCanonical(DecodeSegment(t).value, rest);
    }
  }

  lemma NothingComplete()
    ensures Complete([]) && CanonicalEscapes([])
  {
  }

  lemma {:induction false} JoinedEscapes(parts: seq<Bytes>)
    requires PathParts(parts)
    ensures Complete(Join(parts, SLASH)) && CanonicalEscapes(Join(parts, SLASH))
  {
    hide Complete, CanonicalEscapes, PathPart;
    NothingComplete();
    if |parts| == 1 {
      PathPartEscapes(parts[0], []);
      assert parts[0] + [] == parts[0];
    } else if |parts| > 1 {
      var more := Join(parts[1..], SLASH);
      JoinedEscapes(parts[1..]);
      CanonicalStep(SLASH, more);
      PathPartEscapes(parts[0], [SLASH] + more);
    }
  }

  lemma {:induction false} JoinedText(parts: seq<Bytes>)
    requires PathParts(parts)
    ensures IdText(Join(parts, SLASH))
  {
    hide PathPart, IdText;
    if |parts| == 1 {
      PathPartClean(parts[0]);
    } else if |parts| > 1 {
      PathPartClean(parts[0]);
      JoinedText(parts[1..]);
      IdTextJoined(parts[0], Join(parts[1..], SLASH));
    } else {
      NoIdText();
    }
  }

  lemma NoIdText()
    ensures IdText([])
  {
  }

  /** A path of canonical parts is its own normal form. */
  lemma PathIsNormal(path: Bytes)
    requires path != [] && PathParts(Split(path, SLASH))
    ensures NormalPath(path) == path && IdText(path)
  {
    hide PathParts, Complete, CanonicalEscapes, Normalized, WithoutDots, IdText, Clean;
    var parts := Split(path, SLASH);
    JoinSplit(path, SLASH);
    JoinedEscapes(parts);
    CanonicalIsNormal(path);
    PathPartsClean(parts);
    CleanPathKept(path);
    JoinedText(parts);
  }

  /** The parts of a Scope's path: those of the path without its last slash,
      the first of them empty, and an empty last one. */
  lemma ScopeParts(path: Bytes)
    requires path != [] && path[0] == SLASH && path[|path| - 1] == SLASH
    ensures var f := Split(path[..|path| - 1], SLASH); Split(path, SLASH) == f + [[]] && f[0] == []
  {
    var front := path[..|path| - 1];
    assert path == front + ([SLASH] + []);
    SplitConcat(front, SLASH, []);
    assert Split([], SLASH) == [[]];
    FirstPart(path);
  }

  lemma FirstPart(path: Bytes)
    requires path != [] && path[0] == SLASH
    ensures Split(path, SLASH)[0] == []
  {
    assert path == [] + ([SLASH] + path[1..]);
    SplitFirst([], SLASH, path[1..]);
  }

  /** A Scope's path followed by a canonical ID is again made of canonical
      parts. */
  lemma PathExtended(path: Bytes, id: Bytes)
    requires ScopePath(path) && path[0] == SLASH && CanonicalId(id)
    ensures PathParts(Split(path, SLASH)) && PathParts(Split(path + id, SLASH))
  {
    hide CanonicalSegment, Split, PathParts;
    var front := path[..|path| - 1];
    ScopeParts(path);
    var f := Split(front, SLASH);
    assert forall i :: 0 <= i < |f| ==> f[i] == Split(path, SLASH)[i];
    ExtendedParts(f, Split(id, SLASH));
    assert path + id == front + ([SLASH] + id);
    SplitConcat(front, SLASH, id);
  }

  lemma ExtendedParts(f: seq<Bytes>, g: seq<Bytes>)
    requires f != [] && f[0] == [] && forall i :: 1 <= i < |f| ==> CanonicalSegment(f[i])
    requires forall i :: 0 <= i < |g| ==> CanonicalSegment(g[i])
    ensures PathParts(f + [[]]) && PathParts(f + g)
  {
    hide CanonicalSegment;
  }

  /** The URL of a canonical ID splits as its Scope does, its path longer. */
  lemma UrlOfId(parse: AddressParser, scope: Bytes, id: Bytes)
    requires ScopeUrl(parse, scope) && CanonicalId(id)
    ensures var p := SplitUrl(scope).value;
            && SplitUrl(scope + id) == Some(p.(tail := p.tail.(path := p.tail.path + id)))
            && NormalPath(p.tail.path + id) == p.tail.path + id
            && IdText(p.tail.path + id) && IdText(p.tail.path)
            && !p.authority.hasUserinfo && !p.tail.hasQuery && !p.tail.hasFragment
  {
    hide SplitUrl, OriginOf, UndisturbedPath, Complete, ScopePath, CanonicalId, NormalPath, PathParts, IdText;
    var p := SplitUrl(scope).value;
    IdBytes(id);
    PathLeads(scope);
    NonemptyPath(p.tail.path);
    SplitAppended(scope, id);
    PathExtended(p.tail.path, id);
    PathIsNormal(p.tail.path);
    PathIsNormal(p.tail.path + id);
  }

  lemma NonemptyPath(path: Bytes)
    requires ScopePath(path)
    ensures path != []
  {
  }

  lemma OwnUrlClaims(parse: AddressParser, scope: Bytes, id: Bytes)
    requires ScopeUrl(parse, scope) && CanonicalId(id)
    ensures ClaimsScope(parse, scope, scope + id)
  {
    hide SplitUrl, NormalHost, NormalPort, CanonicalParts, Complete, ScopePath, CanonicalId, NormalPath;
    var p := SplitUrl(scope).value;
    UrlOfId(parse, scope, id);
    assert OriginOf(parse, p).Some? by { CanonicalHasOrigin(parse, p); }
    assert p.tail.path <= p.tail.path + id;
  }

  lemma CanonicalHasOrigin(parse: AddressParser, p: UrlParts)
    requires CanonicalParts(parse, p)
    ensures OriginOf(parse, p).Some?
  {
  }

  // ---- and they are absolute URIs ----

  lemma IdTextIsUri(t: Bytes)
    requires IdText(t)
    ensures UriBytes(t)
  {
    forall i | 0 <= i < |t| ensures IsUriByte(t[i]) { assert IsSegmentByte(t[i]) || t[i] == SLASH; }
  }

  lemma UriBytesConcat(a: Bytes, b: Bytes)
    requires UriBytes(a) && UriBytes(b)
    ensures UriBytes(a + b)
  {
    hide IsUriByte;
  }

  lemma HostIsUri(host: Bytes, port: Bytes)
    requires HostText(host) && AllDigits(port)
    ensures UriBytes(host) && UriBytes(Marked(port != [], COLON, port))
  {
    if !NameText(host) {
      var inner := host[1..|host| - 1];
      assert forall i :: 0 < i < |host| - 1 ==> host[i] == inner[i - 1];
    }
  }

  lemma WebIsUri(scheme: Bytes)
    requires IsWeb(scheme)
    ensures UriBytes(scheme) && UriBytes([COLON]) && UriBytes(SLASHES)
  {
  }

  /** The text before the path of canonical parts. */
  lemma PrefixIsUri(parse: AddressParser, p: UrlParts)
    requires CanonicalParts(parse, p) && (!p.authority.hasPort ==> p.authority.port == [])
    requires !p.tail.hasQuery && UriBytes(p.tail.path)
    ensures UriBytes(UrlTextOf(p))
  {
    hide UriBytes, HostText, NormalHost, NormalPort, UndisturbedPath;
    CanonicalOrigin(parse, p);
    NormalHostText(parse, p.authority.host);
    NormalPortText(p.authority.port, p.scheme);
    WebIsLower(p.scheme);
    WebIsUri(p.scheme);
    HostIsUri(p.authority.host, p.authority.port);
    TailIsPath(p.tail);
    UriBytesConcat(p.authority.host, Marked(p.authority.hasPort, COLON, p.authority.port));
    UriBytesConcat(AuthorityText(p.authority), p.tail.path);
    UriBytesConcat(SLASHES, AuthorityText(p.authority) + p.tail.path);
    UriBytesConcat([COLON], SLASHES + (AuthorityText(p.authority) + p.tail.path));
    UriBytesConcat(p.scheme, [COLON] + (SLASHES + (AuthorityText(p.authority) + p.tail.path)));
  }

  lemma TailIsPath(t: Tail)
    requires !t.hasQuery && !t.hasFragment
    ensures TailText(t) == t.path
  {
  }

  lemma ScopeIsUri(parse: AddressParser, scope: Bytes)
    requires ScopeUrl(parse, scope) && IdText(SplitUrl(scope).value.tail.path)
    ensures UriBytes(scope) && HasScheme(scope)
  {
    hide UriBytes, CanonicalParts, IdText, UrlTextOf, IsSchemeToken, CutFirst, SplitTail, Complete, ScopePath;
    var p := SplitUrl(scope).value;
    if !p.authority.hasPort { NoPortText(scope); }
    IdTextIsUri(p.tail.path);
    NoCredentials(parse, p);
    PrefixIsUri(parse, p);
    UrlRejoins(scope);
  }

  lemma NoCredentials(parse: AddressParser, p: UrlParts)
    requires CanonicalParts(parse, p)
    ensures !p.authority.hasUserinfo
  {
  }

  lemma OwnUrlIsAbsolute(parse: AddressParser, scope: Bytes, id: Bytes)
    requires ScopeUrl(parse, scope) && CanonicalId(id)
    ensures AbsoluteUri(scope + id)
  {
    hide SplitUrl, CanonicalParts, UriBytes, ScopePath, CanonicalId, NormalPath, Complete, CutFirst, IsSchemeToken;
    UrlOfId(parse, scope, id);
    ScopeIsUri(parse, scope);
    IdBytes(id);
    IdTextIsUri(id);
    UriBytesConcat(scope, id);
    var c := CutFirst(scope, COLON);
    Assoc(c.before, [COLON] + c.after, id);
    Assoc([COLON], c.after, id);
    CutFirstMarked(c.before, COLON, c.after + id);
    IdComplete(id);
    CompleteConcat(scope, id);
  }

  lemma IdComplete(id: Bytes)
    requires CanonicalId(id)
    ensures Complete(id)
  {
    hide Complete, CanonicalSegment;
    JoinSplit(id, SLASH);
    JoinedEscapes(Split(id, SLASH));
  }

  // ---- the classification ----

  /** An absolute reference is in the Scope exactly when it is the Scope URL
      followed by a canonical ID, and that ID is what it parses to. */
  lemma InScopeExactly(parse: AddressParser, scope: Bytes, reference: Bytes, pin: Bytes, id: Bytes)
    requires ScopeUrl(parse, scope) && Valid(pin) && AbsoluteUri(reference)
    ensures ParseRef(parse, scope, reference, pin) == Some(InScope(id, pin))
       <==> CanonicalId(id) && reference == scope + id
  {
    hide ScopeUrl, CanonicalId, AbsoluteUri, ClaimsScope;
    LocalIdInverse(parse, scope, id, reference);
    if CanonicalId(id) && reference == scope + id {
      OwnUrlClaims(parse, scope, id);
      SchemeNonempty(reference);
    }
  }

  lemma SchemeNonempty(s: Bytes)
    requires AbsoluteUri(s)
    ensures s != []
  {
  }

  /** The URL of every canonical ID parses to the ID and renders back. */
  lemma OwnUrlRoundTrip(parse: AddressParser, scope: Bytes, id: Bytes, pin: Bytes)
    requires ScopeUrl(parse, scope) && CanonicalId(id) && Valid(pin)
    ensures var r := ParseRef(parse, scope, scope + id, pin);
            r == Some(InScope(id, pin)) && r.value.Url(scope) == scope + id
  {
    hide ScopeUrl, CanonicalId, ParseRef;
    OwnUrlIsAbsolute(parse, scope, id);
    InScopeExactly(parse, scope, scope + id, pin, id);
  }

  /** A reference that claims the Scope in any other spelling is refused; one
      that does not claim it is kept byte for byte. */
  lemma OtherwiseRefusedOrExternal(parse: AddressParser, scope: Bytes, reference: Bytes, pin: Bytes)
    requires ScopeUrl(parse, scope) && Valid(pin) && AbsoluteUri(reference)
    requires forall id :: CanonicalId(id) ==> reference != scope + id
    ensures ParseRef(parse, scope, reference, pin)
         == if ClaimsScope(parse, scope, reference) then None else Some(External(reference, pin))
  {
    hide ScopeUrl, CanonicalId, AbsoluteUri, ClaimsScope;
    SchemeNonempty(reference);
    LocalIdMeans(parse, scope, reference);
  }

  lemma LocalIdMeans(parse: AddressParser, scope: Bytes, uri: Bytes)
    ensures var r := LocalId(parse, scope, uri); r.Some? ==> CanonicalId(r.value) && uri == scope + r.value
  {
    hide ScopeUrl, CanonicalId;
  }

  /** No spelling of the Scope's origin and of a path under it slips past as
      external: a reference whose path, its escapes normalised and its dot
      segments removed as section 5.2.4 of RFC 3986 says, lies under the Scope's
      (an absent path being the root) is either the canonical spelling or refused. */
  lemma NoSpellingSlipsPast(parse: AddressParser, scope: Bytes, reference: Bytes, pin: Bytes)
    requires ScopeUrl(parse, scope) && Valid(pin) && AbsoluteUri(reference) && SplitUrl(reference).Some?
    requires var p, sp := SplitUrl(reference).value, SplitUrl(scope).value;
             var path := if p.tail.path == [] then [SLASH] else p.tail.path;
             && OriginOf(parse, p).Some? && OriginOf(parse, p) == OriginOf(parse, sp)
             && sp.tail.path <= RemoveDotsRfc(Normalized(path), [])
    ensures var r := ParseRef(parse, scope, reference, pin);
            (r.None? || r.value.InScope?) && (r.Some? <==> exists id :: CanonicalId(id) && reference == scope + id)
  {
    hide ScopeUrl, CanonicalId, AbsoluteUri, SplitUrl, OriginOf, Normalized, RemoveDotsRfc, WithoutDots;
    var p := SplitUrl(reference).value;
    var path := if p.tail.path == [] then [SLASH] else p.tail.path;
    PathLeads(reference);
    NormalizedLeads(path);
    RemovesAsRfc(Normalized(path));
    SchemeNonempty(reference);
    LocalIdMeans(parse, scope, reference);
    if id :| CanonicalId(id) && reference == scope + id { InScopeExactly(parse, scope, reference, pin, id); }
  }

  lemma NormalizedLeads(path: Bytes)
    requires path != [] && path[0] == SLASH
    ensures Normalized(path) != [] && Normalized(path)[0] == SLASH
  {
  }

  /** A canonical ID used as a reference means itself exactly when it has not
      the shape of a URI. */
  lemma LocalReference(parse: AddressParser, scope: Bytes, id: Bytes, pin: Bytes)
    requires ScopeUrl(parse, scope) && Valid(pin) && CanonicalId(id)
    ensures ParseRef(parse, scope, id, pin) == Some(InScope(id, pin)) <==> !HasScheme(id)
  {
    hide ScopeUrl, CanonicalId, ClaimsScope, HasScheme;
    IdBytes(id);
    IdTextIsUri(id);
    IdComplete(id);
    if AbsoluteUri(id) {
      InScopeExactly(parse, scope, id, pin, id);
      ScopeNonempty(parse, scope);
      assert |scope + id| > |id|;
    }
  }

  lemma ScopeNonempty(parse: AddressParser, scope: Bytes)
    requires ScopeUrl(parse, scope)
    ensures scope != []
  {
    hide CanonicalParts, ScopePath, Complete;
  }

  lemma LiteralId(id: Bytes)
    requires id != [] && EncodeSegment(id) == id && IsAscii(id) && SLASH !in id && id[0] != DOT
    requires forall i :: 0 <= i < |id| ==> !IsForbiddenRune(id[i])
    ensures CanonicalId(id)
  {
    hide EncodeSegment, DecodeSegment, Scalars, Valid, Split;
    DecodeEncoded(id);
    AsciiScalars(id);
    SplitOne(id, SLASH);
    OneCanonical(id);
  }

  /** a:b is a canonical ID and reads as a URI. */
  lemma UriShapedId()
    ensures CanonicalId([0x61, COLON, 0x62]) && HasScheme([0x61, COLON, 0x62])
  {
    var id: Bytes := [0x61, COLON, 0x62];
    assert id[1..] == [COLON, 0x62] && id[1..][1..] == [0x62] && id[1..][1..][1..] == [];
    assert EncodeSegment([0x62]) == [0x62];
    assert EncodeSegment([COLON, 0x62]) == [COLON, 0x62];
    assert EncodeSegment(id) == id;
    LiteralId(id);
    assert id == [0x61] + ([COLON] + [0x62]);
    CutFirstMarked([0x61], COLON, [0x62]);
  }
}
