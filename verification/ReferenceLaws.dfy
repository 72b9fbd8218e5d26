/** Every reference classified: which are refused, which are local, and which
    are external. */
module ReferenceLaws {
  import opened Utf8
  import opened Wrappers
  import opened Seqs
  import opened Splitting
  import opened Segments
  import opened ResourceIds
  import opened UrlText
  import opened DotSegments
  import opened Escapes
  import opened Hosts
  import opened Ports
  import opened ScopeUrls
  import opened References
  import opened DefaultPorts

  /** The reference names a place under the Scope: its origin is the Scope's, and
      its path, escapes normalised and dot segments removed as section 5.2.4 of
      RFC 3986 says, lies under the Scope's. */
  ghost predicate NamesScope(parse: AddressParser, scope: Bytes, reference: Bytes)
    requires SplitUrl(scope).Some?
  {
    && SplitUrl(reference).Some?
    && var p, sp := SplitUrl(reference).value, SplitUrl(scope).value;
       var path := if p.tail.path == [] then [SLASH] else p.tail.path;
    && OriginOf(parse, p).Some? && OriginOf(parse, p) == OriginOf(parse, sp)
    && sp.tail.path <= RemoveDotsRfc(Normalized(path), [])
  }

  lemma ClaimsMeans(parse: AddressParser, scope: Bytes, reference: Bytes)
    requires ScopeUrl(parse, scope)
    ensures ClaimsScope(parse, scope, reference) <==> NamesScope(parse, scope, reference)
  {
    ScopeSplits(parse, scope);
    hide OriginOf, ScopeUrl, Normalized, RemoveDotsRfc, WithoutDots, SplitUrl;
    if SplitUrl(reference).Some? {
      var p := SplitUrl(reference).value;
      var path := if p.tail.path == [] then [SLASH] else p.tail.path;
      PathLeads(reference);
      NormalizedLeads(path);
      RemovesAsRfc(Normalized(path));
    }
  }

  /** What every reference parses to. Nothing is parsed without a Scope URL, a
      text and a valid pin. A text that is no absolute URI must be a canonical
      ID. One that names a place under the Scope must be spelled as the Scope's
      URL followed by a canonical ID. Any other is external, byte for byte. */
  lemma Classified(parse: AddressParser, scope: Bytes, reference: Bytes, pin: Bytes)
    ensures !ScopeUrl(parse, scope) || reference == [] || !Valid(pin) ==> ParseRef(parse, scope, reference, pin) == None
    ensures ScopeUrl(parse, scope) && reference != [] && Valid(pin) && !AbsoluteUri(reference)
            ==> ParseRef(parse, scope, reference, pin) == if CanonicalId(reference) then Some(InScope(reference, pin)) else None
    ensures ScopeUrl(parse, scope) && Valid(pin) && AbsoluteUri(reference) && NamesScope(parse, scope, reference)
            ==> ParseRef(parse, scope, reference, pin) ==
                if scope <= reference && CanonicalId(reference[|scope|..]) then Some(InScope(reference[|scope|..], pin)) else None
    ensures ScopeUrl(parse, scope) && Valid(pin) && AbsoluteUri(reference) && !NamesScope(parse, scope, reference)
            ==> ParseRef(parse, scope, reference, pin) == Some(External(reference, pin))
  {
    ScopeSplits(parse, scope);
    hide ScopeUrl, CanonicalId, AbsoluteUri, NamesScope, ClaimsScope, SplitUrl;
    if ScopeUrl(parse, scope) { ClaimsMeans(parse, scope, reference); }
    if AbsoluteUri(reference) { SchemeNonempty(reference); }
  }

  lemma ScopeSplits(parse: AddressParser, scope: Bytes)
    ensures ScopeUrl(parse, scope) ==> SplitUrl(scope).Some?
  {
    hide CanonicalParts, ScopePath, Complete, SplitUrl;
  }

  // ---- credentials do not hide a Scope ----

  /** Whatever stands before the last at sign is credentials. */
  lemma CredentialsCut(user: Bytes, t: Bytes)
    requires AT !in t && SplitAuthority(t).Some?
    ensures SplitAuthority(user + ([AT] + t)) == Some(SplitAuthority(t).value.(hasUserinfo := true))
  {
    hide CutLast, CutFirst;
    CutLastAbsent(t, AT);
    CutLastMarked(user, AT, t);
  }

  /** A text with two slashes in a row is no canonical ID. */
  lemma NotAnId(a: Bytes, b: Bytes)
    ensures !CanonicalId(a + (SLASHES + b))
  {
    hide Split, CanonicalSegment;
    var t := a + (SLASHES + b);
    assert t == a + ([SLASH] + ([SLASH] + b));
    SplitConcat(a, SLASH, [SLASH] + b);
    assert [SLASH] + b == [] + ([SLASH] + b);
    SplitFirst([], SLASH, b);
    var parts := Split(t, SLASH);
    assert parts[|Split(a, SLASH)|] == [];
    EmptyNotCanonical();
  }

  lemma EmptyNotCanonical()
    ensures !CanonicalSegment([])
  {
  }

  /** One of the Scope's own URLs with credentials before its host. */
  function WithUser(p: UrlParts, user: Bytes, id: Bytes): Bytes {
    p.scheme + ([COLON] + (SLASHES + ((user + ([AT] + AuthorityText(p.authority))) + (p.tail.path + id))))
  }

  /** It is refused, never external. */
  lemma CredentialsRefused(parse: AddressParser, scope: Bytes, user: Bytes, id: Bytes, pin: Bytes)
    requires ScopeUrl(parse, scope) && CanonicalId(id) && Valid(pin) && forall i :: 0 <= i < |user| ==> !IsDelimiter(user[i])
    ensures ParseRef(parse, scope, WithUser(SplitUrl(scope).value, user, id), pin) == None
  {
    var p := PartsOf(parse, scope);
    hide ScopeUrl, CanonicalId, AbsoluteUri, ClaimsScope, SplitUrl, WithUser, Valid;
    UserClaims(parse, scope, user, id);
    UserNotPrefix(parse, scope, user, id);
    NotRelative(p, user, id);
    RefusedClaim(parse, scope, WithUser(p, user, id), pin);
  }

  lemma PartsOf(parse: AddressParser, scope: Bytes) returns (p: UrlParts)
    requires ScopeUrl(parse, scope)
    ensures SplitUrl(scope) == Some(p)
  {
    ScopeSplits(parse, scope);
    p := SplitUrl(scope).value;
  }

  /** A reference that claims the Scope without beginning with its URL, and is no
      ID, is refused. */
  lemma RefusedClaim(parse: AddressParser, scope: Bytes, reference: Bytes, pin: Bytes)
    requires ScopeUrl(parse, scope) && ClaimsScope(parse, scope, reference) && !(scope <= reference) && !CanonicalId(reference)
    ensures ParseRef(parse, scope, reference, pin) == None
  {
    hide ScopeUrl, CanonicalId, AbsoluteUri, ClaimsScope, Valid;
  }

  lemma NotRelative(p: UrlParts, user: Bytes, id: Bytes)
    ensures !CanonicalId(WithUser(p, user, id))
  {
    hide CanonicalId, AuthorityText;
    var rest := (user + ([AT] + AuthorityText(p.authority))) + (p.tail.path + id);
    Assoc(p.scheme, [COLON], SLASHES + rest);
    NotAnId(p.scheme + [COLON], rest);
  }

  lemma AuthorityFacts(parse: AddressParser, scope: Bytes)
    requires ScopeUrl(parse, scope)
    ensures var p := SplitUrl(scope).value; var t := AuthorityText(p.authority);
            && !p.authority.hasUserinfo && AT !in t && SplitAuthority(t) == Some(p.authority)
            && forall i :: 0 <= i < |t| ==> !IsDelimiter(t[i])
  {
    ScopeSplits(parse, scope);
    NoCredentials(parse, SplitUrl(scope).value);
    hide SplitUrl, SplitAuthority, AuthorityText, SplitTail, IsSchemeToken, CanonicalParts, ScopePath, Complete;
    var scheme, authority, tail := UrlShape(scope);
    AuthorityRejoins(authority);
  }

  lemma UserSplits(p: UrlParts, user: Bytes, id: Bytes)
    requires IsWeb(p.scheme) && (forall i :: 0 <= i < |user| ==> !IsDelimiter(user[i])) && QUESTION !in id && HASH !in id
    requires var t := AuthorityText(p.authority);
             AT !in t && SplitAuthority(t) == Some(p.authority) && forall i :: 0 <= i < |t| ==> !IsDelimiter(t[i])
    requires p.tail == SplitTail(p.tail.path) && !p.tail.hasQuery && !p.tail.hasFragment && p.tail.path != [] && p.tail.path[0] == SLASH
    ensures SplitUrl(WithUser(p, user, id))
         == Some(UrlParts(p.scheme, p.authority.(hasUserinfo := true), Tail(p.tail.path + id, false, [], false, [])))
  {
    hide SplitUrl, SplitAuthority, AuthorityText, SplitTail, IsSchemeToken;
    var at := AuthorityText(p.authority);
    CredentialsCut(user, at);
    WebIsLower(p.scheme);
    UserBytes(user, at);
    SplitJoined(p.scheme, user + ([AT] + at), p.tail.path + id);
    TailAppended(p.tail.path, id);
  }

  lemma UserClaims(parse: AddressParser, scope: Bytes, user: Bytes, id: Bytes)
    requires ScopeUrl(parse, scope) && CanonicalId(id) && forall i :: 0 <= i < |user| ==> !IsDelimiter(user[i])
    ensures ClaimsScope(parse, scope, WithUser(SplitUrl(scope).value, user, id))
  {
    hide SplitUrl, SplitAuthority, AuthorityText, SplitTail, CanonicalParts, ScopePath, Complete, NormalPath, CanonicalId, UriBytes, HostText, WithUser, UrlTextOf;
    var p := SplitUrl(scope).value;
    ScopeFacts(parse, scope, id);
    AuthorityFacts(parse, scope);
    UrlOfId(parse, scope, id);
    IdBytes(id);
    UserSplits(p, user, id);
    CanonicalHasOrigin(parse, p);
    SameOrigin(parse, p, UrlParts(p.scheme, p.authority.(hasUserinfo := true), Tail(p.tail.path + id, false, [], false, [])));
    assert p.tail.path <= p.tail.path + id;
  }

  lemma SameOrigin(parse: AddressParser, p: UrlParts, q: UrlParts)
    requires p.scheme == q.scheme && p.authority.host == q.authority.host && p.authority.port == q.authority.port
    ensures OriginOf(parse, p) == OriginOf(parse, q)
  {
    hide NormalHost, NormalPort, Lower;
  }

  lemma UserBytes(user: Bytes, at: Bytes)
    requires forall i :: 0 <= i < |user| ==> !IsDelimiter(user[i])
    requires forall i :: 0 <= i < |at| ==> !IsDelimiter(at[i])
    ensures var t := user + ([AT] + at); forall i :: 0 <= i < |t| ==> !IsDelimiter(t[i])
  {
    var t := user + ([AT] + at);
    assert forall i :: |user| < i < |t| ==> t[i] == at[i - |user| - 1];
  }

  lemma UserNotPrefix(parse: AddressParser, scope: Bytes, user: Bytes, id: Bytes)
    requires ScopeUrl(parse, scope) && CanonicalId(id) && forall i :: 0 <= i < |user| ==> !IsDelimiter(user[i])
    ensures !(scope <= WithUser(SplitUrl(scope).value, user, id))
  {
    hide SplitUrl, SplitAuthority, AuthorityText, SplitTail, CanonicalParts, ScopePath, Complete, NormalPath, CanonicalId, UriBytes, HostText, WithUser, UrlTextOf;
    var p := SplitUrl(scope).value;
    ScopeFacts(parse, scope, id);
    AuthorityFacts(parse, scope);
    UrlOfId(parse, scope, id);
    PartsNotPrefix(p, user, id);
  }

  lemma PartsNotPrefix(p: UrlParts, user: Bytes, id: Bytes)
    requires forall i :: 0 <= i < |user| ==> !IsDelimiter(user[i])
    requires var t := AuthorityText(p.authority); forall i :: 0 <= i < |t| ==> !IsDelimiter(t[i])
    requires !p.tail.hasQuery && !p.tail.hasFragment && p.tail.path != [] && p.tail.path[0] == SLASH
    ensures !(UrlTextOf(p) <= WithUser(p, user, id))
  {
    hide AuthorityText, TailText;
    var at := AuthorityText(p.authority);
    TailIsPath(p.tail);
    UserBytes(user, at);
    var t := user + ([AT] + at);
    At(p.scheme, at, p.tail.path, |at|);
    At(p.scheme, t, p.tail.path + id, |at|);
    assert (at + p.tail.path)[|at|] == SLASH;
    assert (t + (p.tail.path + id))[|at|] == t[|at|];
  }

  /** The i-th byte behind scheme://. */
  lemma At(scheme: Bytes, a: Bytes, b: Bytes, i: nat)
    requires i < |a + b|
    ensures var s := scheme + ([COLON] + (SLASHES + (a + b)));
            |scheme| + 3 + i < |s| && s[|scheme| + 3 + i] == (a + b)[i]
  {
    var u := SLASHES + (a + b);
    assert u[2 + i] == (a + b)[i];
    assert ([COLON] + u)[3 + i] == u[2 + i];
  }
}
