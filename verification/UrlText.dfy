/** Splitting an http(s) URL into its parts without normalising anything, and
    putting the parts back together. */
module UrlText {
  import opened Utf8
  import opened Wrappers
  import opened Seqs
  import opened Splitting
  import opened Segments

  const AT: byte := 0x40
  const SLASHES: Bytes := [0x2F, 0x2F]

  /** A URL cut into its three stretches. */
  datatype UrlParts = UrlParts(scheme: Bytes, authority: Authority, tail: Tail)

  datatype Authority = Authority(hasUserinfo: bool, host: Bytes, hasPort: bool, port: Bytes)

  datatype Tail = Tail(path: Bytes, hasQuery: bool, query: Bytes, hasFragment: bool, fragment: Bytes)

  predicate IsAlpha(c: byte) { 0x41 <= c <= 0x5A || 0x61 <= c <= 0x7A }

  predicate IsSchemeToken(s: Bytes) {
    s != [] && IsAlpha(s[0])
    && forall i :: 1 <= i < |s| ==> IsAlphanumeric(s[i]) || s[i] == 0x2B || s[i] == 0x2D || s[i] == 0x2E
  }

  // ---- cutting at a byte ----

  /** What stands before a mark and, when the mark is there, after it. */
  datatype Pieces = Pieces(before: Bytes, found: bool, after: Bytes)

  function Marked(present: bool, mark: byte, t: Bytes): Bytes { if present then [mark] + t else [] }

  /** Cut at the first b. */
  function CutFirst(t: Bytes, b: byte): (c: Pieces)
    ensures t == c.before + Marked(c.found, b, c.after)
    ensures b !in c.before && (c.found <==> b in t) && (!c.found ==> c.after == [])
  {
    var i := IndexOf(t, b);
    if i == |t| then assert t + [] == t; Pieces(t, false, [])
    else assert t == t[..i] + ([b] + t[i + 1..]); Pieces(t[..i], true, t[i + 1..])
  }

  /** Cut at the last b. */
  function CutLast(t: Bytes, b: byte): (c: Pieces)
    ensures t == c.before + Marked(c.found, b, c.after)
    ensures b !in c.after && (c.found <==> b in t) && (!c.found ==> c.before == t && c.after == [])
  {
    if t == [] then Pieces([], false, [])
    else
      var n := |t| - 1;
      assert t == t[..n] + [t[n]];
      if t[n] == b then Pieces(t[..n], true, [])
      else
        var c := CutLast(t[..n], b);
        if c.found then
          assert t == c.before + ([b] + (c.after + [t[n]]));
          Pieces(c.before, true, c.after + [t[n]])
        else Pieces(t, false, [])
  }

  // ---- the splitter ----

  predicate IsDelimiter(c: byte) { c == SLASH || c == QUESTION || c == HASH }

  /** Where the authority ends: at the first of / ? #, or at the end. */
  function AuthorityEnd(t: Bytes): (i: nat)
    ensures i <= |t|
    ensures forall j :: 0 <= j < i ==> !IsDelimiter(t[j])
    ensures i < |t| ==> IsDelimiter(t[i])
  {
    if t == [] || IsDelimiter(t[0]) then 0 else 1 + AuthorityEnd(t[1..])
  }

  function SplitTail(t: Bytes): Tail {
    var f := CutFirst(t, HASH);
    var q := CutFirst(f.before, QUESTION);
    Tail(q.before, q.found, q.after, f.found, f.after)
  }

  function SplitAuthority(t: Bytes): Option<Authority> {
    var at := CutLast(t, AT);
    SplitHost(at.found, if at.found then at.after else t)
  }

  function SplitHost(user: bool, t: Bytes): Option<Authority> {
    if t != [] && t[0] == LBRACKET then SplitBracketed(user, CutFirst(t, RBRACKET))
    else
      var c := CutLast(t, COLON);
      Some(Authority(user, c.before, c.found, c.after))
  }

  function SplitBracketed(user: bool, c: Pieces): Option<Authority> {
    if !c.found then None
    else if c.after == [] then Some(Authority(user, c.before + [RBRACKET], false, []))
    else if c.after[0] != COLON then None
    else Some(Authority(user, c.before + [RBRACKET], true, c.after[1..]))
  }

  function SplitUrl(s: Bytes): Option<UrlParts> {
    var c := CutFirst(s, COLON);
    if !c.found || !IsSchemeToken(c.before) then None
    else if !(SLASHES <= c.after) then None
    else
      var rest := c.after[2..];
      var end := AuthorityEnd(rest);
      var authority :- SplitAuthority(rest[..end]);
      Some(UrlParts(c.before, authority, SplitTail(rest[end..])))
  }

  // ---- putting the parts back ----

  function AuthorityText(a: Authority): Bytes { a.host + Marked(a.hasPort, COLON, a.port) }

  function TailText(t: Tail): Bytes {
    t.path + (Marked(t.hasQuery, QUESTION, t.query) + Marked(t.hasFragment, HASH, t.fragment))
  }

  function UrlTextOf(p: UrlParts): Bytes {
    p.scheme + ([COLON] + (SLASHES + (AuthorityText(p.authority) + TailText(p.tail))))
  }

  lemma TailRejoins(t: Bytes)
    ensures TailText(SplitTail(t)) == t
  {
    hide CutFirst, Marked;
    var p := SplitTail(t);
    Assoc(p.path, Marked(p.hasQuery, QUESTION, p.query), Marked(p.hasFragment, HASH, p.fragment));
  }

  lemma HostRejoins(user: bool, t: Bytes)
    requires SplitHost(user, t).Some?
    ensures AuthorityText(SplitHost(user, t).value) == t
  {
    hide CutFirst, CutLast;
    if t != [] && t[0] == LBRACKET {
      var c := CutFirst(t, RBRACKET);
      Assoc(c.before, [RBRACKET], c.after);
      assert c.after != [] ==> c.after == [c.after[0]] + c.after[1..];
      assert c.before + [RBRACKET] + [] == c.before + [RBRACKET];
    }
  }

  lemma AuthorityRejoins(t: Bytes)
    requires SplitAuthority(t).Some? && !SplitAuthority(t).value.hasUserinfo
    ensures AuthorityText(SplitAuthority(t).value) == t && AT !in t
  {
    hide CutLast, AuthorityText, SplitHost;
    NoUserinfo(t);
    HostRejoins(false, t);
  }

  lemma NoUserinfo(t: Bytes)
    requires SplitAuthority(t).Some? && !SplitAuthority(t).value.hasUserinfo
    ensures AT !in t && SplitAuthority(t) == SplitHost(false, t)
  {
    hide CutLast, CutFirst;
  }

  /** Splitting a URL without credentials and joining the parts gives it back. */
  lemma UrlRejoins(s: Bytes)
    requires SplitUrl(s).Some? && !SplitUrl(s).value.authority.hasUserinfo
    ensures UrlTextOf(SplitUrl(s).value) == s
  {
    hide SplitAuthority, SplitTail, AuthorityText, TailText, IsSchemeToken, CutFirst;
    var c := CutFirst(s, COLON);
    var rest := c.after[2..];
    var end := AuthorityEnd(rest);
    AuthorityRejoins(rest[..end]);
    TailRejoins(rest[end..]);
    Halves(rest, end);
    Halves(c.after, 2);
    assert c.after[..2] == SLASHES;
    assert s == c.before + ([COLON] + (SLASHES + rest));
  }

  // ---- splitting what was joined ----

  lemma {:induction false} CutFirstMarked(a: Bytes, b: byte, rest: Bytes)
    requires b !in a
    ensures CutFirst(a + ([b] + rest), b) == Pieces(a, true, rest)
  {
    var t := a + ([b] + rest);
    IndexOfFirst(a, b, rest);
    assert t[..|a|] == a && t[|a| + 1..] == rest;
  }

  lemma CutFirstAbsent(t: Bytes, b: byte)
    requires b !in t
    ensures CutFirst(t, b) == Pieces(t, false, [])
  {
  }

  lemma CutLastSnoc(t: Bytes, x: byte, b: byte)
    requires x != b
    ensures var c := CutLast(t, b);
            CutLast(t + [x], b) == if c.found then Pieces(c.before, true, c.after + [x]) else Pieces(t + [x], false, [])
  {
    assert (t + [x])[..|t|] == t;
  }

  lemma CutLastEnd(a: Bytes, b: byte)
    ensures CutLast(a + [b], b) == Pieces(a, true, [])
  {
    assert (a + [b])[..|a|] == a;
  }

  lemma {:induction false} CutLastMarked(a: Bytes, b: byte, rest: Bytes)
    requires b !in rest
    ensures CutLast(a + ([b] + rest), b) == Pieces(a, true, rest)
    decreases |rest|
  {
    hide CutLast;
    if rest == [] {
      assert [b] + rest == [b];
      CutLastEnd(a, b);
    } else {
      var front, x := rest[..|rest| - 1], rest[|rest| - 1];
      CutLastMarked(a, b, front);
      CutLastSnoc(a + ([b] + front), x, b);
      assert rest == front + [x];
      Assoc([b], front, [x]);
      Assoc(a, [b] + front, [x]);
    }
  }

  lemma CutLastAbsent(t: Bytes, b: byte)
    requires b !in t
    ensures CutLast(t, b) == Pieces(t, false, [])
  {
  }

  lemma {:induction false} AuthorityEndAt(a: Bytes, t: Bytes)
    requires forall i :: 0 <= i < |a| ==> !IsDelimiter(a[i])
    requires t == [] || IsDelimiter(t[0])
    ensures AuthorityEnd(a + t) == |a|
  {
    if a == [] {
      assert a + t == t;
    } else {
      AuthorityEndAt(a[1..], t);
      assert (a + t)[1..] == a[1..] + t;
    }
  }

  /** scheme://authority tail splits into those three texts. */
  lemma SplitJoined(scheme: Bytes, authority: Bytes, tail: Bytes)
    requires IsSchemeToken(scheme) && COLON !in scheme
    requires forall i :: 0 <= i < |authority| ==> !IsDelimiter(authority[i])
    requires tail == [] || IsDelimiter(tail[0])
    ensures var a := SplitAuthority(authority);
            SplitUrl(scheme + ([COLON] + (SLASHES + (authority + tail))))
            == if a.None? then None else Some(UrlParts(scheme, a.value, SplitTail(tail)))
  {
    hide SplitAuthority, SplitTail, IsSchemeToken, CutFirst;
    var rest := authority + tail;
    CutFirstMarked(scheme, COLON, SLASHES + rest);
    Cut(SLASHES, rest);
    AuthorityEndAt(authority, tail);
    Cut(authority, tail);
  }

  // ---- appending to the path ----

  lemma TailAppended(t: Bytes, id: Bytes)
    requires QUESTION !in id && HASH !in id
    requires !SplitTail(t).hasQuery && !SplitTail(t).hasFragment
    ensures SplitTail(t) == Tail(t, false, [], false, []) && SplitTail(t + id) == Tail(t + id, false, [], false, [])
  {
    hide CutFirst;
    CutFirstAbsent(t, HASH);
    CutFirstAbsent(t, QUESTION);
    CutFirstAbsent(t + id, HASH);
    CutFirstAbsent(t + id, QUESTION);
  }

  /** Text without ? or # appended to a URL that ends in its path extends the
      path and changes nothing else. */
  lemma SplitAppended(s: Bytes, id: Bytes)
    requires SplitUrl(s).Some? && QUESTION !in id && HASH !in id
    requires var t := SplitUrl(s).value.tail; t.path != [] && !t.hasQuery && !t.hasFragment
    ensures var p := SplitUrl(s).value;
            SplitUrl(s + id) == Some(p.(tail := p.tail.(path := p.tail.path + id)))
  {
    hide SplitUrl, SplitAuthority, IsSchemeToken, SplitTail;
    var scheme, authority, tail := UrlShape(s);
    TailAppended(tail, id);
    Regroup(scheme, authority, tail, id);
    SplitJoined(scheme, authority, tail + id);
  }

  /** The three texts a URL that splits is made of. */
  lemma UrlShape(s: Bytes) returns (scheme: Bytes, authority: Bytes, tail: Bytes)
    requires SplitUrl(s).Some?
    ensures s == scheme + ([COLON] + (SLASHES + (authority + tail)))
    ensures IsSchemeToken(scheme) && COLON !in scheme && (forall i :: 0 <= i < |authority| ==> !IsDelimiter(authority[i]))
    ensures tail != [] ==> IsDelimiter(tail[0])
    ensures SplitAuthority(authority).Some? && SplitUrl(s).value == UrlParts(scheme, SplitAuthority(authority).value, SplitTail(tail))
  {
    hide SplitAuthority, IsSchemeToken, CutFirst, SplitTail;
    var c := CutFirst(s, COLON);
    var rest := c.after[2..];
    var end := AuthorityEnd(rest);
    scheme, authority, tail := c.before, rest[..end], rest[end..];
    Halves(rest, end);
    Halves(c.after, 2);
    assert c.after[..2] == SLASHES;
  }

  lemma Regroup(scheme: Bytes, authority: Bytes, tail: Bytes, id: Bytes)
    ensures scheme + ([COLON] + (SLASHES + (authority + tail))) + id
         == scheme + ([COLON] + (SLASHES + (authority + (tail + id))))
  {
    Assoc(scheme, [COLON] + (SLASHES + (authority + tail)), id);
    Assoc([COLON], SLASHES + (authority + tail), id);
    Assoc(SLASHES, authority + tail, id);
    Assoc(authority, tail, id);
  }
}
