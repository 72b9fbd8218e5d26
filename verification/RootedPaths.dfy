/** Paths under a kind's fixed root, and the Resource URLs made of them. */
module RootedPaths {
  import opened Utf8
  import opened Wrappers
  import opened Splitting
  import opened Segments
  import opened ResourceIds

  const BEADS: Bytes := [0x62, 0x65, 0x61, 0x64, 0x73]
  const LINKS: Bytes := [0x6C, 0x69, 0x6E, 0x6B, 0x73]
  const BEAD: Bytes := [0x62, 0x65, 0x61, 0x64]
  const LINK: Bytes := [0x6C, 0x69, 0x6E, 0x6B]

  /** A root segment followed by one or more canonical segments. */
  predicate RootedPath(root: Bytes, path: Bytes) {
    var parts := Split(path, SLASH);
    && QUESTION !in path && HASH !in path && parts[0] == root && |parts| >= 2
    && forall i :: 1 <= i < |parts| ==> CanonicalSegment(parts[i])
  }

  predicate ValidKind(kind: Bytes) { kind == BEAD || kind == LINK }

  function RootOf(kind: Bytes): Bytes { if kind == BEAD then BEADS else LINKS }

  predicate ValidPath(kind: Bytes, path: Bytes) { ValidKind(kind) && RootedPath(RootOf(kind), path) }

  /** A rooted path is its root, a slash and a canonical ID, and nothing else. */
  lemma RootedMeans(root: Bytes, path: Bytes, id: Bytes)
    requires SLASH !in root && QUESTION !in root && HASH !in root && path == root + ([SLASH] + id)
    ensures RootedPath(root, path) <==> CanonicalId(id)
  {
    hide CanonicalSegment;
    SplitFirst(root, SLASH, id);
    var parts, ids := Split(path, SLASH), Split(id, SLASH);
    assert forall i :: 0 <= i < |ids| ==> ids[i] == parts[i + 1];
    if CanonicalId(id) { IdBytes(id); }
  }

  lemma RootedHasId(root: Bytes, path: Bytes) returns (id: Bytes)
    requires RootedPath(root, path)
    ensures path == root + ([SLASH] + id) && SLASH !in root
  {
    hide CanonicalSegment;
    var i := IndexOf(path, SLASH);
    assert i < |path|;
    id := path[i + 1..];
    assert path == path[..i] + ([SLASH] + id);
  }

  lemma RootedAscii(root: Bytes, path: Bytes)
    requires RootedPath(root, path) && IsAscii(root) && QUESTION !in root && HASH !in root
    ensures IsAscii(path)
  {
    hide CanonicalSegment, RootedPath, CanonicalId;
    var id := RootedHasId(root, path);
    RootedMeans(root, path, id);
    IdBytes(id);
  }

  // ---- Resource URLs ----

  /** The path and kind of a URL of this Scope. */
  function SplitCanonicalUrl(scope: Bytes, url: Bytes): Option<(Bytes, Bytes)> {
    if !(scope <= url) then None
    else
      var path := url[|scope|..];
      if RootedPath(BEADS, path) then Some((path, BEAD))
      else if RootedPath(LINKS, path) then Some((path, LINK))
      else None
  }

  /** Splitting is the inverse of joining: the spelling alone decides path and
      kind. */
  lemma SplitCanonicalInverse(scope: Bytes, url: Bytes, path: Bytes, kind: Bytes)
    ensures SplitCanonicalUrl(scope, url) == Some((path, kind)) <==> url == scope + path && ValidPath(kind, path)
  {
    hide CanonicalSegment;
    assert scope <= url ==> url == scope + url[|scope|..];
    if url == scope + path { assert url[|scope|..] == path; }
    assert BEADS[0] != LINKS[0];
  }
}
