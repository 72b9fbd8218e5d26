/** Ledger admission, member by member, and what a lineage stands for. */
module Admission {
  import opened Utf8
  import opened Wrappers
  import opened Strings
  import opened Sorting
  import opened Json
  import opened JsonFields
  import opened Seqs
  import opened Segments
  import opened ResourceIds
  import opened UrlText
  import opened Hosts
  import opened ScopeUrls
  import opened RootedPaths
  import opened Ledger

  /** The kinds whose events name a Scope URL, and those that name a Resource. */
  predicate NamesUrl(kind: Bytes) { kind == Text("mint") || kind == Text("rotate") || kind == Text("refuse_url") }

  predicate NamesResource(kind: Bytes) { kind == Text("update") || kind == Text("allocate") || kind == Text("tombstone") }

  predicate IsKind(kind: Bytes) {
    NamesUrl(kind) || NamesResource(kind) || kind == Text("install") || kind == Text("promote")
  }

  /** The members an event of this kind carries. */
  predicate CarriesItsMembers(s: Spec) {
    && (s.scopeUrl != [] <==> NamesUrl(s.kind))
    && (s.path != [] <==> NamesResource(s.kind))
    && (s.resourceKind != [] <==> NamesResource(s.kind))
    && (s.fingerprint != [] <==> s.kind == Text("install"))
    && (s.state != [] <==> s.kind == Text("tombstone"))
    && (s.kind == Text("update") ==> s.revision != [])
    && (s.revision != [] ==> NamesResource(s.kind))
  }

  /** What every event must have. */
  predicate CommonLaws(s: Spec) {
    && 1 <= s.seqNo <= 18446744073709551614 && s.at != 0
    && IsHexText(s.opId, 32) && IsHexText(s.authorityId, 32) && IsHexText(s.prevHash, 64)
  }

  predicate IsHexText(t: Bytes, n: nat) { |t| == n && forall i :: 0 <= i < n ==> t[i] as char in "0123456789abcdef" }

  /** The members that are present, each in its own grammar. */
  ghost predicate MembersSpelled(w: World, s: Spec) {
    && (s.scopeUrl != [] ==> PersistedScopeUrl(w.parse, s.scopeUrl))
    && (s.resourceKind != [] ==> s.resourceKind == Text("bead") || s.resourceKind == Text("link"))
    && (s.path != [] ==> PathOf(s.resourceKind, s.path))
    && (s.state != [] ==> s.state == Text("pruned") || s.state == Text("erased"))
    && (s.fingerprint != [] ==> IsHexText(s.fingerprint, 64))
  }

  /** A Bead's path is a canonical ID under beads, a Link's one under links. */
  ghost predicate PathOf(kind: Bytes, path: Bytes) {
    exists id :: CanonicalId(id) && ((kind == Text("bead") && path == Text("beads/") + id)
                                     || (kind == Text("link") && path == Text("links/") + id))
  }

  lemma HexTextIs(t: Bytes, n: nat)
    ensures IsLowerHex(t, n) <==> IsHexText(t, n)
  {
    forall c: byte ensures IsLowerHexByte(c) <==> c as char in "0123456789abcdef" { HexLetter(c); }
  }

  lemma HexLetter(c: byte)
    ensures IsLowerHexByte(c) <==> c as char in "0123456789abcdef"
  {
  }

  lemma MembersAre(w: World, s: Spec)
    ensures MembersValid(w, s) <==> MembersSpelled(w, s)
  {
    hide Text, PersistedScopeUrl, ValidPath, PathOf, IsLowerHex, IsHexText;
    RootTexts();
    PathsAre(s.resourceKind, s.path);
    HexTextIs(s.fingerprint, 64);
  }

  lemma KindLengths()
    ensures |Text("mint")| == 4 && |Text("rotate")| == 6 && |Text("refuse_url")| == 10 && |Text("install")| == 7
    ensures |Text("update")| == 6 && |Text("promote")| == 7 && |Text("allocate")| == 8 && |Text("tombstone")| == 9
    ensures Text("rotate")[0] == 0x72 && Text("update")[0] == 0x75 && Text("install")[0] == 0x69 && Text("promote")[0] == 0x70
  {
  }

  lemma KindsAre(kind: Bytes)
    ensures ShapeOf(kind).Some? <==> IsKind(kind)
  {
    hide Text;
  }

  lemma FitsMeans(s: Spec)
    requires ShapeOf(s.kind).Some?
    ensures Fits(s, ShapeOf(s.kind).value) <==> CarriesItsMembers(s)
  {
    hide Text;
    KindLengths();
  }

  /** An event is admitted exactly when it meets the common laws, carries the
      members of its kind, each in its own grammar, and a hash it brings along
      is that of its bytes. */
  lemma AdmittedExactly(w: World, s: Spec)
    ensures NewLedgerEvent(w, s).Some?
       <==> IsKind(s.kind) && CommonLaws(s) && CarriesItsMembers(s) && MembersSpelled(w, s)
            && (s.hash == [] || s.hash == w.hash(HashedBytes(w, s)))
  {
    hide Text, ShapeOf, Fits, IsKind, CarriesItsMembers, MembersValid, MembersSpelled, IsLowerHex, IsHexText, HashedBytes;
    KindsAre(s.kind);
    MembersAre(w, s);
    HexTextIs(s.opId, 32);
    HexTextIs(s.authorityId, 32);
    HexTextIs(s.prevHash, 64);
    if ShapeOf(s.kind).Some? { FitsMeans(s); }
  }

  lemma PathsAre(kind: Bytes, path: Bytes)
    ensures ValidPath(kind, path) <==> PathOf(kind, path)
  {
    hide CanonicalId, RootedPath;
    RootTexts();
    if ValidPath(kind, path) {
      var id := RootedHasId(RootOf(kind), path);
      RootedMeans(RootOf(kind), path, id);
      Assoc(RootOf(kind), [SLASH], id);
    }
    if id :| CanonicalId(id) && ((kind == Text("bead") && path == Text("beads/") + id)
                                 || (kind == Text("link") && path == Text("links/") + id)) {
      Assoc(RootOf(kind), [SLASH], id);
      RootedMeans(RootOf(kind), path, id);
    }
  }

  lemma RootTexts()
    ensures BEAD == Text("bead") && LINK == Text("link") && BEAD != LINK
    ensures Text("beads/") == BEADS + [SLASH] && Text("links/") == LINKS + [SLASH]
    ensures SLASH !in BEADS && QUESTION !in BEADS && HASH !in BEADS && SLASH !in LINKS && QUESTION !in LINKS && HASH !in LINKS
  {
    assert BEAD[0] != LINK[0];
  }

  /** A Scope URL may be persisted unless its path begins with local-test. */
  lemma PersistedMeans(parse: AddressParser, s: Bytes)
    requires ScopeUrl(parse, s)
    ensures PersistedScopeUrl(parse, s) <==> !(Text("/local-test/") <= SplitUrl(s).value.tail.path)
  {
    hide Text, CanonicalUrl, ScopePath, SplitUrl;
    LocalTestText();
  }

  lemma LocalTestText()
    ensures Text("/local-test/") == LOCAL_TEST
  {
  }

  // ---- the wire object ----

  function TextMember(t: Bytes): Option<Value> { if t == [] then None else Some(VStr(t)) }

  /** The member an event's wire object has under a name. */
  function WireMember(w: World, s: Spec, k: Bytes): Option<Value> { Lookup(SlotMap(Ledger.Slots(w, s)), k) }

  /** The hashed bytes are the canonical text of that object. */
  lemma WireObject(w: World, s: Spec)
    ensures HashedBytes(w, s) == Canon(Obj(Present(Ledger.Slots(w, s))))
    ensures Denote(Obj(Present(Ledger.Slots(w, s)))) == VObj(SlotMap(Ledger.Slots(w, s)))
  {
    hide Canon, Present, SlotMap, Ledger.Slots;
    SlotMapDenotes(Ledger.Slots(w, s));
    ObjectDenotes(Present(Ledger.Slots(w, s)));
  }

  /** The texts every event carries, each under its own name, the instant to the
      microsecond. */
  lemma WireTexts(w: World, s: Spec)
    ensures WireMember(w, s, Text("at")) == Some(VStr(w.format(s.at / 1000)))
    ensures WireMember(w, s, Text("authority_id")) == Some(VStr(s.authorityId))
    ensures WireMember(w, s, Text("kind")) == Some(VStr(s.kind))
    ensures WireMember(w, s, Text("op_id")) == Some(VStr(s.opId))
    ensures WireMember(w, s, Text("prev_hash")) == Some(VStr(s.prevHash))
  {
    hide Text, SlotMap, Denote, DistinctSlots, Integer, Optional;
    var slots := Ledger.Slots(w, s);
    Ledger.SlotsDistinct(w, s);
    SlotLookup(slots, 0);
    SlotLookup(slots, 1);
    SlotLookup(slots, 4);
    SlotLookup(slots, 5);
    SlotLookup(slots, 7);
    StringsDenote();
  }

  /** The two counters, as numbers. */
  lemma WireCounters(w: World, s: Spec)
    ensures WireMember(w, s, Text("epoch")) == Some(VNum(s.epoch as real))
    ensures WireMember(w, s, Text("seq")) == Some(VNum(s.seqNo as real))
  {
    hide Text, SlotMap, Denote, DistinctSlots, Integer, Optional;
    var slots := Ledger.Slots(w, s);
    Ledger.SlotsDistinct(w, s);
    SlotLookup(slots, 2);
    SlotLookup(slots, 11);
    IntegerValue(s.epoch);
    IntegerValue(s.seqNo);
  }

  lemma ObjectDenotes(ms: seq<(Bytes, Doc)>)
    ensures Denote(Obj(ms)) == VObj(ToMap(DenoteMembers(ms)))
  {
  }

  lemma StringsDenote()
    ensures forall t: Bytes :: Denote(Str(t)) == VStr(t)
  {
  }

  /** The texts an event may carry; an absent one is no member. */
  lemma WireOptionals(w: World, s: Spec)
    ensures WireMember(w, s, Text("fingerprint")) == TextMember(s.fingerprint)
    ensures WireMember(w, s, Text("path")) == TextMember(s.path)
    ensures WireMember(w, s, Text("resource_kind")) == TextMember(s.resourceKind)
    ensures WireMember(w, s, Text("revision")) == TextMember(s.revision)
    ensures WireMember(w, s, Text("scope_url")) == TextMember(s.scopeUrl)
    ensures WireMember(w, s, Text("state")) == TextMember(s.state)
  {
    hide Text, SlotMap, Denote, DistinctSlots, Integer, Optional, Meaning;
    var slots := Ledger.Slots(w, s);
    Ledger.SlotsDistinct(w, s);
    SlotLookup(slots, 3);
    SlotLookup(slots, 6);
    SlotLookup(slots, 8);
    SlotLookup(slots, 9);
    SlotLookup(slots, 10);
    SlotLookup(slots, 12);
    OptionalDenotes(s.fingerprint);
    OptionalDenotes(s.path);
    OptionalDenotes(s.resourceKind);
    OptionalDenotes(s.revision);
    OptionalDenotes(s.scopeUrl);
    OptionalDenotes(s.state);
  }

  // ---- lineage ----

  /** Sixty-four zeros. */
  predicate AllZeros(h: Bytes) { h == seq(64, _ => '0' as int % 128) }

  /** Histories from the beginning whose manifests name one lineage begin with
      the same event, the one that minted the Scope's URL. */
  lemma LineageMeans(w: World, m: Manifest, n: Manifest, a: seq<Event>, b: seq<Event>)
    requires Sane(w) && AllGenuine(w, a) && AllGenuine(w, b) && CollisionFree(w, a, b)
    requires m.Covers(a) && n.Covers(b) && AllZeros(m.prevHash) && AllZeros(n.prevHash) && m.lineage == n.lineage
    ensures a[0] == b[0] && a[0].spec.kind == Text("mint") && a[0].spec.hash == m.lineage
    ensures a[0].spec.scopeUrl != [] && PersistedScopeUrl(w.parse, a[0].spec.scopeUrl)
  {
    hide Genuine, Verified, Text, PersistedScopeUrl, CarriesItsMembers;
    FirstOf(w, a, b);
    MintNamesUrl(w, a[0]);
  }

  lemma FirstOf(w: World, a: seq<Event>, b: seq<Event>)
    requires Sane(w) && AllGenuine(w, a) && AllGenuine(w, b) && CollisionFree(w, a, b) && a != [] && b != []
    requires a[0].spec.hash == b[0].spec.hash
    ensures Genuine(w, a[0]) && a[0] == b[0]
  {
    hide Genuine, Sane, IsLowerHex;
    assert Genuine(w, a[0]) && Genuine(w, b[0]);
    GenuineMeans(w, a[0]);
    GenuineMeans(w, b[0]);
    SameHashSameEvent(w, a[0], b[0]);
  }

  lemma MintNamesUrl(w: World, e: Event)
    requires Genuine(w, e) && e.spec.kind == Text("mint")
    ensures e.spec.scopeUrl != [] && PersistedScopeUrl(w.parse, e.spec.scopeUrl)
  {
    hide Text, PersistedScopeUrl, HashedBytes, IsLowerHex, ShapeOf, Fits;
    var s: Spec :| s.Typed() && NewLedgerEvent(w, s) == Some(e);
    AdmittedExactly(w, s);
  }

  /** The covered events begin with the mint event and hash the lineage exactly
      where the manifest starts at the beginning. */
  lemma CoversMeans(m: Manifest, events: seq<Event>)
    ensures m.Covers(events)
       <==> events != [] && events[0].spec.seqNo == m.firstSeq && |events| == m.lastSeq - m.firstSeq + 1
            && Verified(m.prevHash, events) && Head(m.prevHash, events) == m.headHash
            && (AllZeros(m.prevHash) ==> events[0].spec.kind == Text("mint") && events[0].spec.hash == m.lineage)
  {
    hide Verified, Text;
    assert IsGenesis(m.prevHash) <==> AllZeros(m.prevHash);
  }

  /** A manifest that covers constructed events, names a URL that may be persisted
      and a lineage in hexadecimal is valid, one event or more. */
  lemma CoveringIsValid(w: World, m: Manifest, events: seq<Event>)
    requires Sane(w) && AllGenuine(w, events) && m.Covers(events)
    ensures m.Valid(w) <==> PersistedScopeUrl(w.parse, m.scopeUrl) && IsHexText(m.lineage, 64)
  {
    hide Genuine, Text, PersistedScopeUrl, IsLowerHex, IsHexText, Sane, Linked;
    var n := |events| - 1;
    HexTextIs(m.lineage, 64);
    SequenceRuns(m.prevHash, events, n);
    FirstNumber(m.prevHash, events);
    assert Genuine(w, events[n]);
    GenuineMeans(w, events[n]);
  }

  lemma FirstNumber(prevHash: Bytes, events: seq<Event>)
    requires Verified(prevHash, events) && events != []
    ensures events[0].spec.seqNo >= 1 && IsLowerHex(prevHash, 64)
  {
    assert Linked(prevHash, events, 0);
  }
}
