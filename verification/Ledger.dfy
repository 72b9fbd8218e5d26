/** The hash-chained ledger: admission of an event, the bytes its hash covers,
    chains, and the manifests that describe a range. */
module Ledger {
  import opened Utf8
  import opened Wrappers
  import opened Numbers
  import opened NumberText
  import opened Strings
  import opened Json
  import opened JsonFields
  import opened JsonLaws
  import opened Hosts
  import opened ScopeUrls
  import opened RootedPaths

  /** What the ledger takes from libraries: the IPv6 parser, SHA-256 in hex, and
      the text of an instant counted in microseconds. */
  datatype World = World(parse: AddressParser, hash: Bytes -> Bytes, format: int -> Bytes)

  predicate IsLowerHex(s: Bytes, n: nat) { |s| == n && forall i :: 0 <= i < n ==> IsLowerHexByte(s[i]) }

  ghost predicate Sane(w: World) {
    && (forall t :: IsLowerHex(w.hash(t), 64))
    && (forall x :: Valid(w.format(x)))
    && forall x, y :: w.format(x) == w.format(y) ==> x == y
  }

  const EXACT: Rules := Rules(true, (x: real) => true)
  const MAX_SEQ: nat := 0xFFFF_FFFF_FFFF_FFFE
  const UINT64: nat := 0x1_0000_0000_0000_0000

  // ---- events ----

  /** Absent texts are empty; the instant counts nanoseconds from the zero
      time. */
  datatype Spec = Spec(seqNo: nat, kind: Bytes, opId: Bytes, path: Bytes, scopeUrl: Bytes, resourceKind: Bytes,
                       revision: Bytes, state: Bytes, fingerprint: Bytes, authorityId: Bytes, epoch: nat, at: int,
                       prevHash: Bytes, hash: Bytes)
  {
    /** The source's field types: 64-bit counters, a revision of valid UTF-8. */
    predicate Typed() { seqNo < UINT64 && epoch < UINT64 && Valid(revision) }
  }

  datatype Event = Event(spec: Spec, canonical: Bytes)

  datatype Members = Members(path: bool, scopeUrl: bool, resourceKind: bool, revision: bool, state: bool, fingerprint: bool)

  datatype Shape = Shape(required: Members, allowed: Members)

  const NONE: Members := Members(false, false, false, false, false, false)

  function ShapeOf(kind: Bytes): Option<Shape> {
    var url := NONE.(scopeUrl := true);
    var place := NONE.(path := true, resourceKind := true);
    if kind == Text("mint") || kind == Text("rotate") || kind == Text("refuse_url") then Some(Shape(url, url))
    else if kind == Text("install") then Some(Shape(NONE.(fingerprint := true), NONE.(fingerprint := true)))
    else if kind == Text("update") then Some(Shape(place.(revision := true), place.(revision := true)))
    else if kind == Text("promote") then Some(Shape(NONE, NONE))
    else if kind == Text("allocate") then Some(Shape(place, place.(revision := true)))
    else if kind == Text("tombstone") then Some(Shape(place.(state := true), place.(state := true, revision := true)))
    else None
  }

  predicate Allows(present: bool, required: bool, allowed: bool) { (required ==> present) && (present ==> allowed) }

  predicate Fits(s: Spec, shape: Shape) {
    && Allows(s.path != [], shape.required.path, shape.allowed.path)
    && Allows(s.scopeUrl != [], shape.required.scopeUrl, shape.allowed.scopeUrl)
    && Allows(s.resourceKind != [], shape.required.resourceKind, shape.allowed.resourceKind)
    && Allows(s.revision != [], shape.required.revision, shape.allowed.revision)
    && Allows(s.state != [], shape.required.state, shape.allowed.state)
    && Allows(s.fingerprint != [], shape.required.fingerprint, shape.allowed.fingerprint)
  }

  /** The members that are present obey their own grammars. */
  predicate MembersValid(w: World, s: Spec) {
    && (s.scopeUrl != [] ==> PersistedScopeUrl(w.parse, s.scopeUrl))
    && (s.resourceKind != [] ==> ValidKind(s.resourceKind))
    && (s.path != [] ==> ValidPath(s.resourceKind, s.path))
    && (s.state != [] ==> s.state == Text("pruned") || s.state == Text("erased"))
    && (s.fingerprint != [] ==> IsLowerHex(s.fingerprint, 64))
  }

  predicate Admissible(w: World, s: Spec) {
    && ShapeOf(s.kind).Some? && 1 <= s.seqNo <= MAX_SEQ
    && IsLowerHex(s.opId, 32) && IsLowerHex(s.authorityId, 32) && s.at != 0 && IsLowerHex(s.prevHash, 64)
    && Fits(s, ShapeOf(s.kind).value) && MembersValid(w, s)
  }

  // ---- the hashed bytes ----

  function Micros(at: int): int { at / 1000 }

  function Slots(w: World, s: Spec): (slots: seq<Slot>)
    ensures |slots| == 13
  {
    [(Text("at"), Some(Str(w.format(Micros(s.at))))),
     (Text("authority_id"), Some(Str(s.authorityId))),
     (Text("epoch"), Some(Integer(s.epoch))),
     (Text("fingerprint"), Optional(s.fingerprint)),
     (Text("kind"), Some(Str(s.kind))),
     (Text("op_id"), Some(Str(s.opId))),
     (Text("path"), Optional(s.path)),
     (Text("prev_hash"), Some(Str(s.prevHash))),
     (Text("resource_kind"), Optional(s.resourceKind)),
     (Text("revision"), Optional(s.revision)),
     (Text("scope_url"), Optional(s.scopeUrl)),
     (Text("seq"), Some(Integer(s.seqNo))),
     (Text("state"), Optional(s.state))]
  }

  function HashedBytes(w: World, s: Spec): Bytes { Canon(Obj(Present(Slots(w, s)))) }

  function NewLedgerEvent(w: World, s: Spec): Option<Event> {
    if !Admissible(w, s) then None
    else
      var canonical := HashedBytes(w, s);
      var hash := w.hash(canonical);
      if s.hash != [] && s.hash != hash then None
      else Some(Event(s.(at := Micros(s.at) * 1000, hash := hash), canonical))
  }

  /** An event the constructor built. */
  ghost predicate Genuine(w: World, e: Event) {
    exists s: Spec :: s.Typed() && NewLedgerEvent(w, s) == Some(e)
  }

  // ---- the bytes determine the event ----

  lemma RanksFirst()
    ensures Rank(Text("at")) == 609 && Rank(Text("authority_id")) == 3169 && Rank(Text("epoch")) == 1381
    ensures Rank(Text("fingerprint")) == 2918 && Rank(Text("kind")) == 1131 && Rank(Text("op_id")) == 1391
  {
  }

  lemma RanksLast()
    ensures Rank(Text("path")) == 1136 && Rank(Text("prev_hash")) == 2416 && Rank(Text("resource_kind")) == 3442
    ensures Rank(Text("revision")) == 2162 && Rank(Text("scope_url")) == 2419 && Rank(Text("seq")) == 883 && Rank(Text("state")) == 1395
  {
  }

  lemma Ranks(w: World, s: Spec)
    ensures var t := Slots(w, s);
            && Rank(t[0].0) == 609 && Rank(t[1].0) == 3169 && Rank(t[2].0) == 1381 && Rank(t[3].0) == 2918
            && Rank(t[4].0) == 1131 && Rank(t[5].0) == 1391 && Rank(t[6].0) == 1136 && Rank(t[7].0) == 2416
            && Rank(t[8].0) == 3442 && Rank(t[9].0) == 2162 && Rank(t[10].0) == 2419 && Rank(t[11].0) == 883
            && Rank(t[12].0) == 1395
  {
    hide Integer, Optional, Text, Rank;
    RanksFirst();
    RanksLast();
  }

  lemma SlotsDistinct(w: World, s: Spec)
    ensures DistinctSlots(Slots(w, s))
  {
    hide Slots, Rank;
    var t := Slots(w, s);
    Ranks(w, s);
    var r := [609, 3169, 1381, 2918, 1131, 1391, 1136, 2416, 3442, 2162, 2419, 883, 1395];
    assert forall i :: 0 <= i < 13 ==> Rank(t[i].0) == r[i];
    assert forall i, j :: 0 <= i < j < 13 ==> r[i] != r[j];
    assert forall i, j :: 0 <= i < j < 13 ==> t[i].0 != t[j].0;
    DistinctFromPairs(t);
  }

  lemma HexAscii(s: Bytes, n: nat)
    requires IsLowerHex(s, n)
    ensures Valid(s)
  {
    AsciiValid(s);
  }

  lemma ScopeUrlValid(w: World, s: Bytes)
    requires PersistedScopeUrl(w.parse, s)
    ensures Valid(s)
  {
    AsciiValid(s);
  }

  lemma PathValid(kind: Bytes, path: Bytes)
    requires ValidPath(kind, path)
    ensures Valid(path)
  {
    hide RootedPath;
    RootedAscii(RootOf(kind), path);
    AsciiValid(path);
  }

  lemma KindValid(kind: Bytes)
    requires ShapeOf(kind).Some?
    ensures Valid(kind)
  {
    hide Text, Valid;
    AsciiValid(kind);
  }

  lemma StateValid(state: Bytes)
    requires state == [] || state == Text("pruned") || state == Text("erased")
    ensures Valid(state)
  {
    hide Text, Valid;
    AsciiValid(state);
  }

  /** Every text of an admitted event is valid UTF-8. */
  lemma AdmittedTexts(w: World, s: Spec)
    requires Admissible(w, s) && s.Typed()
    ensures Valid(s.opId) && Valid(s.authorityId) && Valid(s.prevHash) && Valid(s.kind) && Valid(s.path)
    ensures Valid(s.scopeUrl) && Valid(s.resourceKind) && Valid(s.state) && Valid(s.fingerprint)
  {
    hide Text, IsLowerHex, PersistedScopeUrl, ValidPath, Fits, ShapeOf, Valid;
    AsciiValid([]);
    HexAscii(s.opId, 32);
    HexAscii(s.authorityId, 32);
    HexAscii(s.prevHash, 64);
    KindValid(s.kind);
    AsciiValid(BEAD);
    AsciiValid(LINK);
    StateValid(s.state);
    if s.path != [] { PathValid(s.resourceKind, s.path); }
    if s.scopeUrl != [] { ScopeUrlValid(w, s.scopeUrl); }
    if s.fingerprint != [] { HexAscii(s.fingerprint, 64); }
  }

  lemma NumberWellFormed(n: nat)
    requires n < UINT64
    ensures WellFormed(EXACT, 1, Integer(n))
  {
    hide Normalize, DecimalText;
    IntegerInRange(n);
  }

  lemma SlotsGood(w: World, s: Spec)
    requires Sane(w) && Admissible(w, s) && s.Typed()
    ensures SlotsWellFormed(EXACT, 1, Slots(w, s))
  {
    hide Text, Integer, Admissible, Valid;
    AdmittedTexts(w, s);
    NumberWellFormed(s.epoch);
    NumberWellFormed(s.seqNo);
    NamesValid(w, s);
  }

  lemma NamesValid(w: World, s: Spec)
    ensures forall i :: 0 <= i < 13 ==> Valid(Slots(w, s)[i].0)
  {
    hide Text, Integer, Valid;
    forall i | 0 <= i < 13 ensures Valid(Slots(w, s)[i].0) { AsciiValid(Slots(w, s)[i].0); }
  }

  lemma OptionalDetermines(a: Bytes, b: Bytes)
    requires Meaning(Optional(a)) == Meaning(Optional(b))
    ensures a == b
  {
  }

  lemma IntegerDetermines(a: nat, b: nat)
    requires Denote(Integer(a)) == Denote(Integer(b))
    ensures a == b
  {
    IntegerValue(a);
    IntegerValue(b);
  }

  /** One slot of two events whose hashed bytes agree. */
  lemma SlotAgrees(w: World, a: Spec, b: Spec, i: nat)
    requires Sane(w) && Admissible(w, a) && Admissible(w, b) && a.Typed() && b.Typed() && i < 13
    requires HashedBytes(w, a) == HashedBytes(w, b)
    ensures Meaning(Slots(w, a)[i].1) == Meaning(Slots(w, b)[i].1)
  {
    hide Sane, Admissible, SlotsWellFormed, DistinctSlots, Present, Canon;
    SlotsGood(w, a);
    SlotsGood(w, b);
    SlotsDistinct(w, a);
    SlotsDistinct(w, b);
    SameSlotNames(w, a, b);
    hide Slots, Meaning;
    TextDetermines(EXACT, 1, Slots(w, a), Slots(w, b), i);
  }

  lemma SameSlotNames(w: World, a: Spec, b: Spec)
    ensures SameNames(Slots(w, a), Slots(w, b))
  {
    hide Text, Integer, Optional;
  }

  /** What the hash covers: everything but the hash, the instant to the
      microsecond. */
  predicate SameEvent(a: Spec, b: Spec) {
    a.(hash := [], at := 0) == b.(hash := [], at := 0) && Micros(a.at) == Micros(b.at)
  }

  lemma BytesDetermine(w: World, a: Spec, b: Spec)
    requires Sane(w) && Admissible(w, a) && Admissible(w, b) && a.Typed() && b.Typed()
    ensures HashedBytes(w, a) == HashedBytes(w, b) <==> SameEvent(a, b)
  {
    hide Admissible;
    if HashedBytes(w, a) == HashedBytes(w, b) {
      TextsDetermine(w, a, b);
      OptionalsDetermine(w, a, b);
    }
    if SameEvent(a, b) { assert Slots(w, a) == Slots(w, b); }
  }

  lemma TextsDetermine(w: World, a: Spec, b: Spec)
    requires Sane(w) && Admissible(w, a) && Admissible(w, b) && a.Typed() && b.Typed()
    requires HashedBytes(w, a) == HashedBytes(w, b)
    ensures Micros(a.at) == Micros(b.at) && a.authorityId == b.authorityId && a.epoch == b.epoch && a.kind == b.kind
    ensures a.opId == b.opId && a.prevHash == b.prevHash && a.seqNo == b.seqNo
  {
    hide Text, Admissible, HashedBytes, Integer;
    SlotAgrees(w, a, b, 0);
    SlotAgrees(w, a, b, 1);
    SlotAgrees(w, a, b, 2);
    SlotAgrees(w, a, b, 4);
    SlotAgrees(w, a, b, 5);
    SlotAgrees(w, a, b, 7);
    SlotAgrees(w, a, b, 11);
    IntegerDetermines(a.epoch, b.epoch);
    IntegerDetermines(a.seqNo, b.seqNo);
  }

  lemma OptionalsDetermine(w: World, a: Spec, b: Spec)
    requires Sane(w) && Admissible(w, a) && Admissible(w, b) && a.Typed() && b.Typed()
    requires HashedBytes(w, a) == HashedBytes(w, b)
    ensures a.fingerprint == b.fingerprint && a.path == b.path && a.resourceKind == b.resourceKind
    ensures a.revision == b.revision && a.scopeUrl == b.scopeUrl && a.state == b.state
  {
    hide Text, Admissible, HashedBytes, Integer, Optional, Meaning;
    SlotAgrees(w, a, b, 3);
    OptionalDetermines(a.fingerprint, b.fingerprint);
    SlotAgrees(w, a, b, 6);
    OptionalDetermines(a.path, b.path);
    SlotAgrees(w, a, b, 8);
    OptionalDetermines(a.resourceKind, b.resourceKind);
    SlotAgrees(w, a, b, 9);
    OptionalDetermines(a.revision, b.revision);
    SlotAgrees(w, a, b, 10);
    OptionalDetermines(a.scopeUrl, b.scopeUrl);
    SlotAgrees(w, a, b, 12);
    OptionalDetermines(a.state, b.state);
  }

  /** However the encoder spells the wire object, canonicalizing it gives the
      hashed bytes. */
  lemma AnyEncoding(w: World, s: Spec, raw: Bytes)
    requires Sane(w) && Admissible(w, s) && s.Typed()
    requires Parse(EXACT, raw).Some? && Denote(Parse(EXACT, raw).value) == Denote(Obj(Present(Slots(w, s))))
    ensures Canonicalize(EXACT, raw) == Some(HashedBytes(w, s))
  {
    hide Admissible, Sane, Slots, Parse, Denote, WellFormed, Present, SlotsWellFormed, DistinctSlots, Canon;
    var d := Obj(Present(Slots(w, s)));
    SlotsGood(w, s);
    SlotsDistinct(w, s);
    ObjectWellFormed(EXACT, 1, Slots(w, s));
    RoomToSpare(EXACT, 2, d);
    ParseWellFormed(EXACT, raw);
    SameValueSameText(EXACT, MAX_DEPTH, Parse(EXACT, raw).value, d);
  }

  // ---- admission ----

  /** What the constructor builds carries the hash of its own bytes. */
  lemma GenuineMeans(w: World, e: Event)
    requires Sane(w) && Genuine(w, e)
    ensures e.canonical == HashedBytes(w, e.spec) && e.spec.hash == w.hash(e.canonical)
    ensures e.spec.Typed() && IsLowerHex(e.spec.hash, 64) && IsLowerHex(e.spec.prevHash, 64) && 1 <= e.spec.seqNo <= MAX_SEQ
  {
    hide Fits, MembersValid, IsLowerHex, HashedBytes;
    var s: Spec :| s.Typed() && NewLedgerEvent(w, s) == Some(e);
    SameBytes(w, s, e.spec);
  }

  lemma SameBytes(w: World, a: Spec, b: Spec)
    requires SameEvent(a, b)
    ensures HashedBytes(w, a) == HashedBytes(w, b)
  {
    hide Text, Integer, Optional, Canon, Present;
    assert Slots(w, a) == Slots(w, b);
  }

  /** A stored event is admitted again as it was, exactly when its instant is
      not within the first microsecond of the zero time: truncation makes that
      one the zero instant, which admission refuses. */
  lemma StoredReadmitted(w: World, s: Spec)
    requires NewLedgerEvent(w, s).Some?
    ensures var e := NewLedgerEvent(w, s).value;
            NewLedgerEvent(w, e.spec) == Some(e) <==> !(0 < s.at < 1000)
  {
    hide Fits, MembersValid, IsLowerHex, HashedBytes, ShapeOf;
    var e := NewLedgerEvent(w, s).value;
    SameBytes(w, s, e.spec);
    SameMembers(w, s, e.spec);
    assert s.at != 0;
    assert e.spec.at == 0 <==> 0 < s.at < 1000;
    assert Micros(e.spec.at) == Micros(s.at);
  }

  /** A promote event, which carries no optional member. */
  function Promotion(at: int): Spec {
    Spec(1, Text("promote"), Zeros(32), [], [], [], [], [], [], Zeros(32), 0, at, Zeros(64), [])
  }

  lemma PromotionAdmitted(w: World, at: int)
    requires at != 0
    ensures NewLedgerEvent(w, Promotion(at)).Some?
  {
    hide Zeros;
    KindsDiffer();
  }

  lemma KindsDiffer()
    ensures ShapeOf(Text("promote")) == Some(Shape(NONE, NONE))
  {
    var p := Text("promote");
    assert |p| == 7 && p[0] == 0x70;
    assert Text("install")[0] == 0x69 && |Text("mint")| == 4 && |Text("rotate")| == 6 && |Text("refuse_url")| == 10;
    assert |Text("update")| == 6;
  }

  /** One nanosecond after the zero time: admitted, and not admitted again. */
  lemma FirstInstantLost(w: World)
    ensures var e := NewLedgerEvent(w, Promotion(1)); e.Some? && NewLedgerEvent(w, e.value.spec).None?
  {
    hide Zeros, HashedBytes, Fits, MembersValid, ShapeOf;
    PromotionAdmitted(w, 1);
  }

  lemma SameMembers(w: World, a: Spec, b: Spec)
    requires SameEvent(a, b)
    ensures MembersValid(w, a) == MembersValid(w, b)
    ensures forall shape :: Fits(a, shape) == Fits(b, shape)
  {
    hide PersistedScopeUrl, ValidPath, IsLowerHex, Text;
  }

  /** A stored row changed in any member the hash covers is refused, unless the
      hash collides on the two events. */
  lemma TamperedRefused(w: World, s: Spec, row: Spec)
    requires Sane(w) && NewLedgerEvent(w, s).Some? && s.Typed() && row.Typed()
    requires row.hash == NewLedgerEvent(w, s).value.spec.hash && !SameEvent(s, row)
    requires w.hash(HashedBytes(w, s)) == w.hash(HashedBytes(w, row)) ==> HashedBytes(w, s) == HashedBytes(w, row)
    ensures NewLedgerEvent(w, row).None?
  {
    hide Admissible, SameEvent, HashedBytes;
    if Admissible(w, row) { BytesDetermine(w, s, row); }
    HashNonempty(w, s);
  }

  lemma HashNonempty(w: World, s: Spec)
    requires Sane(w)
    ensures w.hash(HashedBytes(w, s)) != []
  {
    hide HashedBytes;
    assert IsLowerHex(w.hash(HashedBytes(w, s)), 64);
  }

  // ---- chains ----

  function LinkBefore(prevHash: Bytes, events: seq<Event>, i: nat): Bytes
    requires i <= |events|
  {
    if i == 0 then prevHash else events[i - 1].spec.hash
  }

  /** The event at i links to what stands before it and counts on from it. */
  predicate Linked(prevHash: Bytes, events: seq<Event>, i: nat)
    requires i < |events|
  {
    && events[i].spec.prevHash == LinkBefore(prevHash, events, i)
    && 1 <= events[i].spec.seqNo <= MAX_SEQ
    && (i > 0 ==> events[i].spec.seqNo == events[i - 1].spec.seqNo + 1)
  }

  predicate Verified(prevHash: Bytes, events: seq<Event>) {
    IsLowerHex(prevHash, 64) && AllLinked(prevHash, events)
  }

  method VerifyLedgerChain(prevHash: Bytes, events: seq<Event>) returns (ok: bool)
    ensures ok == Verified(prevHash, events)
  {
    hide IsLowerHex;
    if !IsLowerHex(prevHash, 64) {
      return false;
    }
    var prev := prevHash;
    for i := 0 to |events|
      invariant prev == LinkBefore(prevHash, events, i)
      invariant forall j :: 0 <= j < i ==> Linked(prevHash, events, j)
    {
      var s := events[i].spec;
      if s.prevHash != prev || s.seqNo == 0 || s.seqNo > MAX_SEQ {
        assert !Linked(prevHash, events, i);
        return false;
      }
      if i > 0 && (s.seqNo <= events[i - 1].spec.seqNo || s.seqNo - events[i - 1].spec.seqNo != 1) {
        assert !Linked(prevHash, events, i);
        return false;
      }
      prev := s.hash;
    }
    ok := true;
  }

  /** Sequence numbers count up from the first without wrapping. */
  lemma {:induction false} SequenceRuns(prevHash: Bytes, events: seq<Event>, i: nat)
    requires Verified(prevHash, events) && i < |events|
    ensures events[i].spec.seqNo == events[0].spec.seqNo + i && events[0].spec.seqNo + i <= MAX_SEQ
  {
    assert Linked(prevHash, events, i);
    if i > 0 { SequenceRuns(prevHash, events, i - 1); }
  }

  function Head(prevHash: Bytes, events: seq<Event>): Bytes { LinkBefore(prevHash, events, |events|) }

  ghost predicate AllGenuine(w: World, events: seq<Event>) {
    forall i :: 0 <= i < |events| ==> Genuine(w, events[i])
  }

  predicate Adjacent(a: seq<Event>, b: seq<Event>) {
    a != [] && b != [] ==> b[0].spec.seqNo == a[|a| - 1].spec.seqNo + 1
  }

  lemma LinkedInFront(prevHash: Bytes, a: seq<Event>, b: seq<Event>, i: nat)
    requires i < |a|
    ensures Linked(prevHash, a + b, i) <==> Linked(prevHash, a, i)
  {
  }

  lemma LinkedBehind(prevHash: Bytes, a: seq<Event>, b: seq<Event>, i: nat)
    requires i < |b|
    ensures Linked(prevHash, a + b, |a| + i)
       <==> Linked(Head(prevHash, a), b, i) && (i == 0 ==> Adjacent(a, b))
  {
    var c := a + b;
    assert c[|a| + i] == b[i];
    assert |a| + i > 0 ==> c[|a| + i - 1] == if i > 0 then b[i - 1] else a[|a| - 1];
  }

  predicate AllLinked(prevHash: Bytes, events: seq<Event>) {
    forall i :: 0 <= i < |events| ==> Linked(prevHash, events, i)
  }

  lemma AllLinkedSplit(prevHash: Bytes, a: seq<Event>, b: seq<Event>)
    requires AllLinked(prevHash, a + b)
    ensures AllLinked(prevHash, a) && AllLinked(Head(prevHash, a), b) && Adjacent(a, b)
  {
    hide Linked, Adjacent;
    forall i | 0 <= i < |a| ensures Linked(prevHash, a, i) { LinkedInFront(prevHash, a, b, i); }
    forall i | 0 <= i < |b| ensures Linked(Head(prevHash, a), b, i) && (i == 0 ==> Adjacent(a, b)) {
      LinkedBehind(prevHash, a, b, i);
      assert Linked(prevHash, a + b, |a| + i);
    }
    if b != [] { LinkedBehind(prevHash, a, b, 0); }
    NothingAdjacent(a, b);
  }

  lemma NothingAdjacent(a: seq<Event>, b: seq<Event>)
    ensures b == [] ==> Adjacent(a, b)
  {
  }

  lemma AllLinkedJoin(prevHash: Bytes, a: seq<Event>, b: seq<Event>)
    requires AllLinked(prevHash, a) && AllLinked(Head(prevHash, a), b) && Adjacent(a, b)
    ensures AllLinked(prevHash, a + b)
  {
    hide Linked, Adjacent;
    forall i | 0 <= i < |a + b| ensures Linked(prevHash, a + b, i) {
      if i < |a| {
        LinkedInFront(prevHash, a, b, i);
      } else {
        LinkedBehind(prevHash, a, b, i - |a|);
      }
    }
  }

  /** A concatenation verifies exactly when both halves do, the second from the
      head of the first, and their numbers are adjacent. */
  lemma ChainsConcatenate(w: World, prevHash: Bytes, a: seq<Event>, b: seq<Event>)
    requires Sane(w) && AllGenuine(w, a)
    ensures Verified(prevHash, a + b)
       <==> Verified(prevHash, a) && Verified(Head(prevHash, a), b) && Adjacent(a, b)
  {
    hide AllLinked, Genuine, IsLowerHex, Adjacent;
    if a != [] { GenuineMeans(w, a[|a| - 1]); }
    if AllLinked(prevHash, a + b) { AllLinkedSplit(prevHash, a, b); }
    if AllLinked(prevHash, a) && AllLinked(Head(prevHash, a), b) && Adjacent(a, b) { AllLinkedJoin(prevHash, a, b); }
  }

  /** A value no constructor produced. */
  predicate IsZero(e: Event) { e.spec.hash == [] && e.spec.prevHash == [] }

  lemma {:induction false} ZeroNeverLinks(w: World, prevHash: Bytes, events: seq<Event>, i: nat)
    requires Sane(w) && Verified(prevHash, events) && i < |events|
    requires forall j :: 0 <= j < |events| ==> Genuine(w, events[j]) || IsZero(events[j])
    ensures Genuine(w, events[i])
  {
    hide Genuine, Sane;
    assert Linked(prevHash, events, i);
    if i > 0 {
      ZeroNeverLinks(w, prevHash, events, i - 1);
      GenuineMeans(w, events[i - 1]);
    }
  }

  // ---- a head determines its chain ----

  /** The hash tells the events of these two lists apart. */
  ghost predicate CollisionFree(w: World, a: seq<Event>, b: seq<Event>) {
    forall i, j :: 0 <= i < |a| && 0 <= j < |b| && w.hash(a[i].canonical) == w.hash(b[j].canonical)
                   ==> a[i].canonical == b[j].canonical
  }

  lemma SameHashSameEvent(w: World, d: Event, e: Event)
    requires Sane(w) && Genuine(w, d) && Genuine(w, e)
    requires d.spec.hash == e.spec.hash && d.canonical == e.canonical
    ensures d == e
  {
    hide Fits, MembersValid, IsLowerHex, HashedBytes, ShapeOf, Sane;
    var s: Spec :| s.Typed() && NewLedgerEvent(w, s) == Some(d);
    var t: Spec :| t.Typed() && NewLedgerEvent(w, t) == Some(e);
    BytesDetermine(w, s, t);
  }

  lemma LastAgrees(w: World, a: seq<Event>, b: seq<Event>)
    requires Sane(w) && AllGenuine(w, a) && AllGenuine(w, b) && CollisionFree(w, a, b) && a != [] && b != []
    requires a[|a| - 1].spec.hash == b[|b| - 1].spec.hash
    ensures a[|a| - 1] == b[|b| - 1]
  {
    hide Genuine, IsLowerHex, Sane;
    var d, e := a[|a| - 1], b[|b| - 1];
    assert Genuine(w, d) && Genuine(w, e);
    GenuineMeans(w, d);
    GenuineMeans(w, e);
    SameHashSameEvent(w, d, e);
  }

  lemma FrontGenuine(w: World, a: seq<Event>, b: seq<Event>)
    requires AllGenuine(w, a) && AllGenuine(w, b) && CollisionFree(w, a, b) && a != [] && b != []
    ensures AllGenuine(w, a[..|a| - 1]) && AllGenuine(w, b[..|b| - 1]) && CollisionFree(w, a[..|a| - 1], b[..|b| - 1])
  {
    hide Genuine;
  }

  /** Two verified chains of one length that end in one hash are equal. */
  lemma {:induction false} HeadDetermines(w: World, prevHash: Bytes, a: seq<Event>, b: seq<Event>)
    requires Sane(w) && AllGenuine(w, a) && AllGenuine(w, b) && CollisionFree(w, a, b)
    requires Verified(prevHash, a) && Verified(prevHash, b) && |a| == |b| && Head(prevHash, a) == Head(prevHash, b)
    ensures a == b
  {
    hide AllGenuine, CollisionFree, Verified, Sane;
    if a != [] {
      var n := |a| - 1;
      LastAgrees(w, a, b);
      FrontGenuine(w, a, b);
      FrontVerified(prevHash, a);
      FrontVerified(prevHash, b);
      HeadDetermines(w, prevHash, a[..n], b[..n]);
      assert a == a[..n] + [a[n]] && b == b[..n] + [b[n]];
    }
  }

  lemma FrontVerified(prevHash: Bytes, a: seq<Event>)
    requires Verified(prevHash, a) && a != []
    ensures Verified(prevHash, a[..|a| - 1]) && Head(prevHash, a[..|a| - 1]) == a[|a| - 1].spec.prevHash
  {
    hide IsLowerHex;
    var n := |a| - 1;
    forall i | 0 <= i < n ensures Linked(prevHash, a[..n], i) { assert Linked(prevHash, a, i); }
    assert Linked(prevHash, a, n);
  }

  // ---- manifests ----

  datatype Manifest = Manifest(scopeUrl: Bytes, lineage: Bytes, firstSeq: nat, lastSeq: nat, prevHash: Bytes, headHash: Bytes)
  {
    predicate Valid(w: World) {
      && PersistedScopeUrl(w.parse, scopeUrl) && IsLowerHex(lineage, 64) && IsLowerHex(prevHash, 64) && IsLowerHex(headHash, 64)
      && 1 <= firstSeq <= lastSeq <= MAX_SEQ
    }

    predicate Covers(events: seq<Event>) {
      && events != [] && |events| == lastSeq - firstSeq + 1 && events[0].spec.seqNo == firstSeq
      && Verified(prevHash, events) && events[|events| - 1].spec.hash == headHash
      && (IsGenesis(prevHash) ==> events[0].spec.kind == Text("mint") && events[0].spec.hash == lineage)
    }
  }

  /** Sixty-four zeros, the link of a history's first event. */
  predicate IsGenesis(h: Bytes) { |h| == 64 && forall i :: 0 <= i < 64 ==> h[i] == 0x30 }

  /** A manifest determines its events. */
  lemma ManifestDetermines(w: World, m: Manifest, a: seq<Event>, b: seq<Event>)
    requires Sane(w) && AllGenuine(w, a) && AllGenuine(w, b) && CollisionFree(w, a, b)
    requires m.Covers(a) && m.Covers(b)
    ensures a == b
  {
    hide Verified, AllGenuine, CollisionFree, Sane;
    HeadDetermines(w, m.prevHash, a, b);
  }

  /** The events a manifest covers end in its last number. */
  lemma ManifestRange(m: Manifest, events: seq<Event>)
    requires m.Covers(events)
    ensures events[|events| - 1].spec.seqNo == m.lastSeq
    ensures forall i :: 0 <= i < |events| ==> events[i].spec.seqNo == m.firstSeq + i
  {
    forall i | 0 <= i < |events| ensures events[i].spec.seqNo == m.firstSeq + i { SequenceRuns(m.prevHash, events, i); }
  }
}
