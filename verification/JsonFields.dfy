/** Objects with a fixed list of member names, some of them optional: what the
    canonical text of such an object determines. */
module JsonFields {
  import opened Utf8
  import opened Wrappers
  import opened Numbers
  import opened NumberText
  import opened Integers
  import opened Sorting
  import opened Json
  import opened JsonLaws

  /** An ASCII text. */
  function Text(s: string): (t: Bytes)
    ensures |t| == |s| && IsAscii(t)
  {
    seq(|s|, i requires 0 <= i < |s| => s[i] as int % 128)
  }

  lemma AsciiValid(t: Bytes)
    requires IsAscii(t)
    ensures Valid(t)
  {
    AsciiScalars(t);
  }

  // ---- integers ----

  function Integer(n: nat): Doc { Num(Literal(false, DecimalText(n), [], 0)) }

  lemma IntegerValue(n: nat)
    ensures Denote(Integer(n)) == VNum(n as real)
  {
    NatOfDecimalText(n);
    assert DecimalText(n) + [] == DecimalText(n);
  }

  /** Integers of 64 bits are within the exponent bound. */
  lemma IntegerInRange(n: nat)
    requires n < 0x1_0000_0000_0000_0000
    ensures Normalize(Literal(false, DecimalText(n), [], 0)).InRange()
  {
    hide DecimalText, Leading, Trailing;
    TwentyDigits();
    DecimalTextLength(n, 20);
    assert DecimalText(n) + [] == DecimalText(n);
  }

  // ---- slots ----

  type Slot = (Bytes, Option<Doc>)

  function Present(slots: seq<Slot>): seq<(Bytes, Doc)> {
    if slots == [] then []
    else if slots[0].1.None? then Present(slots[1..])
    else [(slots[0].0, slots[0].1.value)] + Present(slots[1..])
  }

  predicate HasName(slots: seq<Slot>, k: Bytes) { exists i :: 0 <= i < |slots| && slots[i].0 == k }

  predicate DistinctSlots(slots: seq<Slot>) {
    slots == [] || (!HasName(slots[1..], slots[0].0) && DistinctSlots(slots[1..]))
  }

  lemma {:induction false} DistinctFromPairs(slots: seq<Slot>)
    requires forall i, j :: 0 <= i < j < |slots| ==> slots[i].0 != slots[j].0
    ensures DistinctSlots(slots)
  {
    if slots != [] { DistinctFromPairs(slots[1..]); }
  }

  /** A cheap way to tell names apart: by length and first byte. */
  function Rank(k: Bytes): int { if k == [] then 0 else 256 * |k| + k[0] }

  predicate SameNames(s: seq<Slot>, t: seq<Slot>) {
    |s| == |t| && forall i :: 0 <= i < |s| ==> s[i].0 == t[i].0
  }

  ghost predicate SlotsWellFormed(rules: Rules, room: nat, slots: seq<Slot>) {
    forall i :: 0 <= i < |slots| ==> Valid(slots[i].0) && (slots[i].1.Some? ==> WellFormed(rules, room, slots[i].1.value))
  }

  function Meaning(d: Option<Doc>): Option<Value> { if d.None? then None else Some(Denote(d.value)) }

  /** A text that is absent when empty. */
  function Optional(t: Bytes): Option<Doc> { if t == [] then None else Some(Str(t)) }

  lemma OptionalDenotes(t: Bytes)
    ensures Meaning(Optional(t)) == if t == [] then None else Some(VStr(t))
  {
  }

  /** The members a slot list denotes. */
  function SlotMap(slots: seq<Slot>): map<Bytes, Value> {
    if slots == [] then map[]
    else if slots[0].1.None? then SlotMap(slots[1..])
    else SlotMap(slots[1..])[slots[0].0 := Denote(slots[0].1.value)]
  }

  function Lookup(m: map<Bytes, Value>, k: Bytes): Option<Value> { if k in m then Some(m[k]) else None }

  lemma {:induction false} SlotMapDenotes(slots: seq<Slot>)
    ensures ToMap(DenoteMembers(Present(slots))) == SlotMap(slots)
  {
    if slots != [] {
      SlotMapDenotes(slots[1..]);
      if slots[0].1.Some? {
        var p := Present(slots);
        assert p[1..] == Present(slots[1..]);
        var dm := DenoteMembers(p);
        assert dm == [(p[0].0, Denote(p[0].1))] + DenoteMembers(p[1..]);
        assert dm[1..] == DenoteMembers(p[1..]);
      }
    }
  }

  lemma {:induction false} AbsentName(slots: seq<Slot>, k: Bytes)
    requires !HasName(slots, k)
    ensures k !in SlotMap(slots) && !HasKey(Present(slots), k)
  {
    if slots != [] {
      assert forall i :: 0 <= i < |slots[1..]| ==> slots[1..][i] == slots[i + 1];
      AbsentName(slots[1..], k);
      assert slots[0].0 != k;
      var p := Present(slots);
      assert slots[0].1.Some? ==> p[1..] == Present(slots[1..]);
    }
  }

  lemma {:induction false} PresentDistinct(slots: seq<Slot>)
    requires DistinctSlots(slots)
    ensures DistinctKeys(Present(slots))
  {
    if slots != [] {
      PresentDistinct(slots[1..]);
      AbsentName(slots[1..], slots[0].0);
      var p := Present(slots);
      assert slots[0].1.Some? ==> p[1..] == Present(slots[1..]);
    }
  }

  lemma {:induction false} PresentWellFormed(rules: Rules, room: nat, slots: seq<Slot>)
    requires SlotsWellFormed(rules, room, slots)
    ensures WellFormedMembers(rules, room, Present(slots))
  {
    hide WellFormed, Valid;
    if slots != [] { PresentWellFormed(rules, room, slots[1..]); }
  }

  lemma ObjectWellFormed(rules: Rules, room: nat, slots: seq<Slot>)
    requires SlotsWellFormed(rules, room, slots) && DistinctSlots(slots)
    ensures WellFormed(rules, room + 1, Obj(Present(slots)))
  {
    hide Present;
    PresentWellFormed(rules, room, slots);
    PresentDistinct(slots);
  }

  /** The denoted members give back every slot. */
  lemma {:induction false} SlotLookup(slots: seq<Slot>, i: nat)
    requires DistinctSlots(slots) && i < |slots|
    ensures Lookup(SlotMap(slots), slots[i].0) == Meaning(slots[i].1)
  {
    hide Denote;
    AbsentName(slots[1..], slots[0].0);
    if i > 0 {
      SlotLookup(slots[1..], i - 1);
      assert slots[1..][i - 1] == slots[i];
      assert HasName(slots[1..], slots[i].0);
    }
  }

  /** And nothing else is denoted. */
  lemma {:induction false} SlotOrigin(slots: seq<Slot>, k: Bytes) returns (i: nat)
    requires k in SlotMap(slots)
    ensures i < |slots| && slots[i].0 == k && slots[i].1.Some? && SlotMap(slots)[k] == Denote(slots[i].1.value)
  {
    hide Denote;
    if slots[0].1.Some? && slots[0].0 == k {
      i := 0;
    } else {
      i := SlotOrigin(slots[1..], k);
      i := i + 1;
    }
  }

  /** Objects with one canonical text agree in every slot. */
  lemma TextDetermines(rules: Rules, room: nat, s: seq<Slot>, t: seq<Slot>, i: nat)
    requires room < MAX_DEPTH && SlotsWellFormed(rules, room, s) && SlotsWellFormed(rules, room, t)
    requires DistinctSlots(s) && DistinctSlots(t) && SameNames(s, t) && i < |s|
    requires Canon(Obj(Present(s))) == Canon(Obj(Present(t)))
    ensures Meaning(s[i].1) == Meaning(t[i].1)
  {
    hide SlotsWellFormed, DistinctSlots, Canon, Present, WellFormed, SlotMap;
    ObjectWellFormed(rules, room, s);
    ObjectWellFormed(rules, room, t);
    RoomToSpare(rules, room + 1, Obj(Present(s)));
    RoomToSpare(rules, room + 1, Obj(Present(t)));
    CanonParses(rules, Obj(Present(s)));
    CanonParses(rules, Obj(Present(t)));
    SlotMapDenotes(s);
    SlotMapDenotes(t);
    SlotLookup(s, i);
    SlotLookup(t, i);
  }

  /** A document that fits in less room fits in the scanner's. */
  lemma {:induction false} RoomToSpare(rules: Rules, room: nat, d: Doc)
    requires WellFormed(rules, room, d) && room <= MAX_DEPTH
    ensures WellFormed(rules, MAX_DEPTH, d)
  {
    MoreRoom(rules, room, MAX_DEPTH, d);
  }

  lemma {:induction false} MoreRoom(rules: Rules, room: nat, more: nat, d: Doc)
    requires WellFormed(rules, room, d) && room <= more
    ensures WellFormed(rules, more, d)
    decreases d
  {
    match d
    case Arr(items) =>
      forall i | 0 <= i < |items| ensures WellFormed(rules, more - 1, items[i]) {
        MoreRoom(rules, room - 1, more - 1, items[i]);
      }
    case Obj(members) =>
      forall i | 0 <= i < |members| ensures WellFormed(rules, more - 1, members[i].1) {
        assert members[i].1 < members[i];
        MoreRoom(rules, room - 1, more - 1, members[i].1);
      }
    case _ =>
  }
}
