/** Bytes, and the UTF-8 reading of them that Go's unicode/utf8 performs.
    A Go string is a byte sequence; nothing here assumes it is valid UTF-8
    unless a contract says so. */
module Utf8 {
  type byte = b: int | 0 <= b < 256
  type Bytes = seq<byte>

  // Characters that more than one grammar names.
  const QUOTE: byte := 0x22
  const DOT: byte := 0x2E
  const SLASH: byte := 0x2F
  const COLON: byte := 0x3A
  const LBRACKET: byte := 0x5B
  const BACKSLASH: byte := 0x5C
  const RBRACKET: byte := 0x5D

  /** A Unicode scalar value: a code point that is not a surrogate. */
  predicate IsScalar(r: int) {
    0 <= r < 0xD800 || 0xE000 <= r < 0x110000
  }

  const REPLACEMENT := 0xFFFD

  predicate IsCont(b: byte) { 0x80 <= b < 0xC0 }

  /** The length of the well-formed encoding at the start of `s`, or 0 when
      there is none. */
  function RuneLen(s: Bytes): (n: nat)
    ensures n <= |s| && n <= 4
  {
    if |s| == 0 then 0
    else if s[0] < 0x80 then 1
    else if 0xC2 <= s[0] <= 0xDF && |s| >= 2 && IsCont(s[1]) then 2
    else if 0xE0 <= s[0] <= 0xEF && |s| >= 3 && IsCont(s[1]) && IsCont(s[2])
            && (s[0] == 0xE0 ==> s[1] >= 0xA0) && (s[0] == 0xED ==> s[1] < 0xA0) then 3
    else if 0xF0 <= s[0] <= 0xF4 && |s| >= 4 && IsCont(s[1]) && IsCont(s[2]) && IsCont(s[3])
            && (s[0] == 0xF0 ==> s[1] >= 0x90) && (s[0] == 0xF4 ==> s[1] < 0x90) then 4
    else 0
  }

  /** The scalar at the start of `s`; an ill-formed byte reads as U+FFFD. */
  function RuneAt(s: Bytes): (r: int)
    ensures IsScalar(r)
  {
    match RuneLen(s)
    case 1 => s[0]
    case 2 => (s[0] - 0xC0) * 64 + (s[1] - 0x80)
    case 3 => (s[0] - 0xE0) * 4096 + (s[1] - 0x80) * 64 + (s[2] - 0x80)
    case 4 => (s[0] - 0xF0) * 262144 + (s[1] - 0x80) * 4096 + (s[2] - 0x80) * 64 + (s[3] - 0x80)
    case _ => REPLACEMENT
  }

  /** How many bytes decoding the first rune consumes: an ill-formed byte is
      consumed alone. */
  function Width(s: Bytes): (n: nat)
    requires s != []
    ensures 1 <= n <= |s|
  {
    if RuneLen(s) == 0 then 1 else RuneLen(s)
  }

  predicate Valid(s: Bytes)
    decreases |s|
  {
    s == [] || (RuneLen(s) > 0 && Valid(s[RuneLen(s)..]))
  }

  /** Every scalar of `s` in order. */
  function Scalars(s: Bytes): (rs: seq<int>)
    ensures forall i :: 0 <= i < |rs| ==> IsScalar(rs[i])
    decreases |s|
  {
    if s == [] then [] else [RuneAt(s)] + Scalars(s[Width(s)..])
  }

  /** The UTF-8 form of one scalar. */
  function Encode(r: int): (e: Bytes)
    requires IsScalar(r)
    ensures 1 <= |e| <= 4
  {
    if r < 0x80 then [r]
    else if r < 0x800 then [0xC0 + r / 64, 0x80 + r % 64]
    else if r < 0x10000 then [0xE0 + r / 4096, 0x80 + r / 64 % 64, 0x80 + r % 64]
    else [0xF0 + r / 262144, 0x80 + r / 4096 % 64, 0x80 + r / 64 % 64, 0x80 + r % 64]
  }

  // ---- decoding inverts encoding ----

  lemma DecodeEncode(r: int, t: Bytes)
    requires IsScalar(r)
    ensures RuneLen(Encode(r) + t) == |Encode(r)|
    ensures RuneAt(Encode(r) + t) == r
  {
    var e := Encode(r);
    assert forall i :: 0 <= i < |e| ==> (e + t)[i] == e[i];
    if 0x800 <= r < 0x10000 {
      SplitThree(r);
    } else if 0x10000 <= r {
      SplitThree(r);
      SplitFour(r);
    }
  }

  lemma SplitThree(r: nat)
    ensures r == r / 4096 * 4096 + r / 64 % 64 * 64 + r % 64
    ensures r / 64 / 64 == r / 4096
  {
  }

  lemma SplitFour(r: nat)
    ensures r / 4096 == r / 262144 * 64 + r / 4096 % 64
  {
  }

  lemma EncodeDecode(s: Bytes)
    requires RuneLen(s) > 0
    ensures Encode(RuneAt(s)) == s[..RuneLen(s)]
  {
    var b0: int := s[0];
    if RuneLen(s) == 2 {
      JoinDigits(b0 - 0xC0, s[1] - 0x80);
    } else if RuneLen(s) == 3 {
      JoinDigits((b0 - 0xE0) * 64 + (s[1] - 0x80), s[2] - 0x80);
      JoinDigits(b0 - 0xE0, s[1] - 0x80);
      SplitThree(RuneAt(s));
    } else if RuneLen(s) == 4 {
      EncodeDecodeFour(s);
    }
  }

  lemma EncodeDecodeFour(s: Bytes)
    requires RuneLen(s) == 4
    ensures Encode(RuneAt(s)) == s[..4]
  {
    var b0: int := s[0];
    var high := (b0 - 0xF0) * 64 + (s[1] - 0x80);
    JoinDigits(high * 64 + (s[2] - 0x80), s[3] - 0x80);
    JoinDigits(high, s[2] - 0x80);
    JoinDigits(b0 - 0xF0, s[1] - 0x80);
    SplitThree(RuneAt(s));
    SplitFour(RuneAt(s));
  }

  lemma JoinDigits(high: nat, low: int)
    requires 0 <= low < 64
    ensures (high * 64 + low) / 64 == high && (high * 64 + low) % 64 == low
  {
  }

  /** What the first rune of a string is does not depend on what follows it. */
  lemma RuneLenPrefix(s: Bytes, t: Bytes)
    requires RuneLen(s) > 0
    ensures RuneLen(s + t) == RuneLen(s) && RuneAt(s + t) == RuneAt(s)
  {
    assert forall i :: 0 <= i < |s| ==> (s + t)[i] == s[i];
  }

  // ---- validity and concatenation ----

  lemma {:induction false} ValidConcat(a: Bytes, b: Bytes)
    requires Valid(a)
    ensures Valid(a + b) <==> Valid(b)
    decreases |a|
  {
    if a == [] {
      assert a + b == b;
    } else {
      var n := RuneLen(a);
      RuneLenPrefix(a, b);
      ValidConcat(a[n..], b);
      assert (a + b)[n..] == a[n..] + b;
    }
  }

  lemma ValidEncode(r: int)
    requires IsScalar(r)
    ensures Valid(Encode(r))
  {
    DecodeEncode(r, []);
    assert Encode(r) + [] == Encode(r);
  }

  /** Valid strings with the same scalars are the same bytes. */
  lemma {:induction false} ScalarsInjective(a: Bytes, b: Bytes)
    requires Valid(a) && Valid(b)
    requires Scalars(a) == Scalars(b)
    ensures a == b
    decreases |a|
  {
    if a == [] || b == [] {
      assert |Scalars(a)| == 0;
    } else {
      hide Scalars, RuneLen, RuneAt, Encode, Valid;
      var n, m := RuneLen(a), RuneLen(b);
      ValidStep(a);
      ValidStep(b);
      assert Scalars(a)[0] == RuneAt(a) && Scalars(b)[0] == RuneAt(b);
      assert Scalars(a)[1..] == Scalars(a[n..]) && Scalars(b)[1..] == Scalars(b[m..]);
      ScalarsInjective(a[n..], b[m..]);
    }
  }

  /** A valid string is the encoding of its first scalar and a valid rest. */
  lemma ValidStep(a: Bytes)
    requires Valid(a) && a != []
    ensures 0 < RuneLen(a) && Valid(a[RuneLen(a)..])
    ensures Scalars(a) == [RuneAt(a)] + Scalars(a[RuneLen(a)..]) && a == Encode(RuneAt(a)) + a[RuneLen(a)..]
  {
    hide RuneAt, Encode, RuneLen, Scalars;
    EncodedFront(a);
    ScalarsUnfold(a);
  }

  lemma ScalarsUnfold(a: Bytes)
    requires RuneLen(a) > 0
    ensures Scalars(a) == [RuneAt(a)] + Scalars(a[RuneLen(a)..])
  {
    hide RuneAt, RuneLen;
  }

  lemma EncodedFront(a: Bytes)
    requires RuneLen(a) > 0
    ensures a == Encode(RuneAt(a)) + a[RuneLen(a)..]
  {
    hide RuneAt, RuneLen, Encode;
    EncodeDecode(a);
    Halved(a, RuneLen(a));
  }

  lemma Halved(s: Bytes, n: nat)
    requires n <= |s|
    ensures s == s[..n] + s[n..]
  {
  }

  predicate IsAscii(s: Bytes) {
    forall i :: 0 <= i < |s| ==> s[i] < 0x80
  }

  lemma {:induction false} AsciiScalars(s: Bytes)
    requires IsAscii(s)
    ensures Valid(s) && Scalars(s) == s
    decreases |s|
  {
    if s != [] {
      AsciiScalars(s[1..]);
      assert s == [s[0]] + s[1..];
    }
  }
}
