/** The canonical-ID grammar: percent-escaped path segments and the IDs made of
    them. */
module Segments {
  import opened Utf8
  import opened Wrappers
  import opened Strings
  import opened Seqs

  const PERCENT: byte := 0x25
  const QUESTION: byte := 0x3F
  const HASH: byte := 0x23

  predicate IsAlphanumeric(c: byte) {
    0x41 <= c <= 0x5A || 0x61 <= c <= 0x7A || 0x30 <= c <= 0x39
  }

  /** RFC 3986 pchar without pct-encoded: the bytes a segment spells as they
      are. */
  predicate IsLiteral(c: byte) {
    || IsAlphanumeric(c)
    || c == 0x2E || c == 0x5F || c == 0x7E || c == 0x21 || c == 0x24 || c == 0x26 || c == 0x27 || c == 0x28 || c == 0x29
    || c == 0x2A || c == 0x2B || c == 0x2C || c == 0x3B || c == 0x3D || c == 0x3A || c == 0x40 || c == 0x2D
  }

  function UpperHex(v: int): byte
    requires 0 <= v < 16
  {
    if v < 10 then 0x30 + v else 0x41 + v - 10
  }

  function EncodeByte(c: byte): (e: Bytes)
    ensures e != []
  {
    if IsLiteral(c) then [c] else [PERCENT, UpperHex(c / 16), UpperHex(c % 16)]
  }

  /** CanonicalSegment: a decoded segment as the authority spells it. */
  function EncodeSegment(s: Bytes): Bytes {
    if s == [] then [] else EncodeByte(s[0]) + EncodeSegment(s[1..])
  }

  /** One percent escape, in either hex case. */
  function EscapeAt(t: Bytes): (r: Option<byte>) {
    if |t| < 3 then None
    else
      var hi :- HexValue(t[1]);
      var lo :- HexValue(t[2]);
      Some(hi * 16 + lo)
  }

  /** Escapes decoded exactly once; an incomplete or malformed one is refused. */
  function DecodeSegment(t: Bytes): Option<Bytes>
    decreases |t|
  {
    if t == [] then Some([])
    else if t[0] != PERCENT then
      var rest :- DecodeSegment(t[1..]);
      Some([t[0]] + rest)
    else
      var v :- EscapeAt(t);
      var rest :- DecodeSegment(t[3..]);
      Some([v] + rest)
  }

  // ---- decoding inverts encoding ----

  lemma HexInverse(v: int)
    requires 0 <= v < 16
    ensures HexValue(UpperHex(v)) == Some(v)
  {
  }

  lemma DecodeByte(c: byte, rest: Bytes)
    ensures DecodeSegment(EncodeByte(c) + rest) ==
            if DecodeSegment(rest).None? then None else Some([c] + DecodeSegment(rest).value)
  {
    var t := EncodeByte(c) + rest;
    if IsLiteral(c) {
      assert t[1..] == rest;
    } else {
      assert t[3..] == rest;
      HexInverse(c / 16);
      HexInverse(c % 16);
      assert EscapeAt(t) == Some(c);
    }
  }

  /** Every byte string survives the trip. */
  lemma {:induction false} DecodeEncoded(s: Bytes)
    ensures DecodeSegment(EncodeSegment(s)) == Some(s)
  {
    if s != [] {
      DecodeEncoded(s[1..]);
      DecodeByte(s[0], EncodeSegment(s[1..]));
      assert s == [s[0]] + s[1..];
    }
  }

  // ---- the grammar of one segment ----

  /** ASCII controls and path separators. */
  predicate IsForbiddenRune(r: int) { r <= 0x1F || r == 0x7F || r == SLASH || r == BACKSLASH }

  /** A value an ID segment may have. */
  predicate Admissible(s: Bytes) {
    && s != [] && Valid(s) && s != [DOT] && s != [DOT, DOT]
    && forall r :: r in Scalars(s) ==> !IsForbiddenRune(r)
  }

  /** ValidateCanonicalSegment's test. */
  predicate CanonicalSegment(t: Bytes) {
    t != [] && DecodeSegment(t).Some? && Admissible(DecodeSegment(t).value) && EncodeSegment(DecodeSegment(t).value) == t
  }

  /** The test accepts exactly the encoder's image over admissible values. */
  lemma CanonicalIsImage(t: Bytes)
    ensures CanonicalSegment(t) <==> exists s :: Admissible(s) && EncodeSegment(s) == t
  {
    if CanonicalSegment(t) {
      var s := DecodeSegment(t).value;
      assert Admissible(s) && EncodeSegment(s) == t;
    }
    if s :| Admissible(s) && EncodeSegment(s) == t {
      DecodeEncoded(s);
      assert t != [];
    }
  }

  /** Bytes a canonical segment is made of. */
  predicate IsSegmentByte(c: byte) { IsLiteral(c) || c == PERCENT }

  lemma {:induction false} EncodedBytes(s: Bytes)
    ensures forall i :: 0 <= i < |EncodeSegment(s)| ==> IsSegmentByte(EncodeSegment(s)[i])
  {
    if s != [] { EncodedBytes(s[1..]); }
  }

  lemma CanonicalBytes(t: Bytes)
    requires CanonicalSegment(t)
    ensures t != [] && IsAscii(t) && SLASH !in t && QUESTION !in t && HASH !in t
    ensures forall i :: 0 <= i < |t| ==> IsSegmentByte(t[i])
  {
    EncodedBytes(DecodeSegment(t).value);
  }

  // ---- the methods ----

  method CanonicalSegmentOf(decoded: Bytes) returns (b: Bytes)
    ensures b == EncodeSegment(decoded)
  {
    b := [];
    var i := 0;
    while i < |decoded|
      invariant 0 <= i <= |decoded| && b + EncodeSegment(decoded[i..]) == EncodeSegment(decoded)
    {
      Assoc(b, EncodeByte(decoded[i]), EncodeSegment(decoded[i + 1..]));
      assert decoded[i..][1..] == decoded[i + 1..];
      if IsLiteral(decoded[i]) {
        b := b + [decoded[i]];
      } else {
        b := b + [PERCENT, UpperHex(decoded[i] / 16), UpperHex(decoded[i] % 16)];
      }
      i := i + 1;
    }
    assert b + [] == b;
  }

  method DecodeSegmentOf(segment: Bytes) returns (r: Option<Bytes>)
    ensures r == DecodeSegment(segment)
  {
    var out: Bytes := [];
    JoinedNil(DecodeSegment(segment));
    assert segment[0..] == segment;
    var i := 0;
    while i < |segment|
      invariant 0 <= i <= |segment|
      invariant DecodeSegment(segment) == Joined(out, DecodeSegment(segment[i..]))
      decreases |segment| - i
    {
      var t := segment[i..];
      var c := segment[i];
      if c != PERCENT {
        JoinedStep(out, [c], DecodeSegment(t[1..]));
        out := out + [c];
        DropDrop(segment, i, 1);
        i := i + 1;
      } else {
        if i + 2 >= |segment| {
          return None;
        }
        var hi, lo := HexValue(segment[i + 1]), HexValue(segment[i + 2]);
        if hi.None? || lo.None? {
          return None;
        }
        var v: byte := hi.value * 16 + lo.value;
        JoinedStep(out, [v], DecodeSegment(t[3..]));
        out := out + [v];
        DropDrop(segment, i, 3);
        i := i + 3;
      }
    }
    assert out + [] == out;
    r := Some(out);
  }

  function Joined(out: Bytes, r: Option<Bytes>): Option<Bytes> {
    if r.None? then None else Some(out + r.value)
  }

  lemma JoinedNil(r: Option<Bytes>)
    ensures Joined([], r) == r
  {
    if r.Some? { assert [] + r.value == r.value; }
  }

  lemma JoinedStep(a: Bytes, b: Bytes, r: Option<Bytes>)
    ensures Joined(a, Joined(b, r)) == Joined(a + b, r)
  {
    if r.Some? { Assoc(a, b, r.value); }
  }

  method ValidateCanonicalSegment(segment: Bytes) returns (ok: bool)
    ensures ok == CanonicalSegment(segment)
  {
    if segment == [] {
      return false;
    }
    var decoded := DecodeSegmentOf(segment);
    if decoded.None? || !Valid(decoded.value) {
      return false;
    }
    var s := decoded.value;
    if s == [DOT] || s == [DOT, DOT] {
      return false;
    }
    var bad := HasForbiddenRune(s);
    if bad {
      return false;
    }
    var canonical := CanonicalSegmentOf(s);
    ok := canonical == segment;
    assert s == [] ==> EncodeSegment(s) == [];
  }

  method HasForbiddenRune(s: Bytes) returns (bad: bool)
    ensures bad <==> exists r :: r in Scalars(s) && IsForbiddenRune(r)
  {
    var rest := s;
    while rest != []
      invariant forall r :: r in Scalars(s) && IsForbiddenRune(r) ==> r in Scalars(rest)
      invariant forall r :: r in Scalars(rest) ==> r in Scalars(s)
      decreases |rest|
    {
      var r := RuneAt(rest);
      assert Scalars(rest) == [r] + Scalars(rest[Width(rest)..]);
      assert r in Scalars(rest);
      if IsForbiddenRune(r) {
        return true;
      }
      rest := rest[Width(rest)..];
    }
    return false;
  }
}
