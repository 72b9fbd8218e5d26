/** Percent escapes in a URL: completeness, canonical spelling, and the
    normalisation of section 6.2.2 of RFC 3986. */
module Escapes {
  import opened Utf8
  import opened Wrappers
  import opened Strings
  import opened Seqs
  import opened Segments

  predicate IsUnreserved(c: byte) {
    IsAlphanumeric(c) || c == 0x2D || c == DOT || c == 0x5F || c == 0x7E
  }

  /** A complete escape stands at the front. */
  predicate StartsEscape(t: Bytes) { t != [] && t[0] == PERCENT && EscapeAt(t).Some? }

  /** How the normaliser spells an escaped byte. */
  function Respelled(v: byte): Bytes {
    if IsUnreserved(v) then [v] else [PERCENT, UpperHex(v / 16), UpperHex(v % 16)]
  }

  function Normalized(t: Bytes): Bytes
    decreases |t|
  {
    if t == [] then []
    else if StartsEscape(t) then Respelled(EscapeAt(t).value) + Normalized(t[3..])
    else [t[0]] + Normalized(t[1..])
  }

  /** One round of the loop: what the text at i adds to the output. */
  lemma NormalizedNext(b: Bytes, path: Bytes, i: nat)
    requires i < |path|
    ensures var t := path[i..];
            if StartsEscape(t) then b + Normalized(t) == b + Respelled(EscapeAt(t).value) + Normalized(path[i + 3..])
            else b + Normalized(t) == b + [path[i]] + Normalized(path[i + 1..])
  {
    hide Respelled, HexValue;
    var t := path[i..];
    if StartsEscape(t) {
      DropDrop(path, i, 3);
      Assoc(b, Respelled(EscapeAt(t).value), Normalized(t[3..]));
    } else {
      DropDrop(path, i, 1);
      Assoc(b, [t[0]], Normalized(t[1..]));
    }
  }

  method NormalizeEscapes(path: Bytes) returns (b: Bytes)
    ensures b == Normalized(path)
  {
    hide Normalized, IsUnreserved, HexValue, UpperHex;
    b := [];
    assert path[0..] == path;
    assert b + Normalized(path) == Normalized(path);
    var i := 0;
    while i < |path|
      invariant 0 <= i <= |path| && b + Normalized(path[i..]) == Normalized(path)
      decreases |path| - i
    {
      NormalizedNext(b, path, i);
      var c := path[i];
      if c != PERCENT || i + 2 >= |path| || HexValue(path[i + 1]).None? || HexValue(path[i + 2]).None? {
        b, i := b + [c], i + 1;
      } else {
        var hi, lo := HexValue(path[i + 1]).value, HexValue(path[i + 2]).value;
        if IsUnreserved(hi * 16 + lo) {
          b := b + [hi * 16 + lo];
        } else {
          b := b + [PERCENT, UpperHex(hi), UpperHex(lo)];
        }
        i := i + 3;
      }
    }
    assert path[i..] == [];
    NormalizedEnd(b);
  }

  lemma NormalizedEnd(b: Bytes)
    ensures b + Normalized([]) == b
  {
  }

  // ---- when normalising twice is normalising once ----

  /** The escape at the front is spelled as the normaliser would spell it. */
  predicate SpelledRight(t: Bytes)
    requires StartsEscape(t)
  {
    Respelled(EscapeAt(t).value) == t[..3]
  }

  /** The text read a token at a time: a byte, or a whole escape. */
  function TokenLength(t: Bytes): (n: nat)
    requires t != []
    ensures 1 <= n <= |t|
  {
    if StartsEscape(t) then 3 else 1
  }

  /** The byte a token begins with once it is normalised: an escape of an
      unreserved byte is that byte, any other escape keeps its percent sign. */
  function TokenByte(t: Bytes): byte
    requires t != []
  {
    if !StartsEscape(t) then t[0]
    else if IsUnreserved(EscapeAt(t).value) then EscapeAt(t).value
    else PERCENT
  }

  predicate IsLowerDigit(c: byte) { 0x61 <= c <= 0x66 }

  /** Two digits behind a percent sign that the normaliser would spell
      otherwise: a lowercase one, or the digits of an unreserved byte. */
  predicate Respells(x: byte, y: byte) {
    && HexValue(x).Some? && HexValue(y).Some?
    && (IsLowerDigit(x) || IsLowerDigit(y) || IsUnreserved(HexValue(x).value * 16 + HexValue(y).value))
  }

  /** The next two tokens would be taken for an escape by a second pass, and
      changed by it. */
  predicate Misread(t: Bytes) {
    && t != [] && TokenLength(t) < |t|
    && Respells(TokenByte(t), TokenByte(t[TokenLength(t)..]))
  }

  /** No percent sign that begins no escape stands before such a pair. */
  predicate Settled(t: Bytes)
    decreases |t|
  {
    if t == [] then true
    else if StartsEscape(t) then Settled(t[3..])
    else (t[0] == PERCENT ==> !Misread(t[1..])) && Settled(t[1..])
  }

  lemma NormalizedPlain(c: byte, o: Bytes)
    requires c != PERCENT
    ensures Normalized([c] + o) == [c] + Normalized(o)
  {
    assert ([c] + o)[1..] == o;
  }

  lemma RespelledValue(v: byte, o: Bytes)
    requires !IsUnreserved(v)
    ensures StartsEscape(Respelled(v) + o) && EscapeAt(Respelled(v) + o) == Some(v) && (Respelled(v) + o)[3..] == o
  {
    HexInverse(v / 16);
    HexInverse(v % 16);
  }

  lemma NormalizedRespelled(v: byte, o: Bytes)
    ensures Normalized(Respelled(v) + o) == Respelled(v) + Normalized(o)
  {
    if IsUnreserved(v) {
      NormalizedPlain(v, o);
    } else {
      RespelledValue(v, o);
    }
  }

  /** What a percent sign left standing does to the second pass. */
  lemma NormalizedStray(o: Bytes)
    ensures var p := [PERCENT] + o;
            Normalized(p) == p <==> (StartsEscape(p) ==> SpelledRight(p)) && Normalized(o) == o
  {
    var p := [PERCENT] + o;
    assert p[1..] == o;
    if StartsEscape(p) {
      var x, y, rest := o[0], o[1], o[2..];
      assert p[3..] == rest && o == [x] + ([y] + rest);
      NormalizedPlain(x, [y] + rest);
      NormalizedPlain(y, rest);
      StrayEscape(p, EscapeAt(p).value);
    }
  }

  lemma StrayEscape(p: Bytes, v: byte)
    requires StartsEscape(p) && EscapeAt(p) == Some(v)
    ensures Respelled(v) + Normalized(p[3..]) == p <==> Respelled(v) == p[..3] && Normalized(p[3..]) == p[3..]
  {
    var n := Normalized(p[3..]);
    Halves(p, 3);
    if Respelled(v) + n == p {
      assert (Respelled(v) + n)[0] == PERCENT;
      assert Respelled(v)[0] == PERCENT;
      Cut(Respelled(v), n);
    }
  }

  /** What the first token contributes. */
  lemma FirstToken(t: Bytes)
    requires t != []
    ensures Normalized(t) != [] && Normalized(t)[0] == TokenByte(t)
    ensures TokenByte(t) != PERCENT ==> Normalized(t) == [TokenByte(t)] + Normalized(t[TokenLength(t)..])
  {
  }

  lemma HexNotPercent(x: byte)
    requires HexValue(x).Some?
    ensures x != PERCENT
  {
  }

  /** A stray percent sign comes to begin an escape of another spelling exactly
      when the two tokens behind it would be misread. */
  lemma MisreadMeans(u: Bytes)
    ensures var p := [PERCENT] + Normalized(u); StartsEscape(p) && !SpelledRight(p) <==> Misread(u)
  {
    hide Normalized, IsUnreserved, HexValue, TokenLength, TokenByte;
    var n := Normalized(u);
    var p := [PERCENT] + n;
    if u == [] {
      NormalizedEnd([]);
    } else {
      FirstToken(u);
      var v := u[TokenLength(u)..];
      if v != [] { FirstToken(v); } else { NormalizedEnd([]); }
      if HexValue(TokenByte(u)).Some? { HexNotPercent(TokenByte(u)); }
      if |n| >= 2 { PairMeans(p); }
    }
  }

  lemma PairMeans(p: Bytes)
    requires |p| >= 3 && p[0] == PERCENT
    ensures StartsEscape(p) && !SpelledRight(p) <==> Respells(p[1], p[2])
  {
    hide IsUnreserved, HexValue, Respelled;
    if StartsEscape(p) { SpelledRightMeans(p); }
  }

  /** Normalising is idempotent exactly on the settled texts. */
  lemma {:induction false} IdempotentWhenSettled(t: Bytes)
    ensures Normalized(Normalized(t)) == Normalized(t) <==> Settled(t)
    decreases |t|
  {
    hide Respelled, SpelledRight, Misread;
    if t != [] && StartsEscape(t) {
      var v, o := EscapeAt(t).value, Normalized(t[3..]);
      NormalizedRespelled(v, o);
      IdempotentWhenSettled(t[3..]);
      SamePrefix(Respelled(v), Normalized(o), o);
    } else if t != [] {
      var o := Normalized(t[1..]);
      IdempotentWhenSettled(t[1..]);
      if t[0] == PERCENT {
        NormalizedStray(o);
        MisreadMeans(t[1..]);
      } else {
        NormalizedPlain(t[0], o);
        SamePrefix([t[0]], Normalized(o), o);
      }
    }
  }

  lemma SamePrefix(p: Bytes, a: Bytes, b: Bytes)
    ensures p + a == p + b <==> a == b
  {
    Cut(p, a);
    Cut(p, b);
  }

  /** %%34%31 becomes %41, which becomes A. */
  lemma NotIdempotent()
    ensures var t: Bytes := [PERCENT, PERCENT, 0x33, 0x34, PERCENT, 0x33, 0x31];
            !Settled(t) && Normalized(t) == [PERCENT, 0x34, 0x31] && Normalized(Normalized(t)) == [0x41]
  {
    var t: Bytes := [PERCENT, PERCENT, 0x33, 0x34, PERCENT, 0x33, 0x31];
    var u := t[1..];
    assert u == [PERCENT, 0x33, 0x34, PERCENT, 0x33, 0x31];
    var w := u[3..];
    assert w == [PERCENT, 0x33, 0x31];
    assert EscapeAt(w) == Some(0x31) && w[3..] == [];
    assert Normalized(w) == [0x31];
    assert EscapeAt(u) == Some(0x34);
    assert Normalized(u) == [0x34, 0x31];
    var o: Bytes := [PERCENT, 0x34, 0x31];
    assert Normalized(t) == o;
    assert EscapeAt(o) == Some(0x41) && o[3..] == [];
    assert Normalized(o) == [0x41];
    IdempotentWhenSettled(t);
  }

  // ---- complete escapes ----

  /** Every percent sign begins an escape. */
  predicate Complete(t: Bytes)
    decreases |t|
  {
    if t == [] then true
    else if t[0] != PERCENT then Complete(t[1..])
    else EscapeAt(t).Some? && Complete(t[3..])
  }

  method CompleteEscapes(s: Bytes) returns (ok: bool)
    ensures ok == Complete(s)
  {
    var i := 0;
    while i < |s|
      invariant 0 <= i <= |s| && Complete(s[i..]) == Complete(s)
      decreases |s| - i
    {
      DropDrop(s, i, 1);
      if s[i] != PERCENT {
        i := i + 1;
      } else {
        if i + 2 >= |s| {
          return false;
        }
        if HexValue(s[i + 1]).None? || HexValue(s[i + 2]).None? {
          return false;
        }
        DropDrop(s, i, 3);
        i := i + 3;
      }
    }
    ok := true;
  }

  lemma {:induction false} CompleteSettled(t: Bytes)
    requires Complete(t)
    ensures Settled(t)
    decreases |t|
  {
    hide Misread;
    if t != [] { CompleteSettled(if t[0] == PERCENT then t[3..] else t[1..]); }
  }

  /** So a text whose escapes are complete, as every absolute URI's are, is
      normalised once and for all. */
  lemma IdempotentWhenComplete(t: Bytes)
    requires Complete(t)
    ensures Normalized(Normalized(t)) == Normalized(t)
  {
    CompleteSettled(t);
    IdempotentWhenSettled(t);
  }

  lemma {:induction false} CompleteConcat(a: Bytes, b: Bytes)
    requires Complete(a)
    ensures Complete(a + b) <==> Complete(b)
    decreases |a|
  {
    if a == [] {
      assert a + b == b;
    } else if a[0] != PERCENT {
      CompleteConcat(a[1..], b);
      assert (a + b)[1..] == a[1..] + b;
    } else {
      CompleteConcat(a[3..], b);
      assert (a + b)[3..] == a[3..] + b;
      assert EscapeAt(a + b) == EscapeAt(a);
    }
  }

  // ---- canonical escapes ----

  /** Escapes are complete, in uppercase, and never of an unreserved byte. */
  predicate CanonicalEscapes(t: Bytes)
    decreases |t|
  {
    if t == [] then true
    else if t[0] != PERCENT then CanonicalEscapes(t[1..])
    else EscapeAt(t).Some? && Respelled(EscapeAt(t).value) == t[..3] && CanonicalEscapes(t[3..])
  }

  /** The code's loop, whose reads behind a percent sign are in range because the
      escapes are complete. */
  method CanonicalPathEscapes(segment: Bytes) returns (ok: bool)
    requires Complete(segment)
    ensures ok == CanonicalEscapes(segment)
  {
    var i := 0;
    while i < |segment|
      invariant 0 <= i <= |segment| && Complete(segment[i..])
      invariant CanonicalEscapes(segment[i..]) == CanonicalEscapes(segment)
      decreases |segment| - i
    {
      DropDrop(segment, i, 1);
      if segment[i] != PERCENT {
        i := i + 1;
      } else {
        var hi, lo := segment[i + 1], segment[i + 2];
        SpelledRightMeans(segment[i..]);
        if 0x61 <= hi <= 0x66 || 0x61 <= lo <= 0x66 {
          return false;
        }
        if IsUnreserved(HexValue(hi).value * 16 + HexValue(lo).value) {
          return false;
        }
        DropDrop(segment, i, 3);
        i := i + 3;
      }
    }
    ok := true;
  }

  lemma SpelledRightMeans(t: Bytes)
    requires StartsEscape(t)
    ensures Respelled(EscapeAt(t).value) == t[..3]
       <==> !(0x61 <= t[1] <= 0x66 || 0x61 <= t[2] <= 0x66) && !IsUnreserved(EscapeAt(t).value)
  {
  }

  /** A path spelled canonically is its own normal form, and no other path with
      complete escapes is. */
  lemma {:induction false} CanonicalIsNormal(t: Bytes)
    requires Complete(t)
    ensures CanonicalEscapes(t) <==> Normalized(t) == t
    decreases |t|
  {
    hide Respelled;
    if t != [] {
      if t[0] == PERCENT {
        CanonicalIsNormal(t[3..]);
        StrayEscape(t, EscapeAt(t).value);
      } else {
        CanonicalIsNormal(t[1..]);
        SamePrefix([t[0]], Normalized(t[1..]), t[1..]);
        assert t == [t[0]] + t[1..];
      }
    }
  }

  lemma CanonicalStep(c: byte, rest: Bytes)
    requires c != PERCENT
    ensures Complete([c] + rest) <==> Complete(rest)
    ensures CanonicalEscapes([c] + rest) <==> CanonicalEscapes(rest)
  {
    assert ([c] + rest)[1..] == rest;
  }

  /** An encoded segment has canonical escapes, whatever follows it. */
  lemma {:induction false} EncodedCanonical(s: Bytes, rest: Bytes)
    ensures Complete(EncodeSegment(s) + rest) <==> Complete(rest)
    ensures CanonicalEscapes(EncodeSegment(s) + rest) <==> CanonicalEscapes(rest)
  {
    if s == [] {
      assert [] + rest == rest;
    } else {
      var t := EncodeSegment(s[1..]) + rest;
      EncodedCanonical(s[1..], rest);
      Assoc(EncodeByte(s[0]), EncodeSegment(s[1..]), rest);
      if IsLiteral(s[0]) {
        CanonicalStep(s[0], t);
      } else {
        EncodedByteCanonical(s[0], t);
      }
    }
  }

  lemma EncodedByteCanonical(c: byte, rest: Bytes)
    requires !IsLiteral(c)
    ensures Complete(EncodeByte(c) + rest) <==> Complete(rest)
    ensures CanonicalEscapes(EncodeByte(c) + rest) <==> CanonicalEscapes(rest)
  {
    assert !IsUnreserved(c);
    assert EncodeByte(c) == Respelled(c);
    RespelledValue(c, rest);
    assert (Respelled(c) + rest)[..3] == Respelled(c);
  }
}
