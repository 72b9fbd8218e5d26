/** The spellings of a JSON string in section 7 of RFC 8259, said without the
    scanner: raw characters, two-character escapes, and \u escapes of a
    character's UTF-16 units. */
module Spellings {
  import opened Utf8
  import opened Wrappers
  import opened CodeUnits
  import opened Seqs
  import opened Strings
  import opened JsonFields

  /** The letter after the backslash, and the character it stands for. */
  const SHORT_ESCAPES: map<char, int> :=
    map['"' := 0x22, '\\' := 0x5C, '/' := 0x2F, 'b' := 0x08, 'f' := 0x0C, 'n' := 0x0A, 'r' := 0x0D, 't' := 0x09]

  /** c is a hexadecimal digit, in either case, of value v. */
  predicate HexDigit(c: byte, v: int) {
    0 <= v < 16 && (c == Text("0123456789abcdef")[v] || c == Text("0123456789ABCDEF")[v])
  }

  /** \u and four hexadecimal digits of value u. */
  ghost predicate CodeEscape(t: Bytes, u: int) {
    && |t| == 6 && t[0] == BACKSLASH && t[1] == 0x75
    && exists a, b, c, d :: HexDigit(t[2], a) && HexDigit(t[3], b) && HexDigit(t[4], c) && HexDigit(t[5], d)
                            && u == 4096 * a + 256 * b + 16 * c + d
  }

  /** A character as itself: no control character, quote or backslash. */
  predicate RawSpelling(t: Bytes, r: int)
    requires IsScalar(r)
  {
    r >= 0x20 && r != 0x22 && r != 0x5C && t == Encode(r)
  }

  ghost predicate ShortSpelling(t: Bytes, r: int) {
    exists c :: c in SHORT_ESCAPES && t == [BACKSLASH, c as int % 128] && r == SHORT_ESCAPES[c]
  }

  /** The \u escapes of a character's UTF-16 units. */
  ghost predicate CodeSpelling(t: Bytes, r: int)
    requires IsScalar(r)
  {
    var us := UnitsOf(r);
    if |us| == 1 then CodeEscape(t, us[0])
    else |t| == 12 && CodeEscape(t[..6], us[0]) && CodeEscape(t[6..], us[1])
  }

  ghost predicate SpellsOne(t: Bytes, r: int)
    requires IsScalar(r)
  {
    RawSpelling(t, r) || ShortSpelling(t, r) || CodeSpelling(t, r)
  }

  /** The text, cut into spellings of single characters, spells the string. */
  ghost predicate Spells(t: Bytes, s: Bytes)
    decreases |t|
  {
    if t == [] then s == [] else exists k, r :: SpellsFirst(t, s, k, r) && Spells(t[k..], s[|Encode(r)|..])
  }

  ghost predicate SpellsFirst(t: Bytes, s: Bytes, k: int, r: int) {
    0 < k <= |t| && IsScalar(r) && SpellsOne(t[..k], r) && Encode(r) <= s
  }

  // ---- the scanner reads every spelling of a character ----

  lemma HexDigitValue(c: byte, v: int)
    ensures HexDigit(c, v) <==> HexValue(c) == Some(v)
  {
    if 0 <= v < 16 {
      HexDigitAt(v);
    }
  }

  lemma HexDigitAt(v: int)
    requires 0 <= v < 16
    ensures Text("0123456789abcdef")[v] == if v < 10 then 0x30 + v else 0x61 + v - 10
    ensures Text("0123456789ABCDEF")[v] == if v < 10 then 0x30 + v else 0x41 + v - 10
  {
    LowerAt(v);
    UpperAt(v);
  }

  lemma LowerAt(v: int)
    requires 0 <= v < 16
    ensures "0123456789abcdef"[v] as int == if v < 10 then 0x30 + v else 0x61 + v - 10
  {
    assert v == 0 || v == 1 || v == 2 || v == 3 || v == 4 || v == 5 || v == 6 || v == 7 || v == 8 || v == 9 || v == 10
        || v == 11 || v == 12 || v == 13 || v == 14 || v == 15;
  }

  lemma UpperAt(v: int)
    requires 0 <= v < 16
    ensures "0123456789ABCDEF"[v] as int == if v < 10 then 0x30 + v else 0x41 + v - 10
  {
    assert v == 0 || v == 1 || v == 2 || v == 3 || v == 4 || v == 5 || v == 6 || v == 7 || v == 8 || v == 9 || v == 10
        || v == 11 || v == 12 || v == 13 || v == 14 || v == 15;
  }

  lemma CodeEscapeReads(t: Bytes, u: int)
    requires |t| >= 6
    ensures CodeEscape(t[..6], u) <==> t[0] == BACKSLASH && t[1] == 0x75 && Hex4(t[2..]) == Some(u)
  {
    hide HexDigit, HexValue;
    var p := t[..6];
    forall i, v | 2 <= i < 6 ensures HexDigit(p[i], v) <==> HexValue(t[i]) == Some(v) { HexDigitValue(t[i], v); }
    if CodeEscape(p, u) {
      var a, b, c, d :| HexDigit(p[2], a) && HexDigit(p[3], b) && HexDigit(p[4], c) && HexDigit(p[5], d)
                        && u == 4096 * a + 256 * b + 16 * c + d;
      assert HexValue(t[2]) == Some(a) && HexValue(t[3]) == Some(b) && HexValue(t[4]) == Some(c) && HexValue(t[5]) == Some(d);
    }
    if t[0] == BACKSLASH && t[1] == 0x75 && Hex4(t[2..]) == Some(u) {
      assert HexDigit(p[2], HexValue(t[2]).value) && HexDigit(p[3], HexValue(t[3]).value);
      assert HexDigit(p[4], HexValue(t[4]).value) && HexDigit(p[5], HexValue(t[5]).value);
    }
  }

  /** What Chars makes of a character's text followed by w. */
  function Prepend(a: Bytes, r: Option<(Bytes, Bytes)>): Option<(Bytes, Bytes)> {
    if r.None? then None else Some((a + r.value.0, r.value.1))
  }

  lemma RawReads(p: Bytes, r: int, w: Bytes)
    requires IsScalar(r) && RawSpelling(p, r)
    ensures Chars(p + w) == Prepend(Encode(r), Chars(w))
  {
    hide RuneLen, RuneAt;
    var t := p + w;
    DecodeEncode(r, w);
    Cut(p, w);
    RawHead(r);
    assert t[0] == p[0];
  }

  lemma RawHead(r: int)
    requires IsScalar(r) && r >= 0x20 && r != 0x22 && r != 0x5C
    ensures Encode(r)[0] >= 0x20 && Encode(r)[0] != QUOTE && Encode(r)[0] != BACKSLASH
  {
  }

  lemma ShortMeans(e: byte, r: int)
    ensures SimpleEscape(e) == Some(r) <==> exists c :: c in SHORT_ESCAPES && e == c as int % 128 && r == SHORT_ESCAPES[c]
  {
    if SimpleEscape(e) == Some(r) {
      var c := e as char;
      assert c in SHORT_ESCAPES && e == c as int % 128 && r == SHORT_ESCAPES[c];
    }
  }

  lemma ShortReads(p: Bytes, r: int, w: Bytes)
    requires IsScalar(r) && ShortSpelling(p, r)
    ensures Chars(p + w) == Prepend(Encode(r), Chars(w))
  {
    hide SimpleEscape, UnicodeEscape;
    var t := p + w;
    ShortMeans(p[1], r);
    ShortIsAscii(p[1], r);
    assert t[0] == p[0] && t[1..] == [p[1]] + w && ([p[1]] + w)[1..] == w;
  }

  lemma ShortIsAscii(e: byte, r: int)
    requires SimpleEscape(e) == Some(r)
    ensures e != 0x75 && IsScalar(r) && Encode(r) == [r]
  {
  }

  lemma CodeReads(p: Bytes, r: int, w: Bytes)
    requires IsScalar(r) && CodeSpelling(p, r)
    ensures Chars(p + w) == Prepend(Encode(r), Chars(w))
  {
    hide Hex4, CodeEscape, Encode;
    var t := p + w;
    EscapeOfCode(p, r, w);
    assert t[0] == BACKSLASH;
  }

  /** The escape sequence behind the backslash is read whole. */
  lemma EscapeOfCode(p: Bytes, r: int, w: Bytes)
    requires IsScalar(r) && CodeSpelling(p, r)
    ensures p != [] && p[0] == BACKSLASH && EscapeSequence((p + w)[1..]) == Some((Encode(r), w))
  {
    hide Hex4, CodeEscape, Encode, JoinSurrogates, UnitsOf;
    var t := p + w;
    var us := UnitsOf(r);
    CodeLength(p, r);
    var u := t[1..];
    assert t[..6] == p[..6] && u[1..] == t[2..] && u[0] == t[1];
    CodeEscapeReads(t, us[0]);
    UnitRanges(r);
    if |us| == 1 {
      assert p[..6] == p && t[2..][4..] == w;
    } else {
      var v := t[6..];
      assert v[..6] == p[6..] && t[2..][6..] == v[2..] && t[2..][4] == v[0] && t[2..][5] == v[1] && t[2..][10..] == w;
      CodeEscapeReads(v, us[1]);
    }
  }

  lemma CodeLength(p: Bytes, r: int)
    requires IsScalar(r) && CodeSpelling(p, r)
    ensures |p| == 6 * |UnitsOf(r)|
  {
  }

  lemma UnitRanges(r: int)
    requires IsScalar(r)
    ensures var us := UnitsOf(r);
            if |us| == 1 then us[0] == r && !(0xD800 <= us[0] <= 0xDFFF)
            else 0xD800 <= us[0] <= 0xDBFF && 0xDC00 <= us[1] <= 0xDFFF && JoinSurrogates(us[0], us[1]) == r
  {
    if r >= 0x10000 { JoinInvertsSplit(r); }
  }

  /** Every spelling of a character reads as the character, whatever follows. */
  lemma SpellingReads(p: Bytes, r: int, w: Bytes)
    requires IsScalar(r) && SpellsOne(p, r)
    ensures Chars(p + w) == Prepend(Encode(r), Chars(w))
  {
    hide Chars, RawSpelling, ShortSpelling, CodeSpelling;
    if RawSpelling(p, r) {
      RawReads(p, r, w);
    } else if ShortSpelling(p, r) {
      ShortReads(p, r, w);
    } else {
      CodeReads(p, r, w);
    }
  }

  // ---- whatever the scanner reads is a spelling ----

  /** The first character of a scanned string, and its spelling. */
  lemma FirstSpelled(t: Bytes) returns (k: nat, r: int)
    requires Chars(t).Some? && t[0] != QUOTE
    ensures 0 < k <= |t| && IsScalar(r) && SpellsOne(t[..k], r)
    ensures Chars(t) == Prepend(Encode(r), Chars(t[k..]))
  {
    if t[0] == BACKSLASH {
      k, r := FirstEscape(t);
    } else {
      k, r := RuneLen(t), RuneAt(t);
      FirstRaw(t);
    }
  }

  lemma FirstRaw(t: Bytes)
    requires t != [] && t[0] >= 0x20 && t[0] != QUOTE && t[0] != BACKSLASH && RuneLen(t) > 0
    ensures RawSpelling(t[..RuneLen(t)], RuneAt(t)) && Encode(RuneAt(t)) == t[..RuneLen(t)]
  {
    EncodeDecode(t);
  }

  lemma FirstEscape(t: Bytes) returns (k: nat, r: int)
    requires Chars(t).Some? && t[0] == BACKSLASH
    ensures 0 < k <= |t| && IsScalar(r) && SpellsOne(t[..k], r)
    ensures Chars(t) == Prepend(Encode(r), Chars(t[k..]))
  {
    hide SpellsOne, Encode;
    k, r := EscapeSpelled(t);
  }

  lemma EscapeSpelled(t: Bytes) returns (k: nat, r: int)
    requires t != [] && t[0] == BACKSLASH && EscapeSequence(t[1..]).Some?
    ensures 0 < k <= |t| && IsScalar(r) && SpellsOne(t[..k], r)
    ensures EscapeSequence(t[1..]) == Some((Encode(r), t[k..]))
  {
    hide Hex4, SimpleEscape, CodeEscape;
    var u := t[1..];
    if u[0] == 0x75 {
      k, r := CodeSpelled(t);
    } else {
      k, r := 2, SimpleEscape(u[0]).value;
      ShortMeans(u[0], r);
      ShortIsAscii(u[0], r);
      assert t[..2] == [BACKSLASH, u[0]] && u[1..] == t[2..];
      var c :| c in SHORT_ESCAPES && u[0] == c as int % 128 && r == SHORT_ESCAPES[c];
      assert ShortSpelling(t[..2], r);
    }
  }

  lemma CodeSpelled(t: Bytes) returns (k: nat, r: int)
    requires |t| >= 2 && t[0] == BACKSLASH && t[1] == 0x75 && UnicodeEscape(t[2..]).Some?
    ensures 0 < k <= |t| && IsScalar(r) && CodeSpelling(t[..k], r)
    ensures UnicodeEscape(t[2..]) == Some((Encode(r), t[k..]))
  {
    hide Hex4, CodeEscape, Encode;
    var u := Hex4(t[2..]).value;
    CodeEscapeReads(t, u);
    if 0xD800 <= u <= 0xDBFF {
      var v := t[6..];
      assert t[2..][6..] == v[2..] && v[0] == BACKSLASH && v[1] == 0x75;
      var w := Hex4(v[2..]).value;
      CodeEscapeReads(v, w);
      k, r := 12, JoinSurrogates(u, w);
      SplitInvertsJoin(u, w);
      assert t[..12][..6] == t[..6] && t[..12][6..] == v[..6] && t[2..][10..] == t[12..];
    } else {
      k, r := 6, u;
      assert t[2..][4..] == t[6..];
    }
  }

  // ---- the theorem ----

  /** A quoted text scans as a string exactly when it spells it. */
  lemma {:induction false} CharsExactly(t: Bytes, s: Bytes, rest: Bytes)
    ensures Chars(t + ([QUOTE] + rest)) == Some((s, rest)) <==> Spells(t, s)
    decreases |t|
  {
    hide SpellsOne, Encode;
    if t == [] {
      assert t + ([QUOTE] + rest) == [QUOTE] + rest;
    } else {
      if Spells(t, s) { SpelledScans(t, s, rest); }
      if Chars(t + ([QUOTE] + rest)) == Some((s, rest)) { ScannedSpells(t, s, rest); }
    }
  }

  lemma {:induction false} SpelledScans(t: Bytes, s: Bytes, rest: Bytes)
    requires t != [] && Spells(t, s)
    ensures Chars(t + ([QUOTE] + rest)) == Some((s, rest))
    decreases |t|, 0
  {
    hide SpellsOne, Encode, Chars;
    var k: int, r: int :| SpellsFirst(t, s, k, r) && Spells(t[k..], s[|Encode(r)|..]);
    var w := t[k..] + ([QUOTE] + rest);
    CharsExactly(t[k..], s[|Encode(r)|..], rest);
    SpellingReads(t[..k], r, w);
    Halves(t, k);
    Assoc(t[..k], t[k..], [QUOTE] + rest);
    Halves(s, |Encode(r)|);
    assert s[..|Encode(r)|] == Encode(r);
  }

  lemma {:induction false} ScannedSpells(t: Bytes, s: Bytes, rest: Bytes)
    requires t != [] && Chars(t + ([QUOTE] + rest)) == Some((s, rest))
    ensures Spells(t, s)
    decreases |t|, 0
  {
    hide SpellsOne, Encode, Chars;
    var w := t + ([QUOTE] + rest);
    if w[0] == QUOTE { QuoteEnds(w); }
    var k, r := FirstSpelled(w);
    ScannedIsShorter(w[k..]);
    assert k <= |t|;
    assert w[..k] == t[..k] && w[k..] == t[k..] + ([QUOTE] + rest);
    var more := Chars(w[k..]).value.0;
    CharsExactly(t[k..], more, rest);
    assert s[|Encode(r)|..] == more;
    assert SpellsFirst(t, s, k, r);
  }

  lemma QuoteEnds(w: Bytes)
    requires w != [] && w[0] == QUOTE
    ensures Chars(w) == Some(([], w[1..]))
  {
  }

  lemma ScannedIsShorter(w: Bytes)
    ensures Chars(w).Some? ==> |Chars(w).value.1| < |w|
  {
  }
}
