/** The canonical text of a string is its shortest spelling, with hexadecimal
    digits in lower case. */
module ShortestSpelling {
  import opened Utf8
  import opened Wrappers
  import opened Seqs
  import opened Strings
  import opened Spellings
  import opened Hosts

  lemma PlainPrinted(r: int)
    requires IsScalar(r) && r >= 0x20 && r != 0x22 && r != 0x5C
    ensures EscapedAll(Encode(r)) == Encode(r)
  {
    if r >= 0x80 {
      EscapedAllHigh(Encode(r));
    } else {
      OneByte(r);
    }
  }

  lemma OneByte(c: byte)
    requires c < 0x80
    ensures Encode(c) == [c] && EscapedAll([c]) == Escaped(c)
  {
    assert [c][1..] == [];
    assert Escaped(c) + [] == Escaped(c);
  }

  /** A short escape is printed as itself, but for the slash, which is printed
      raw. */
  lemma ShortPrinted(e: byte, r: int)
    requires SimpleEscape(e) == Some(r)
    ensures EscapedAll(Encode(r)) == if r == 0x2F then [0x2F] else [BACKSLASH, e]
  {
    OneByte(r);
  }

  /** A character with no shorter spelling is printed as its \u escape. */
  lemma CodePrinted(p: Bytes, r: int)
    requires IsScalar(r) && CodeSpelling(p, r)
    ensures var t := EscapedAll(Encode(r)); |t| < |p| || (|t| == |p| && t == Lower(p))
  {
    hide CodeEscape;
    if r >= 0x20 && r != 0x22 && r != 0x5C {
      PlainPrinted(r);
      CodeLength(p, r);
    } else {
      OneByte(r);
      CodeLength(p, r);
      if |Escaped(r)| == 6 { ControlPrinted(p, r); }
    }
  }

  lemma ControlPrinted(p: Bytes, r: int)
    requires 0 <= r < 0x20 && CodeEscape(p, r) && |Escaped(r)| == 6
    ensures Escaped(r) == Lower(p)
  {
    hide HexDigit;
    var a, b, c, d :| HexDigit(p[2], a) && HexDigit(p[3], b) && HexDigit(p[4], c) && HexDigit(p[5], d)
                      && r == 4096 * a + 256 * b + 16 * c + d;
    LowerDigit(p[2], a);
    LowerDigit(p[3], b);
    LowerDigit(p[4], c);
    LowerDigit(p[5], d);
    assert a == 0 && b == 0 && c == r / 16 && d == r % 16;
  }

  lemma LowerDigit(c: byte, v: int)
    requires HexDigit(c, v)
    ensures 0 <= v < 16 && LowerByte(c) == LowerHex(v)
  {
    HexDigitValue(c, v);
  }

  /** No spelling of a character is shorter than the printed one, and one as
      short is the printed one up to the case of hexadecimal digits. */
  lemma CharacterShortest(p: Bytes, r: int)
    requires IsScalar(r) && SpellsOne(p, r)
    ensures var t := EscapedAll(Encode(r)); |t| < |p| || t == p || (|t| == |p| == 6 && t == Lower(p))
  {
    hide RawSpelling, CodeSpelling, EscapedAll, Encode, CodeEscape;
    if RawSpelling(p, r) {
      RawIs(p, r);
    } else if ShortSpelling(p, r) {
      ShortMeans(p[1], r);
      ShortPrinted(p[1], r);
    } else {
      CodePrinted(p, r);
      CodeLength(p, r);
      PrintedLength(r);
    }
  }

  lemma RawIs(p: Bytes, r: int)
    requires IsScalar(r) && RawSpelling(p, r)
    ensures p == EscapedAll(Encode(r))
  {
    hide EscapedAll, Encode;
    PlainPrinted(r);
  }

  lemma PrintedLength(r: int)
    requires IsScalar(r)
    ensures |EscapedAll(Encode(r))| <= 6
  {
    if r >= 0x20 && r != 0x22 && r != 0x5C { PlainPrinted(r); } else { OneByte(r); }
  }

  /** The printed form spells its string, and no spelling of it is shorter. */
  lemma {:induction false} PrintedShortest(s: Bytes, t: Bytes)
    requires Spells(t, s)
    ensures |EscapedAll(s)| <= |t|
    decreases |t|
  {
    hide SpellsOne, Encode, EscapedAll;
    if t == [] {
      NothingPrinted();
    } else {
      var k: int, r: int :| SpellsFirst(t, s, k, r) && Spells(t[k..], s[|Encode(r)|..]);
      CharacterShortest(t[..k], r);
      PrintedShortest(s[|Encode(r)|..], t[k..]);
      EscapedAllConcat(Encode(r), s[|Encode(r)|..]);
      Halves(s, |Encode(r)|);
      assert s[..|Encode(r)|] == Encode(r);
    }
  }

  lemma NothingPrinted()
    ensures EscapedAll([]) == []
  {
  }

  lemma PrintedSpells(s: Bytes)
    requires Valid(s)
    ensures Spells(EscapedAll(s), s)
  {
    hide EscapedAll, Spells, Valid;
    CharsPrinted(s, [QUOTE] + []);
    CharsExactly(EscapedAll(s), s, []);
  }
}
