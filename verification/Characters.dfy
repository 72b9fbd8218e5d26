/** The character sets of the URL and ID grammars, written out as the standards
    write them, and what each set decides. */
module Characters {
  import opened Utf8
  import opened Wrappers
  import opened Seqs
  import opened Strings
  import opened Segments
  import opened ResourceIds
  import opened UrlText
  import opened Escapes
  import opened Hosts
  import opened ScopeUrls
  import opened References

  predicate IsLower(c: byte) { 'a' <= c as char <= 'z' }

  predicate IsUpper(c: byte) { 'A' <= c as char <= 'Z' }

  predicate IsNumeral(c: byte) { '0' <= c as char <= '9' }

  predicate Among(c: byte, s: string) { c as char in s }

  /** unreserved, section 2.3 of RFC 3986. */
  predicate Unreserved(c: byte) { IsLower(c) || IsUpper(c) || IsNumeral(c) || Among(c, "-._~") }

  /** sub-delims and gen-delims, section 2.2. */
  const SUB_DELIMS := "!$&'()*+,;="
  const GEN_DELIMS := ":/?#[]@"

  /** pchar without escapes, section 3.3. */
  predicate PathCharacter(c: byte) { Unreserved(c) || Among(c, SUB_DELIMS) || Among(c, ":@") }

  /** A byte value as a percent escape, in upper case. */
  function Escape(c: byte): Bytes {
    [0x25, "0123456789ABCDEF"[c / 16] as int % 256, "0123456789ABCDEF"[c % 16] as int % 256]
  }

  lemma HexLetters(v: int)
    requires 0 <= v < 16
    ensures UpperHex(v) == "0123456789ABCDEF"[v] as int % 256
  {
    assert v == 0 || v == 1 || v == 2 || v == 3 || v == 4 || v == 5 || v == 6 || v == 7 || v == 8 || v == 9 || v == 10
        || v == 11 || v == 12 || v == 13 || v == 14 || v == 15;
  }

  /** A segment spells path characters as themselves and every other byte as an
      escape. */
  lemma SegmentSpelling(c: byte)
    ensures EncodeByte(c) == if PathCharacter(c) then [c] else Escape(c)
  {
    HexLetters(c / 16);
    HexLetters(c % 16);
  }

  /** A normalised escape is the byte itself when it is unreserved. */
  lemma EscapeSpelling(c: byte)
    ensures Respelled(c) == if Unreserved(c) then [c] else Escape(c)
  {
    HexLetters(c / 16);
    HexLetters(c % 16);
  }

  /** The characters of a URI: unreserved, reserved, and the percent sign. */
  lemma UriCharacters(c: byte)
    ensures IsUriByte(c) <==> Unreserved(c) || Among(c, SUB_DELIMS) || Among(c, GEN_DELIMS) || c == 0x25
  {
  }

  /** A scheme is a letter, then letters, digits, plus, minus and dot. */
  lemma SchemeCharacters(s: Bytes)
    ensures IsSchemeToken(s)
       <==> s != [] && (IsLower(s[0]) || IsUpper(s[0]))
            && forall i :: 1 <= i < |s| ==> IsLower(s[i]) || IsUpper(s[i]) || IsNumeral(s[i]) || Among(s[i], "+-.")
  {
  }

  /** Values an ID segment may not contain: controls and path separators. */
  lemma ForbiddenInIds(r: int)
    requires r >= 0
    ensures IsForbiddenRune(r) <==> r < 0x20 || r == 0x7F || r == '/' as int || r == '\\' as int
  {
  }

  /** The forbidden domain code points of the URL standard. */
  lemma ForbiddenInDomains(c: byte)
    ensures IsForbiddenDomain(c) <==> c <= 0x20 || c == 0x7F || Among(c, "#%/:<>?@[\\]^|")
  {
  }

  /** Lowercase letters, digits, hyphen and underscore make a host label. */
  lemma LabelCharacters(c: byte)
    ensures IsLabelByte(c) <==> IsLower(c) || IsNumeral(c) || Among(c, "-_")
  {
  }

  lemma LowerCase(c: byte)
    ensures LowerByte(c) == if IsUpper(c) then c - 'A' as int + 'a' as int else c
  {
  }

  /** What the URL laws refuse anywhere, in a path, and in a query. */
  lemma UrlCharacters(c: byte)
    ensures IsUrlByte(c) <==> '!' <= c as char <= '~' && c as char != '\\'
    ensures IsPathBad(c) <==> Among(c, "\"<>`{}")
    ensures IsQueryBad(c) <==> Among(c, "\"<>'")
  {
  }

  /** The characters generated IDs are drawn from. */
  lemma GeneratedCharacters(v: int)
    requires 0 <= v < 32
    ensures AlphabetByte(v) == "abcdefghijklmnopqrstuvwxyz234567"[v] as int % 256
  {
    if v >= 26 {
      assert v == 26 || v == 27 || v == 28 || v == 29 || v == 30 || v == 31;
    } else {
      LetterAt(v);
    }
  }

  lemma LetterAt(v: int)
    requires 0 <= v < 26
    ensures "abcdefghijklmnopqrstuvwxyz234567"[v] == ('a' as int + v) as char
  {
    assert v == 0 || v == 1 || v == 2 || v == 3 || v == 4 || v == 5 || v == 6 || v == 7 || v == 8 || v == 9 || v == 10 || v == 11
        || v == 12 || v == 13 || v == 14 || v == 15 || v == 16 || v == 17 || v == 18 || v == 19 || v == 20 || v == 21
        || v == 22 || v == 23 || v == 24 || v == 25;
  }

  /** A generated ID takes the low five bits of each entropy byte. */
  lemma MaskedCharacters(entropy: Bytes, i: nat)
    requires i < |entropy|
    ensures Masked(entropy)[i] == "abcdefghijklmnopqrstuvwxyz234567"[entropy[i] % 32] as int % 256
  {
    GeneratedCharacters(entropy[i] % 32);
  }

  // ---- what the sets decide ----

  predicate IsHexDigit(c: byte) { IsNumeral(c) || 'a' <= c as char <= 'f' || 'A' <= c as char <= 'F' }

  /** Two hexadecimal digits stand behind the percent sign at i. */
  predicate EscapedAt(t: Bytes, i: nat) { i + 2 < |t| && IsHexDigit(t[i + 1]) && IsHexDigit(t[i + 2]) }

  lemma HexDigits(c: byte)
    ensures HexValue(c).Some? <==> IsHexDigit(c)
  {
  }

  /** Escapes are complete exactly when two hexadecimal digits stand behind every
      percent sign. */
  lemma {:induction false} CompleteMeans(t: Bytes)
    ensures Complete(t) <==> forall i :: 0 <= i < |t| && t[i] == 0x25 ==> EscapedAt(t, i)
    decreases |t|
  {
    hide HexValue, IsHexDigit;
    if t != [] {
      if t[0] != 0x25 {
        CompleteMeans(t[1..]);
        assert forall i :: 0 < i < |t| ==> t[1..][i - 1] == t[i] && (EscapedAt(t[1..], i - 1) <==> EscapedAt(t, i));
      } else {
        EscapeMeans(t);
        if EscapedAt(t, 0) {
          CompleteMeans(t[3..]);
          NotMarks(t);
          assert forall i :: 3 <= i < |t| ==> t[3..][i - 3] == t[i] && (EscapedAt(t[3..], i - 3) <==> EscapedAt(t, i));
        }
      }
    }
  }

  lemma EscapeMeans(t: Bytes)
    requires t != [] && t[0] == 0x25
    ensures EscapeAt(t).Some? <==> EscapedAt(t, 0)
  {
    hide HexValue, IsHexDigit;
    if |t| >= 3 {
      HexDigits(t[1]);
      HexDigits(t[2]);
    }
  }

  lemma NotMarks(t: Bytes)
    requires |t| >= 3 && EscapedAt(t, 0)
    ensures t[1] != 0x25 && t[2] != 0x25
  {
  }

  /** An absolute URI: a scheme and a colon, the characters of a URI, and two
      hexadecimal digits behind every percent sign. */
  lemma AbsoluteExactly(s: Bytes)
    ensures AbsoluteUri(s)
       <==> && (exists n :: 0 < n < |s| && s[n] == 0x3A && IsSchemeToken(s[..n]))
            && (forall i :: 0 <= i < |s| ==> IsUriByte(s[i]))
            && forall i :: 0 <= i < |s| && s[i] == 0x25 ==> EscapedAt(s, i)
  {
    hide IsUriByte, IsSchemeToken, Complete, EscapedAt;
    CompleteMeans(s);
    SchemeCut(s);
  }

  lemma SchemeCut(s: Bytes)
    ensures HasScheme(s) <==> exists n :: 0 < n < |s| && s[n] == 0x3A && IsSchemeToken(s[..n])
  {
    hide CutFirst, IsSchemeToken;
    var c := CutFirst(s, COLON);
    if HasScheme(s) {
      var n := |c.before|;
      Cut(c.before, [COLON] + c.after);
      TokenNonempty(c.before);
      assert s[..n] == c.before && s[n] == COLON;
    }
    if n :| 0 < n < |s| && s[n] == 0x3A && IsSchemeToken(s[..n]) {
      NoColon(s[..n]);
      Around(s, n);
      CutFirstMarked(s[..n], COLON, s[n + 1..]);
    }
  }

  lemma TokenNonempty(t: Bytes)
    requires IsSchemeToken(t)
    ensures t != []
  {
  }

  lemma NoColon(t: Bytes)
    requires IsSchemeToken(t)
    ensures COLON !in t
  {
  }

  /** A segment is spelled as it is exactly when all of it are path
      characters. */
  lemma {:induction false} SpelledAsItself(s: Bytes)
    ensures EncodeSegment(s) == s <==> forall i :: 0 <= i < |s| ==> PathCharacter(s[i])
  {
    hide PathCharacter, Escape, EncodeByte;
    if s != [] {
      SegmentSpelling(s[0]);
      SpelledAsItself(s[1..]);
      EncodedLength(s[1..]);
      assert s == [s[0]] + s[1..];
      if PathCharacter(s[0]) {
        assert EncodeSegment(s) == [s[0]] + EncodeSegment(s[1..]);
        assert EncodeSegment(s)[1..] == EncodeSegment(s[1..]);
      } else {
        EscapeLength(s[0]);
        assert |EncodeSegment(s)| > |s|;
      }
    }
  }

  lemma EscapeLength(c: byte)
    ensures |Escape(c)| == 3
  {
  }

  lemma {:induction false} EncodedLength(s: Bytes)
    ensures |EncodeSegment(s)| >= |s|
  {
    if s != [] { EncodedLength(s[1..]); }
  }
}
