/** JSON strings: the escapes of RFC 8259 on the way in, those of
    JSON.stringify on the way out. Strings are Go byte strings. */
module Strings {
  import opened Utf8
  import opened Wrappers
  import opened CodeUnits
  import opened Seqs


  // ---- scanning ----

  function HexValue(c: byte): (v: Option<int>)
    ensures v.Some? ==> 0 <= v.value < 16
  {
    if 0x30 <= c <= 0x39 then Some(c - 0x30)
    else if 0x61 <= c <= 0x66 then Some(c - 0x61 + 10)
    else if 0x41 <= c <= 0x46 then Some(c - 0x41 + 10)
    else None
  }

  /** Four hexadecimal digits. */
  function Hex4(t: Bytes): (v: Option<int>)
    ensures v.Some? ==> |t| >= 4 && 0 <= v.value < 0x10000
  {
    if |t| < 4 then None
    else
      var a :- HexValue(t[0]);
      var b :- HexValue(t[1]);
      var c :- HexValue(t[2]);
      var d :- HexValue(t[3]);
      Some(a * 4096 + b * 256 + c * 16 + d)
  }

  /** What follows \u: one scalar, or both halves of a surrogate pair. A lone
      half is refused. */
  function UnicodeEscape(t: Bytes): (r: Option<(Bytes, Bytes)>)
    ensures r.Some? ==> Valid(r.value.0) && |r.value.1| < |t|
  {
    var u :- Hex4(t);
    if 0xD800 <= u <= 0xDBFF then
      if |t| < 6 || t[4] != BACKSLASH || t[5] != 0x75 then None
      else
        var v :- Hex4(t[6..]);
        if v < 0xDC00 || v > 0xDFFF then None
        else
          SplitInvertsJoin(u, v);
          ValidEncode(JoinSurrogates(u, v));
          Some((Encode(JoinSurrogates(u, v)), t[10..]))
    else if 0xDC00 <= u <= 0xDFFF then None
    else
      ValidEncode(u);
      Some((Encode(u), t[4..]))
  }

  /** The two-character escapes: the letter after the backslash, and what it
      stands for. */
  function SimpleEscape(e: byte): Option<byte> {
    match e
    case 0x22 => Some(0x22)
    case 0x5C => Some(0x5C)
    case 0x2F => Some(0x2F)
    case 0x62 => Some(0x08)
    case 0x66 => Some(0x0C)
    case 0x6E => Some(0x0A)
    case 0x72 => Some(0x0D)
    case 0x74 => Some(0x09)
    case _ => None
  }

  /** What follows a backslash. */
  function EscapeSequence(t: Bytes): (r: Option<(Bytes, Bytes)>)
    ensures r.Some? ==> |r.value.1| < |t|
  {
    if t == [] then None
    else if t[0] == 0x75 then UnicodeEscape(t[1..])
    else
      var c :- SimpleEscape(t[0]);
      Some(([c], t[1..]))
  }

  /** The text after an opening quote: the decoded string, and the text after
      the closing quote. A raw control character or ill-formed UTF-8 is
      refused. */
  function Chars(t: Bytes): (r: Option<(Bytes, Bytes)>)
    ensures r.Some? ==> |r.value.1| < |t|
    decreases |t|
  {
    if t == [] then None
    else if t[0] == QUOTE then Some(([], t[1..]))
    else if t[0] == BACKSLASH then
      var esc :- EscapeSequence(t[1..]);
      var more :- Chars(esc.1);
      Some((esc.0 + more.0, more.1))
    else if t[0] < 0x20 || RuneLen(t) == 0 then None
    else
      var more :- Chars(t[RuneLen(t)..]);
      Some((t[..RuneLen(t)] + more.0, more.1))
  }

  /** Every scanned string is valid UTF-8. */
  lemma {:induction false} CharsValid(t: Bytes)
    ensures Chars(t).Some? ==> Valid(Chars(t).value.0)
    decreases |t|
  {
    if Chars(t).Some? && t[0] != QUOTE {
      if t[0] == BACKSLASH {
        var esc := EscapeSequence(t[1..]).value;
        CharsValid(esc.1);
        EscapeValid(t[1..]);
        ValidConcat(esc.0, Chars(esc.1).value.0);
      } else {
        var n := RuneLen(t);
        CharsValid(t[n..]);
        RuneIsValid(t);
        ValidConcat(t[..n], Chars(t[n..]).value.0);
      }
    }
  }

  lemma EscapeValid(t: Bytes)
    ensures EscapeSequence(t).Some? ==> Valid(EscapeSequence(t).value.0)
  {
    if EscapeSequence(t).Some? && t[0] != 0x75 {
      ValidEncode(SimpleEscape(t[0]).value);
    }
  }

  lemma RuneIsValid(t: Bytes)
    requires RuneLen(t) > 0
    ensures Valid(t[..RuneLen(t)])
  {
    EncodeDecode(t);
    ValidEncode(RuneAt(t));
  }

  // ---- printing ----

  predicate IsLowerHexByte(c: byte) { 0x30 <= c <= 0x39 || 0x61 <= c <= 0x66 }

  function LowerHex(v: int): byte
    requires 0 <= v < 16
  {
    if v < 10 then 0x30 + v else 0x61 + v - 10
  }

  function Escaped(c: byte): (e: Bytes)
    ensures e != []
  {
    if c == QUOTE then [BACKSLASH, QUOTE]
    else if c == BACKSLASH then [BACKSLASH, BACKSLASH]
    else if c == 0x08 then [BACKSLASH, 0x62]
    else if c == 0x0C then [BACKSLASH, 0x66]
    else if c == 0x0A then [BACKSLASH, 0x6E]
    else if c == 0x0D then [BACKSLASH, 0x72]
    else if c == 0x09 then [BACKSLASH, 0x74]
    else if c < 0x20 then [BACKSLASH, 0x75, 0x30, 0x30, LowerHex(c / 16), LowerHex(c % 16)]
    else [c]
  }

  function EscapedAll(s: Bytes): Bytes {
    if s == [] then [] else Escaped(s[0]) + EscapedAll(s[1..])
  }

  function Quoted(s: Bytes): Bytes {
    [QUOTE] + EscapedAll(s) + [QUOTE]
  }

  // ---- scanning inverts printing ----

  /** An escape that the printer writes reads back as the byte it stands for. */
  lemma EscapedThen(c: byte, rest: Bytes)
    requires Escaped(c)[0] == BACKSLASH
    ensures c < 0x80
    ensures EscapeSequence((Escaped(c) + rest)[1..]) == Some(([c], rest))
  {
    var t := (Escaped(c) + rest)[1..];
    if c < 0x20 && SimpleEscape(Escaped(c)[1]).None? {
      assert t == [0x75, 0x30, 0x30, LowerHex(c / 16), LowerHex(c % 16)] + rest;
      assert t[1..][4..] == rest;
      assert Hex4(t[1..]) == Some(c);
    } else {
      assert t[1..] == rest;
    }
  }

  lemma {:induction false} EscapedAllConcat(a: Bytes, b: Bytes)
    ensures EscapedAll(a + b) == EscapedAll(a) + EscapedAll(b)
  {
    if a == [] {
      assert a + b == b;
    } else {
      EscapedAllConcat(a[1..], b);
      assert (a + b)[1..] == a[1..] + b;
      Assoc(Escaped(a[0]), EscapedAll(a[1..]), EscapedAll(b));
    }
  }

  /** Bytes outside ASCII are printed as they are. */
  lemma {:induction false} EscapedAllHigh(s: Bytes)
    requires forall i :: 0 <= i < |s| ==> s[i] >= 0x80
    ensures EscapedAll(s) == s
  {
    if s != [] {
      EscapedAllHigh(s[1..]);
      assert s == [s[0]] + s[1..];
    }
  }

  /** A rune's printed form reads back as the rune, whatever follows. */
  lemma RuneThen(r: Bytes, rest: Bytes, s: Bytes, post: Bytes)
    requires r != [] && RuneLen(r) == |r|
    requires Chars(rest) == Some((s, post))
    ensures Chars(EscapedAll(r) + rest) == Some((r + s, post))
  {
    if Escaped(r[0])[0] == BACKSLASH {
      EscapedThen(r[0], rest);
      assert r == [r[0]];
      assert EscapedAll(r) == Escaped(r[0]);
    } else {
      if r[0] >= 0x80 {
        EscapedAllHigh(r);
      } else {
        assert EscapedAll(r) == r;
      }
      RuneLenPrefix(r, rest);
      assert (r + rest)[|r|..] == rest;
      assert (r + rest)[..|r|] == r;
    }
  }

  /** The first rune of a string, alone, is a rune. */
  lemma FirstRune(s: Bytes)
    requires RuneLen(s) > 0
    ensures RuneLen(s[..RuneLen(s)]) == RuneLen(s)
  {
    EncodeDecode(s);
    DecodeEncode(RuneAt(s), []);
    assert Encode(RuneAt(s)) + [] == Encode(RuneAt(s));
  }

  lemma PrintedStep(r: Bytes, s: Bytes, tail: Bytes, post: Bytes)
    requires r != [] && RuneLen(r) == |r|
    requires Chars(EscapedAll(s) + tail) == Some((s, post))
    ensures Chars(EscapedAll(r + s) + tail) == Some((r + s, post))
  {
    RuneThen(r, EscapedAll(s) + tail, s, post);
    EscapedAllConcat(r, s);
    Assoc(EscapedAll(r), EscapedAll(s), tail);
  }

  /** The printed form of a valid string scans back to that string. */
  lemma {:induction false} CharsPrinted(s: Bytes, tail: Bytes)
    requires Valid(s) && tail != [] && tail[0] == QUOTE
    ensures Chars(EscapedAll(s) + tail) == Some((s, tail[1..]))
    decreases |s|
  {
    if s == [] {
      assert EscapedAll(s) + tail == tail;
    } else {
      var n := RuneLen(s);
      FirstRune(s);
      CharsPrinted(s[n..], tail);
      PrintedStep(s[..n], s[n..], tail, tail[1..]);
      Halves(s, n);
    }
  }

  lemma QuotedThen(s: Bytes, post: Bytes)
    requires Valid(s)
    ensures Quoted(s) + post == [QUOTE] + (EscapedAll(s) + ([QUOTE] + post))
    ensures Chars(EscapedAll(s) + ([QUOTE] + post)) == Some((s, post))
  {
    CharsPrinted(s, [QUOTE] + post);
    Cut([QUOTE], post);
    Assoc([QUOTE] + EscapedAll(s), [QUOTE], post);
    Assoc([QUOTE], EscapedAll(s), [QUOTE] + post);
  }
}
