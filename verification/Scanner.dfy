/** The hand-written scanner: one pass over the input that validates, decodes
    and prints canonically as it goes. Every method is proved against the pure
    parse of the input from where it stands. */
module Scanner {
  import opened Utf8
  import opened Wrappers
  import opened CodeUnits
  import opened Numbers
  import opened NumberText
  import opened Strings
  import opened Sorting
  import opened Seqs
  import opened Json

  // ---- printing a number ----

  method CountLeading(digits: Bytes) returns (lead: nat)
    ensures lead == Leading(digits)
  {
    lead := 0;
    while lead < |digits| && digits[lead] == ZERO
      invariant lead <= Leading(digits)
    {
      lead := lead + 1;
    }
  }

  method CountTrailing(digits: Bytes) returns (zeros: nat)
    requires Trailing(digits) < |digits|
    ensures zeros == Trailing(digits)
  {
    zeros := 0;
    while digits[|digits| - zeros - 1] == ZERO
      invariant zeros <= Trailing(digits)
      decreases |digits| - zeros
    {
      zeros := zeros + 1;
    }
  }

  /** Drop zeros at both ends, place the digits, print. A normal form whose
      exponent is out of range is the one refusal. */
  method AppendCanonicalNumber(out: Bytes, l: Number) returns (r: Option<Bytes>)
    ensures r == if Normalize(l).InRange() then Some(out + Print(Normalize(l))) else None
  {
    hide Print;
    var digits := l.whole + l.frac;
    var lead := CountLeading(digits);
    digits := digits[lead..];
    if |digits| == 0 {
      PrintZero();
      return Some(out + [ZERO]);
    }
    var n := l.exp - |l.frac| + |digits|;
    var zeros := CountTrailing(digits);
    digits := digits[..|digits| - zeros];
    NormalizedEnds(l, digits, n);
    if n - 1 > MAX_EXPONENT || n - 1 < -MAX_EXPONENT {
      return None;
    }
    var body := AppendPlaced(digits, n);
    PrintSplit(l.neg, digits, n);
    r := Some(out + ((if l.neg then [MINUS] else []) + body));
  }

  lemma PrintZero()
    ensures Print(Zero) == [ZERO]
  {
  }

  method AppendZeros(out: Bytes, n: nat) returns (r: Bytes)
    ensures r == out + Zeros(n)
  {
    r := out;
    var i := 0;
    while i < n
      invariant 0 <= i <= n
      invariant r == out + Zeros(i)
    {
      r := r + [ZERO];
      i := i + 1;
    }
  }

  /** Cutting the zeros off both ends is normalising. */
  lemma NormalizedEnds(l: Number, digits: Bytes, n: int)
    requires var all := l.whole + l.frac;
             var s := all[Leading(all)..];
             s != [] && digits == s[..|s| - Trailing(s)] && n == l.exp - |l.frac| + |s|
    ensures Normalize(l) == Dec(l.neg, digits, n)
  {
  }

  lemma PrintSplit(neg: bool, digits: Bytes, n: int)
    requires Dec(neg, digits, n).Normal()
    ensures Print(Dec(neg, digits, n)) == SignText(neg) + Unsigned(Place(Dec(false, digits, n)))
  {
    hide DecimalText;
    var a, b := Place(Dec(neg, digits, n)), Place(Dec(false, digits, n));
    assert a.whole == b.whole && a.frac == b.frac && a.exp == b.exp;
  }

  lemma UnsignedWhole(l: Literal)
    requires l.exp == 0
    ensures Unsigned(l) == l.whole + Fraction(l.frac)
    ensures l.frac == [] ==> Unsigned(l) == l.whole
  {
  }

  /** The four placements of Number::toString. */
  method AppendPlaced(digits: Bytes, n: int) returns (r: Bytes)
    requires Dec(false, digits, n).Normal()
    ensures r == Unsigned(Place(Dec(false, digits, n)))
  {
    hide DecimalText, Unsigned;
    var k := |digits|;
    ghost var l := Place(Dec(false, digits, n));
    if k <= n <= 21 {
      r := AppendZeros(digits, n - k);
      UnsignedWhole(l);
    } else if 0 < n <= 21 {
      r := digits[..n] + ([DOT] + digits[n..]);
      UnsignedWhole(l);
    } else if -6 < n <= 0 {
      r := AppendZeros([ZERO, DOT], -n);
      r := r + digits;
      UnsignedWhole(l);
      assert r == [ZERO] + ([DOT] + (Zeros(-n) + digits));
    } else {
      r := AppendScientific(digits, n - 1);
    }
  }

  method AppendScientific(digits: Bytes, e: int) returns (r: Bytes)
    requires digits != [] && e != 0
    ensures r == Unsigned(Literal(false, digits[..1], digits[1..], e))
  {
    var frac: Bytes := [];
    if |digits| > 1 {
      frac := [DOT] + digits[1..];
    }
    var exp: Bytes;
    if e >= 0 {
      exp := [EXP, PLUS] + DecimalText(e);
    } else {
      exp := [EXP, MINUS] + DecimalText(-e);
    }
    r := [digits[0]] + (frac + exp);
    assert digits[..1] == [digits[0]];
  }

  // ---- raw segments of a string ----

  predicate Plain(s: Bytes) {
    forall i :: 0 <= i < |s| ==> s[i] >= 0x20 && s[i] != QUOTE && s[i] != BACKSLASH
  }

  function Prepend(s: Bytes, r: Option<(Bytes, Bytes)>): Option<(Bytes, Bytes)> {
    if r.None? then None else Some((s + r.value.0, r.value.1))
  }

  lemma PrependNil(r: Option<(Bytes, Bytes)>)
    ensures Prepend([], r) == r
  {
    if r.Some? { assert [] + r.value.0 == r.value.0; }
  }

  lemma PrependPrepend(a: Bytes, b: Bytes, r: Option<(Bytes, Bytes)>)
    ensures Prepend(a, Prepend(b, r)) == Prepend(a + b, r)
  {
    if r.Some? { Assoc(a, b, r.value.0); }
  }

  /** Checking a whole segment for UTF-8 at its end is checking rune by rune:
      what follows the segment cannot complete a rune of it. */
  lemma {:induction false} PlainSegment(s: Bytes, rest: Bytes)
    requires Plain(s) && (rest == [] || !IsCont(rest[0]))
    ensures Chars(s + rest) == if Valid(s) then Prepend(s, Chars(rest)) else None
    decreases |s|
  {
    hide Chars, RuneLen;
    if s == [] {
      assert s + rest == rest;
      PrependNil(Chars(rest));
    } else {
      var n := RuneLen(s);
      SegmentRune(s, rest);
      PlainRune(s + rest);
      if n > 0 {
        PlainSegment(s[n..], rest);
        assert (s + rest)[n..] == s[n..] + rest;
        assert (s + rest)[..n] == s[..n];
        PrependPrepend(s[..n], s[n..], Chars(rest));
        Halves(s, n);
      }
    }
  }

  lemma PlainRune(t: Bytes)
    requires t != [] && t[0] >= 0x20 && t[0] != QUOTE && t[0] != BACKSLASH
    ensures Chars(t) == if RuneLen(t) == 0 then None else Prepend(t[..RuneLen(t)], Chars(t[RuneLen(t)..]))
  {
  }

  lemma SegmentRune(s: Bytes, rest: Bytes)
    requires s != [] && (rest == [] || !IsCont(rest[0]))
    ensures RuneLen(s + rest) == RuneLen(s)
  {
    var t := s + rest;
    assert forall i :: 0 <= i < |s| ==> t[i] == s[i];
    assert rest != [] ==> t[|s|] == rest[0];
  }

  /** What the scanner knows when a segment ends. */
  lemma SegmentEnd(buf: Bytes, s: Bytes, rest: Bytes, whole: Option<(Bytes, Bytes)>)
    requires Plain(s) && (rest == [] || !IsCont(rest[0]))
    requires Prepend(buf, Chars(s + rest)) == whole
    ensures whole == if Valid(s) then Prepend(buf + s, Chars(rest)) else None
  {
    PlainSegment(s, rest);
    PrependPrepend(buf, s, Chars(rest));
  }

  lemma CharsAtEscape(t: Bytes)
    requires t != [] && t[0] == BACKSLASH
    ensures var e := EscapeSequence(t[1..]);
            Chars(t) == if e.None? then None else Prepend(e.value.0, Chars(e.value.1))
  {
  }

  lemma CharsAtEnd(t: Bytes)
    ensures t == [] || t[0] < 0x20 ==> Chars(t).None?
    ensures t != [] && t[0] == QUOTE ==> Chars(t) == Some(([], t[1..]))
  {
  }

  /** The value of the first i of four hexadecimal digits. */
  ghost function HexPrefix(t: Bytes, i: nat): int
    requires i <= |t| && forall j :: 0 <= j < i ==> HexValue(t[j]).Some?
  {
    if i == 0 then 0 else HexPrefix(t, i - 1) * 16 + HexValue(t[i - 1]).value
  }

  lemma HexPrefixFour(t: Bytes)
    requires |t| >= 4 && forall j :: 0 <= j < 4 ==> HexValue(t[j]).Some?
    ensures Hex4(t) == Some(HexPrefix(t, 4))
  {
    assert HexPrefix(t, 1) == HexValue(t[0]).value;
    assert HexPrefix(t, 2) == HexPrefix(t, 1) * 16 + HexValue(t[1]).value;
    assert HexPrefix(t, 3) == HexPrefix(t, 2) * 16 + HexValue(t[2]).value;
  }

  /** One reference token of a location: a member name or an index. */
  datatype PathToken = Key(key: Bytes) | Index(index: nat)

  class JsonScanner {
    const input: Bytes
    const rules: Rules
    var pos: nat
    var depth: nat
    var path: seq<PathToken>

    constructor (input: Bytes, rules: Rules)
      ensures this.input == input && this.rules == rules && pos == 0 && depth == 0 && path == []
    {
      this.input, this.rules := input, rules;
      pos, depth, path := 0, 0, [];
    }

    ghost predicate Ready()
      reads this
    {
      pos <= |input| && depth <= MAX_DEPTH
    }

    ghost function Rest(): Bytes
      reads this
      requires pos <= |input|
    {
      input[pos..]
    }

    ghost function Reading(): Mode {
      Mode(ExponentLimit(|input|), rules)
    }

    method SkipSpace()
      requires pos <= |input|
      modifies this`pos
      ensures old(pos) <= pos <= |input| && Rest() == Json.SkipSpace(old(Rest()))
    {
      while pos < |input| && IsSpace(input[pos])
        invariant old(pos) <= pos <= |input| && Json.SkipSpace(Rest()) == Json.SkipSpace(old(Rest()))
      {
        DropDrop(input, pos, 1);
        pos := pos + 1;
      }
    }

    method ScanHex4() returns (r: Option<int>)
      requires pos <= |input|
      modifies this`pos
      ensures pos <= |input| && r == Hex4(old(Rest()))
      ensures r.Some? ==> pos == old(pos) + 4
    {
      ghost var t := Rest();
      if pos + 4 > |input| {
        return None;
      }
      var v := 0;
      var i := 0;
      while i < 4
        invariant 0 <= i <= 4 && pos == old(pos)
        invariant forall j :: 0 <= j < i ==> HexValue(t[j]).Some?
        invariant v == HexPrefix(t, i)
      {
        var d := HexValue(input[pos + i]);
        assert t[i] == input[pos + i];
        if d.None? {
          return None;
        }
        v := v * 16 + d.value;
        i := i + 1;
      }
      HexPrefixFour(t);
      pos := pos + 4;
      r := Some(v);
    }

    /** What follows a backslash. */
    method ScanEscape() returns (r: Option<Bytes>)
      requires pos <= |input|
      modifies this`pos
      ensures pos <= |input|
      ensures var s := EscapeSequence(old(Rest()));
              if s.None? then r.None? else r == Some(s.value.0) && Rest() == s.value.1 && pos > old(pos)
    {
      if pos >= |input| {
        return None;
      }
      var e := input[pos];
      pos := pos + 1;
      if e == 0x75 {
        r := ScanUnicode();
      } else {
        var c := SimpleEscape(e);
        r := if c.None? then None else Some([c.value]);
      }
    }

    method ScanUnicode() returns (r: Option<Bytes>)
      requires pos <= |input|
      modifies this`pos
      ensures pos <= |input|
      ensures var s := UnicodeEscape(old(Rest()));
              if s.None? then r.None? else r == Some(s.value.0) && Rest() == s.value.1 && pos > old(pos)
    {
      var lead := ScanHex4();
      if lead.None? {
        return None;
      }
      var u := lead.value;
      if 0xD800 <= u <= 0xDBFF {
        if pos + 1 >= |input| || input[pos] != BACKSLASH || input[pos + 1] != 0x75 {
          return None;
        }
        pos := pos + 2;
        DropDrop(input, old(pos), 6);
        var trail := ScanHex4();
        if trail.None? || trail.value < 0xDC00 || trail.value > 0xDFFF {
          return None;
        }
        SplitInvertsJoin(u, trail.value);
        r := Some(Encode(JoinSurrogates(u, trail.value)));
        DropDrop(input, old(pos), 10);
      } else if 0xDC00 <= u <= 0xDFFF {
        r := None;
      } else {
        r := Some(Encode(u));
        DropDrop(input, old(pos), 4);
      }
    }

    /** A string at its opening quote. Raw bytes are checked for UTF-8 a
        segment at a time, where an escape or the closing quote ends one. */
    method Str() returns (r: Option<Bytes>)
      requires pos < |input| && input[pos] == QUOTE
      modifies this`pos
      ensures pos <= |input|
      ensures var s := Chars(old(Rest())[1..]);
              if s.None? then r.None? else r == Some(s.value.0) && Rest() == s.value.1 && pos > old(pos)
    {
      hide Chars, Valid, EscapeSequence;
      ghost var whole := Chars(Rest()[1..]);
      pos := pos + 1;
      var buf: Bytes := [];
      var start := pos;
      PrependNil(whole);
      while true
        invariant old(pos) < start <= pos <= |input|
        invariant Plain(input[start..pos])
        invariant Prepend(buf, Chars(input[start..])) == whole
        decreases |input| - pos
      {
        var segment, rest := input[start..pos], input[pos..];
        assert input[start..] == segment + rest;
        CharsAtEnd(rest);
        if pos >= |input| {
          SegmentEnd(buf, segment, rest, whole);
          return None;
        }
        var c := input[pos];
        if c == QUOTE {
          SegmentEnd(buf, segment, rest, whole);
          if !Utf8.Valid(segment) {
            return None;
          }
          pos := pos + 1;
          assert buf + segment + [] == buf + segment;
          return Some(buf + segment);
        } else if c == BACKSLASH {
          SegmentEnd(buf, segment, rest, whole);
          if !Utf8.Valid(segment) {
            return None;
          }
          buf := buf + segment;
          CharsAtEscape(rest);
          pos := pos + 1;
          var e := ScanEscape();
          if e.None? {
            return None;
          }
          PrependPrepend(buf, e.value, Chars(input[pos..]));
          buf := buf + e.value;
          start := pos;
        } else if c < 0x20 {
          SegmentEnd(buf, segment, rest, whole);
          return None;
        } else {
          pos := pos + 1;
        }
      }
    }

    /** One or more digits. */
    method ScanDigits() returns (r: Option<Bytes>)
      requires pos <= |input|
      modifies this`pos
      ensures pos <= |input|
      ensures r.Some? ==> AllDigits(r.value)
      ensures var s := NumberText.Digits(old(Rest()));
              if s.None? then r.None? else r == Some(s.value.0) && Rest() == s.value.1 && pos > old(pos)
    {
      var start := pos;
      ghost var run := DigitRun(Rest());
      while pos < |input| && IsDigit(input[pos])
        invariant start <= pos <= start + run <= |input|
      {
        assert input[start..][pos - start] == input[pos];
        pos := pos + 1;
      }
      assert pos < |input| ==> input[start..][pos - start] == input[pos];
      if pos == start {
        return None;
      }
      DropDrop(input, start, pos - start);
      assert input[start..][..pos - start] == input[start..pos];
      r := Some(input[start..pos]);
    }

    /** The exponent part, refused as soon as it passes the guard. */
    method ScanExponent() returns (r: Option<int>)
      requires pos <= |input|
      modifies this`pos
      ensures pos <= |input|
      ensures var s := Exponent(ExponentLimit(|input|), old(Rest()));
              if s.None? then r.None? else r == Some(s.value.0) && Rest() == s.value.1 && pos >= old(pos)
    {
      hide NatOf, NumberText.Digits;
      if pos >= |input| || (input[pos] != EXP && input[pos] != EXP_UPPER) {
        return Some(0);
      }
      var neg := false;
      pos := pos + 1;
      if pos < |input| && (input[pos] == PLUS || input[pos] == MINUS) {
        neg := input[pos] == MINUS;
        pos := pos + 1;
      }
      DropDrop(input, old(pos), pos - old(pos));
      var digits := ScanDigits();
      if digits.None? {
        return None;
      }
      var e := Accumulate(digits.value, ExponentLimit(|input|));
      r := if e.None? then None else Some(if neg then -e.value else e.value);
    }

    method ScanWhole() returns (r: Option<Bytes>)
      requires pos <= |input|
      modifies this`pos
      ensures pos <= |input|
      ensures var s := Whole(old(Rest()));
              if s.None? then r.None? else r == Some(s.value.0) && Rest() == s.value.1 && pos > old(pos)
    {
      hide NumberText.Digits;
      if pos >= |input| {
        return None;
      }
      if input[pos] == ZERO {
        assert Rest()[..1] == [ZERO];
        DropDrop(input, pos, 1);
        pos := pos + 1;
        r := Some([ZERO]);
      } else {
        r := ScanDigits();
      }
    }

    method ScanFrac() returns (r: Option<Bytes>)
      requires pos <= |input|
      modifies this`pos
      ensures pos <= |input|
      ensures var s := Frac(old(Rest()));
              if s.None? then r.None? else r == Some(s.value.0) && Rest() == s.value.1 && pos >= old(pos)
    {
      hide NumberText.Digits;
      r := Some([]);
      if pos < |input| && input[pos] == DOT {
        DropDrop(input, pos, 1);
        pos := pos + 1;
        r := ScanDigits();
      }
    }

    /** A literal at its first byte. */
    method ScanNumberLiteral() returns (r: Option<Number>)
      requires pos < |input|
      modifies this`pos
      ensures pos <= |input|
      ensures var s := ScanLiteral(ExponentLimit(|input|), old(Rest()));
              if s.None? then r.None? else r == Some(s.value.0) && Rest() == s.value.1 && pos > old(pos)
    {
      var neg := false;
      if input[pos] == MINUS {
        neg := true;
        DropDrop(input, pos, 1);
        pos := pos + 1;
      }
      hide Whole, Frac, Exponent;
      ghost var t := Rest();
      assert ScanLiteral(ExponentLimit(|input|), old(Rest())) == ScanUnsigned(ExponentLimit(|input|), neg, t);
      var whole := ScanWhole();
      if whole.None? {
        return None;
      }
      var frac := ScanFrac();
      if frac.None? {
        return None;
      }
      var exp := ScanExponent();
      if exp.None? {
        return None;
      }
      r := Some(Literal(neg, whole.value, frac.value, exp.value));
    }

    /** A number: the literal and its exponent guard, the bound on its normal
        form, then the admission law. */
    method ScanNumber(out: Bytes) returns (r: Option<Bytes>)
      requires pos < |input|
      modifies this`pos
      ensures pos <= |input|
      ensures var s := Json.ScanNumber(Reading(), old(Rest()));
              if s.None? then r.None? else r == Some(out + Canon(s.value.0)) && Rest() == s.value.1 && pos > old(pos)
    {
      hide ScanLiteral, Normalize, Print;
      var l := ScanNumberLiteral();
      if l.None? {
        return None;
      }
      r := AppendCanonicalNumber(out, l.value);
      if r.Some? && !rules.exact && !rules.binary64(l.value.Value()) {
        r := None;
      }
    }

    method ScanLiteralWord(out: Bytes, word: Bytes) returns (r: Option<Bytes>)
      requires pos <= |input| && word != []
      modifies this`pos
      ensures pos <= |input|
      ensures if word <= old(Rest()) then r == Some(out + word) && Rest() == old(Rest())[|word|..] && pos > old(pos)
              else r.None?
    {
      if !(word <= input[pos..]) {
        return None;
      }
      DropDrop(input, pos, |word|);
      pos := pos + |word|;
      r := Some(out + word);
    }

    /** One value, appended to out in canonical form. A value that succeeds
        leaves depth and path as it found them. */
    method Value(out: Bytes) returns (r: Option<Bytes>)
      requires Ready()
      modifies this
      ensures pos <= |input|
      ensures var s := ScanValue(Reading(), MAX_DEPTH - old(depth), old(Rest()));
              if s.None? then r.None?
              else r == Some(out + Canon(s.value.0)) && Rest() == s.value.1
                   && depth == old(depth) && path == old(path) && pos > old(pos)
      decreases |input| - pos, 3
    {
      if pos >= |input| {
        return None;
      }
      var c := input[pos];
      if c == LBRACE {
        r := Object(out);
      } else if c == LBRACKET {
        r := Array(out);
      } else {
        r := Scalar(out);
      }
    }

    method Scalar(out: Bytes) returns (r: Option<Bytes>)
      requires pos < |input|
      modifies this`pos
      ensures pos <= |input|
      ensures var s := ScanScalar(Reading(), old(Rest()));
              if s.None? then r.None? else r == Some(out + Canon(s.value.0)) && Rest() == s.value.1 && pos > old(pos)
    {
      hide Chars, Json.ScanNumber;
      var c := input[pos];
      if c == QUOTE {
        var s := Str();
        r := if s.None? then None else Some(out + Quoted(s.value));
      } else if c == TRUE[0] {
        r := ScanLiteralWord(out, TRUE);
      } else if c == FALSE[0] {
        r := ScanLiteralWord(out, FALSE);
      } else if c == NULL[0] {
        r := ScanLiteralWord(out, NULL);
      } else if c == MINUS || IsDigit(c) {
        r := ScanNumber(out);
      } else {
        r := None;
      }
    }

    /** Entering a nested value; refused below the depth bound. */
    method Enter() returns (ok: bool)
      requires depth <= MAX_DEPTH
      modifies this`depth
      ensures depth == old(depth) + 1 && ok == (depth <= MAX_DEPTH)
    {
      depth := depth + 1;
      ok := depth <= MAX_DEPTH;
    }

    method Array(out: Bytes) returns (r: Option<Bytes>)
      requires Ready() && pos < |input| && input[pos] == LBRACKET
      modifies this
      ensures pos <= |input|
      ensures var s := ScanValue(Reading(), MAX_DEPTH - old(depth), old(Rest()));
              if s.None? then r.None?
              else r == Some(out + Canon(s.value.0)) && Rest() == s.value.1
                   && depth == old(depth) && path == old(path) && pos > old(pos)
      decreases |input| - pos, 2
    {
      hide ScanItems, ScanValue, Canon, CanonItems, JoinItems, Json.SkipSpace;
      ArrayDispatch(Reading(), MAX_DEPTH - depth, Rest());
      var ok := Enter();
      if !ok {
        return None;
      }
      DropDrop(input, pos, 1);
      pos := pos + 1;
      SkipSpace();
      if pos < |input| && input[pos] == RBRACKET {
        DropDrop(input, pos, 1);
        pos := pos + 1;
        depth := depth - 1;
        EmptyArrayText();
        return Some(out + [LBRACKET, RBRACKET]);
      }
      var items := Elements(out + [LBRACKET]);
      if items.None? {
        return None;
      }
      depth := depth - 1;
      r := Some(items.value + [RBRACKET]);
      ArrayText(out, ScanItems(Reading(), MAX_DEPTH - depth - 1, Json.SkipSpace(old(Rest())[1..])).value.0);
    }

    /** The loop over an array's elements, up to its closing bracket. */
    method Elements(out0: Bytes) returns (r: Option<Bytes>)
      requires Ready()
      modifies this
      ensures pos <= |input|
      ensures var s := ScanItems(Reading(), MAX_DEPTH - old(depth), old(Rest()));
              if s.None? then r.None?
              else r == Some(out0 + JoinItems(CanonItems(s.value.0))) && Rest() == s.value.1
                   && depth == old(depth) && path == old(path) && pos > old(pos)
      decreases |input| - pos, 4
    {
      hide ScanItems, ScanValue, Json.SkipSpace, JoinItems, CanonItems, Canon;
      ghost var room := MAX_DEPTH - depth;
      ghost var whole := ScanItems(Reading(), room, Rest());
      ghost var docs: seq<Doc> := [];
      ItemsAppendNil(whole);
      NoItems(out0);
      var out, i := out0, 0;
      while true
        invariant old(pos) <= pos <= |input| && depth == old(depth) && path == old(path)
        invariant i == |docs| && out == out0 + JoinItems(CanonItems(docs))
        invariant ItemsAppend(docs, ScanItems(Reading(), room, Rest())) == whole
        decreases |input| - pos
      {
        ghost var t := Rest();
        SkipSpace();
        if i > 0 {
          out := out + [COMMA];
        }
        path := path + [Index(i)];
        var v := Value(out);
        ItemsUnfold(Reading(), room, t);
        if v.None? {
          return None;
        }
        ghost var d := ScanValue(Reading(), room, Json.SkipSpace(t)).value.0;
        ElementText(out0, docs, d);
        out := v.value;
        path := path[..|path| - 1];
        SkipSpace();
        if pos >= |input| {
          return None;
        }
        if input[pos] == COMMA {
          DropDrop(input, pos, 1);
          pos := pos + 1;
          ItemsAppendAppend(docs, [d], ScanItems(Reading(), room, Rest()));
          docs, i := docs + [d], i + 1;
        } else if input[pos] == RBRACKET {
          DropDrop(input, pos, 1);
          pos := pos + 1;
          return Some(out);
        } else {
          return None;
        }
      }
    }

    method Object(out: Bytes) returns (r: Option<Bytes>)
      requires Ready() && pos < |input| && input[pos] == LBRACE
      modifies this
      ensures pos <= |input|
      ensures var s := ScanValue(Reading(), MAX_DEPTH - old(depth), old(Rest()));
              if s.None? then r.None?
              else r == Some(out + Canon(s.value.0)) && Rest() == s.value.1
                   && depth == old(depth) && path == old(path) && pos > old(pos)
      decreases |input| - pos, 2
    {
      hide ScanMembers;
      var members := ObjectMembers();
      if members.None? {
        return None;
      }
      var sorted := Sort(members.value);
      var body := AppendMembers(sorted);
      r := Some(out + ([LBRACE] + body + [RBRACE]));
    }

    /** The members of the object that begins here, unsorted, with the canonical
        text of each value. No two may share a key. */
    method ObjectMembers() returns (r: Option<seq<(Bytes, Bytes)>>)
      requires Ready() && pos < |input| && input[pos] == LBRACE
      modifies this
      ensures pos <= |input|
      ensures var s := ScanValue(Reading(), MAX_DEPTH - old(depth), old(Rest()));
              s.Some? ==> s.value.0.Obj?
      ensures var s := ScanValue(Reading(), MAX_DEPTH - old(depth), old(Rest()));
              if s.None? then r.None?
              else r == Some(CanonMembers(s.value.0.members)) && Rest() == s.value.1
                   && depth == old(depth) && path == old(path) && pos > old(pos)
      decreases |input| - pos, 1
    {
      hide ScanMembers, ScanValue, Json.SkipSpace, CanonMembers;
      ObjectOpening(Reading(), MAX_DEPTH - depth, Rest());
      NoCanonMembers();
      var ok := Enter();
      if !ok {
        return None;
      }
      DropDrop(input, pos, 1);
      pos := pos + 1;
      SkipSpace();
      if pos < |input| && input[pos] == RBRACE {
        DropDrop(input, pos, 1);
        pos := pos + 1;
        depth := depth - 1;
        return Some([]);
      }
      r := Members();
      if r.Some? {
        depth := depth - 1;
      }
    }

    /** The loop over an object's members, up to its closing brace. */
    method Members() returns (r: Option<seq<(Bytes, Bytes)>>)
      requires Ready()
      modifies this
      ensures pos <= |input|
      ensures var s := ScanMembers(Reading(), MAX_DEPTH - old(depth), {}, old(Rest()));
              if s.None? then r.None?
              else r == Some(CanonMembers(s.value.0)) && Rest() == s.value.1
                   && depth == old(depth) && path == old(path) && pos > old(pos)
      decreases |input| - pos, 4
    {
      hide ScanMembers, ScanMember, Json.SkipSpace;
      ghost var room := MAX_DEPTH - depth;
      ghost var whole := ScanMembers(Reading(), room, {}, Rest());
      ghost var docs: seq<(Bytes, Doc)> := [];
      MembersAppendNil(whole);
      NoCanonMembers();
      hide CanonMembers, Canon;
      var members: seq<(Bytes, Bytes)> := [];
      var seen: set<Bytes> := {};
      while true
        invariant old(pos) <= pos <= |input| && depth == old(depth) && path == old(path)
        invariant members == CanonMembers(docs)
        invariant MembersAppend(docs, ScanMembers(Reading(), room, seen, Rest())) == whole
        decreases |input| - pos
      {
        ghost var t := Rest();
        MembersUnfold(Reading(), room, seen, t);
        var m := Member(seen);
        if m.None? {
          return None;
        }
        ghost var d := ScanMember(Reading(), room, seen, t).value.0;
        CanonMembersSnoc(docs, d.0, d.1);
        members := members + [m.value];
        SkipSpace();
        if pos >= |input| {
          return None;
        }
        if input[pos] == COMMA {
          DropDrop(input, pos, 1);
          pos := pos + 1;
          seen := seen + {m.value.0};
          MembersAppendAppend(docs, [d], ScanMembers(Reading(), room, seen, Rest()));
          docs := docs + [d];
        } else if input[pos] == RBRACE {
          DropDrop(input, pos, 1);
          pos := pos + 1;
          return Some(members);
        } else {
          return None;
        }
      }
    }

    /** One member: its key, and its value scanned one level down the path. */
    method Member(seen: set<Bytes>) returns (r: Option<(Bytes, Bytes)>)
      requires Ready()
      modifies this
      ensures pos <= |input|
      ensures var s := ScanMember(Reading(), MAX_DEPTH - old(depth), seen, old(Rest()));
              if s.None? then r.None?
              else r == Some((s.value.0.0, Canon(s.value.0.1))) && Rest() == s.value.1
                   && depth == old(depth) && path == old(path) && pos > old(pos)
      decreases |input| - pos, 1
    {
      hide ScanKey, ScanValue, Canon;
      var key := ScanMemberKey(seen);
      if key.None? {
        return None;
      }
      path := path + [Key(key.value)];
      var v := Value([]);
      if v.None? {
        return None;
      }
      path := path[..|path| - 1];
      ghost var d := ScanMember(Reading(), MAX_DEPTH - depth, seen, old(Rest())).value.0.1;
      assert [] + Canon(d) == Canon(d);
      r := Some((key.value, v.value));
    }

    /** A member's key, the colon, and the space before its value. */
    method ScanMemberKey(seen: set<Bytes>) returns (r: Option<Bytes>)
      requires pos <= |input|
      modifies this`pos
      ensures pos <= |input|
      ensures var s := ScanKey(seen, old(Rest()));
              if s.None? then r.None? else r == Some(s.value.0) && Rest() == s.value.1 && pos > old(pos)
    {
      hide Chars;
      SkipSpace();
      if pos >= |input| || input[pos] != QUOTE {
        return None;
      }
      var key := Str();
      if key.None? {
        return None;
      }
      if key.value in seen {
        return None;
      }
      SkipSpace();
      if pos >= |input| || input[pos] != COLON {
        return None;
      }
      DropDrop(input, pos, 1);
      pos := pos + 1;
      SkipSpace();
      r := key;
    }
  }

  lemma NoCanonMembers()
    ensures CanonMembers([]) == []
  {
  }

  lemma ArrayDispatch(mode: Mode, room: nat, t: Bytes)
    requires t != [] && t[0] == LBRACKET
    ensures ScanValue(mode, room, t) == if room == 0 then None else ScanArray(mode, room - 1, t[1..])
  {
  }

  lemma ObjectOpening(mode: Mode, room: nat, t: Bytes)
    requires t != [] && t[0] == LBRACE
    ensures ScanValue(mode, room, t) == if room == 0 then None else ScanObject(mode, room - 1, t[1..])
  {
  }

  lemma EmptyArrayText()
    ensures Canon(Arr([])) == [LBRACKET, RBRACKET]
  {
    assert [LBRACKET] + JoinItems(CanonItems([])) + [RBRACKET] == [LBRACKET, RBRACKET];
  }

  lemma ArrayText(out: Bytes, items: seq<Doc>)
    ensures out + [LBRACKET] + JoinItems(CanonItems(items)) + [RBRACKET] == out + Canon(Arr(items))
  {
    var joined := JoinItems(CanonItems(items));
    Assoc(out, [LBRACKET], joined);
    Assoc(out, [LBRACKET] + joined, [RBRACKET]);
  }

  lemma JoinNoMembers(ps: seq<(Bytes, Bytes)>)
    ensures JoinMembers(ps[..0]) == []
  {
  }

  /** The loop that prints sorted members. */
  method AppendMembers(ps: seq<(Bytes, Bytes)>) returns (out: Bytes)
    ensures out == JoinMembers(ps)
  {
    hide JoinMembers;
    out := [];
    JoinNoMembers(ps);
    var i := 0;
    while i < |ps|
      invariant 0 <= i <= |ps| && out == JoinMembers(ps[..i])
    {
      JoinMembersSnoc(ps[..i], ps[i]);
      TakeNext(ps, i);
      if i > 0 {
        out := out + [COMMA];
      }
      var quoted := AppendCanonicalString(ps[i].0);
      out := out + (quoted + ([COLON] + ps[i].1));
      i := i + 1;
    }
    assert ps[..i] == ps;
  }

  /** A string in quotes, escaped byte by byte. */
  method AppendCanonicalString(s: Bytes) returns (out: Bytes)
    ensures out == Quoted(s)
  {
    out := [QUOTE];
    var i := 0;
    while i < |s|
      invariant 0 <= i <= |s| && out == [QUOTE] + EscapedAll(s[..i])
    {
      EscapedAllConcat(s[..i], [s[i]]);
      assert s[..i + 1] == s[..i] + [s[i]];
      assert EscapedAll([s[i]]) == Escaped(s[i]);
      Assoc([QUOTE], EscapedAll(s[..i]), Escaped(s[i]));
      out := out + Escaped(s[i]);
      i := i + 1;
    }
    assert s[..i] == s;
    out := out + [QUOTE];
  }

  lemma {:induction false} JoinMembersSnoc(ps: seq<(Bytes, Bytes)>, p: (Bytes, Bytes))
    ensures JoinMembers(ps + [p]) == if ps == [] then MemberText(p) else JoinMembers(ps) + ([COMMA] + MemberText(p))
  {
    hide MemberText;
    if ps == [] {
      assert ps + [p] == [p];
    } else {
      JoinMembersSnoc(ps[1..], p);
      assert (ps + [p])[1..] == ps[1..] + [p];
      if |ps| > 1 {
        Assoc(MemberText(ps[0]), [COMMA] + JoinMembers(ps[1..]), [COMMA] + MemberText(p));
        Assoc([COMMA], JoinMembers(ps[1..]), [COMMA] + MemberText(p));
      }
    }
  }

  // ---- accumulating members ----

  function MembersAppend(ms: seq<(Bytes, Doc)>, r: Scanned<seq<(Bytes, Doc)>>): Scanned<seq<(Bytes, Doc)>> {
    if r.None? then None else Some((ms + r.value.0, r.value.1))
  }

  lemma MembersAppendNil(r: Scanned<seq<(Bytes, Doc)>>)
    ensures MembersAppend([], r) == r
  {
    if r.Some? { assert [] + r.value.0 == r.value.0; }
  }

  lemma MembersAppendAppend(a: seq<(Bytes, Doc)>, b: seq<(Bytes, Doc)>, r: Scanned<seq<(Bytes, Doc)>>)
    ensures MembersAppend(a, MembersAppend(b, r)) == MembersAppend(a + b, r)
  {
    if r.Some? { Assoc(a, b, r.value.0); }
  }

  lemma MembersUnfold(mode: Mode, room: nat, seen: set<Bytes>, t: Bytes)
    ensures var m := ScanMember(mode, room, seen, t);
            ScanMembers(mode, room, seen, t) ==
            if m.None? then None
            else
              var u := Json.SkipSpace(m.value.1);
              if u == [] then None
              else if u[0] == COMMA then MembersAppend([m.value.0], ScanMembers(mode, room, seen + {m.value.0.0}, u[1..]))
              else if u[0] == RBRACE then Some(([m.value.0], u[1..]))
              else None
  {
  }

  lemma {:induction false} CanonMembersSnoc(ms: seq<(Bytes, Doc)>, key: Bytes, d: Doc)
    ensures CanonMembers(ms + [(key, d)]) == CanonMembers(ms) + [(key, Canon(d))]
  {
    if ms == [] {
      assert ms + [(key, d)] == [(key, d)];
    } else {
      CanonMembersSnoc(ms[1..], key, d);
      assert (ms + [(key, d)])[1..] == ms[1..] + [(key, d)];
    }
  }

  lemma NoItems(out: Bytes)
    ensures out + JoinItems(CanonItems([])) == out
  {
  }

  /** What appending a comma and an element's text to the output so far makes. */
  lemma ElementText(out: Bytes, docs: seq<Doc>, d: Doc)
    ensures var sofar := out + JoinItems(CanonItems(docs));
            (if docs == [] then sofar else sofar + [COMMA]) + Canon(d) == out + JoinItems(CanonItems(docs + [d]))
  {
    var joined := JoinItems(CanonItems(docs));
    JoinItemsSnoc(docs, d);
    if docs == [] {
      assert out + joined == out;
    } else {
      Assoc(out + joined, [COMMA], Canon(d));
      Assoc(out, joined, [COMMA] + Canon(d));
    }
  }

  // ---- accumulating elements ----

  function ItemsAppend(ds: seq<Doc>, r: Scanned<seq<Doc>>): Scanned<seq<Doc>> {
    if r.None? then None else Some((ds + r.value.0, r.value.1))
  }

  lemma ItemsAppendNil(r: Scanned<seq<Doc>>)
    ensures ItemsAppend([], r) == r
  {
    if r.Some? { assert [] + r.value.0 == r.value.0; }
  }

  lemma ItemsAppendAppend(a: seq<Doc>, b: seq<Doc>, r: Scanned<seq<Doc>>)
    ensures ItemsAppend(a, ItemsAppend(b, r)) == ItemsAppend(a + b, r)
  {
    if r.Some? { Assoc(a, b, r.value.0); }
  }

  lemma ItemsUnfold(mode: Mode, room: nat, t: Bytes)
    ensures var d := ScanValue(mode, room, Json.SkipSpace(t));
            ScanItems(mode, room, t) ==
            if d.None? then None
            else
              var u := Json.SkipSpace(d.value.1);
              if u == [] then None
              else if u[0] == COMMA then ItemsAppend([d.value.0], ScanItems(mode, room, u[1..]))
              else if u[0] == RBRACKET then Some(([d.value.0], u[1..]))
              else None
  {
  }

  lemma {:induction false} CanonItemsSnoc(ds: seq<Doc>, d: Doc)
    ensures CanonItems(ds + [d]) == CanonItems(ds) + [Canon(d)]
  {
    if ds == [] {
      assert ds + [d] == [d];
    } else {
      CanonItemsSnoc(ds[1..], d);
      assert (ds + [d])[1..] == ds[1..] + [d];
    }
  }

  lemma {:induction false} JoinSnoc(ts: seq<Bytes>, x: Bytes)
    ensures JoinItems(ts + [x]) == if ts == [] then x else JoinItems(ts) + ([COMMA] + x)
  {
    if ts == [] {
      assert ts + [x] == [x];
    } else {
      JoinSnoc(ts[1..], x);
      assert (ts + [x])[1..] == ts[1..] + [x];
      if |ts| > 1 {
        Assoc(ts[0], [COMMA] + JoinItems(ts[1..]), [COMMA] + x);
        Assoc([COMMA], JoinItems(ts[1..]), [COMMA] + x);
      }
    }
  }

  lemma JoinItemsSnoc(ds: seq<Doc>, d: Doc)
    ensures JoinItems(CanonItems(ds + [d])) == if ds == [] then Canon(d) else JoinItems(CanonItems(ds)) + ([COMMA] + Canon(d))
  {
    CanonItemsSnoc(ds, d);
    JoinSnoc(CanonItems(ds), Canon(d));
  }

  /** Accumulate decimal digits, giving up as soon as the value passes the
      limit: the value is refused exactly when the whole number does. */
  method Accumulate(digits: Bytes, limit: int) returns (r: Option<int>)
    requires AllDigits(digits) && limit >= 0
    ensures r == if NatOf(digits) > limit then None else Some(NatOf(digits))
  {
    var e := 0;
    var i := 0;
    while i < |digits|
      invariant 0 <= i <= |digits| && AllDigits(digits[..i]) && e == NatOf(digits[..i]) <= limit
    {
      e := e * 10 + (digits[i] - ZERO);
      i := i + 1;
      assert digits[..i][..i - 1] == digits[..i - 1];
      if e > limit {
        NatOfPrefix(digits, i);
        return None;
      }
    }
    assert digits[..i] == digits;
    r := Some(e);
  }

  /** The whole canonicaliser. */
  method CanonicalizeJson(raw: Bytes, rules: Rules) returns (r: Option<Bytes>)
    ensures r == Canonicalize(rules, raw)
  {
    hide ScanValue, Json.SkipSpace;
    var s := new JsonScanner(raw, rules);
    assert raw[0..] == raw;
    s.SkipSpace();
    var out := s.Value([]);
    if out.None? {
      return None;
    }
    s.SkipSpace();
    if s.pos != |s.input| {
      return None;
    }
    ghost var d := Parse(rules, raw).value;
    assert [] + Canon(d) == Canon(d);
    r := out;
  }
}
