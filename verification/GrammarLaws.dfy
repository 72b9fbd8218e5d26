/** The scanner accepts exactly the texts of the grammar, and reads each as the
    document the grammar says. */
module GrammarLaws {
  import opened Utf8
  import opened Wrappers
  import opened Seqs
  import opened Numbers
  import opened NumberText
  import opened Strings
  import opened Spellings
  import opened Sorting
  import opened Json
  import opened JsonFields
  import opened JsonLaws
  import opened Notation
  import opened Grammar

  // ---- blanks ----

  lemma BlankIsSpace(c: byte)
    ensures c in Text(" \t\n\r") <==> IsSpace(c)
  {
    var t := Text(" \t\n\r");
    assert t[0] == 0x20 && t[1] == 0x09 && t[2] == 0x0A && t[3] == 0x0D;
  }

  /** Skipping spaces cuts off a blank. */
  lemma {:induction false} SkippedBlank(t: Bytes) returns (a: Bytes)
    ensures Blank(a) && t == a + SkipSpace(t)
  {
    hide Text;
    if t != [] && IsSpace(t[0]) {
      var b := SkippedBlank(t[1..]);
      BlankIsSpace(t[0]);
      a := [t[0]] + b;
      HeadTail(t);
      Assoc([t[0]], b, SkipSpace(t[1..]));
    } else {
      a := [];
    }
  }

  lemma {:induction false} SkipBlank(a: Bytes, t: Bytes)
    requires Blank(a) && (t == [] || !IsSpace(t[0]))
    ensures SkipSpace(a + t) == t
  {
    hide Text;
    if a == [] {
      assert a + t == t;
    } else {
      BlankIsSpace(a[0]);
      SkipBlank(a[1..], t);
      assert (a + t)[0] == a[0] && (a + t)[1..] == a[1..] + t;
    }
  }

  lemma BlankStops(z: Bytes, after: Bytes)
    requires Blank(z) && Stops(after)
    ensures Stops(z + after)
  {
    hide Text;
    if z != [] {
      BlankIsSpace(z[0]);
      assert (z + after)[0] == z[0];
    } else {
      assert z + after == after;
    }
  }

  // ---- numbers ----

  lemma ExponentScans(limit: int, x: Bytes, e: int, post: Bytes)
    requires IsExponent(x, e) && -limit <= e <= limit && Stops(post)
    ensures Exponent(limit, x + post) == Some((e, post))
  {
    if x == [] {
      assert x + post == post;
    } else {
      var sign, ds :| ExponentParts(x, e, sign, ds);
      ExponentBehind(x, sign, ds, post);
      DigitsThen(ds, post);
      hide NatOf, Digits, AllDigits;
      if sign == [] {
        BareExponent(limit, x + post);
      } else {
        MarkedExponent(limit, x + post);
      }
    }
  }

  /** The text behind the letter, the digits and what follows. */
  lemma ExponentBehind(x: Bytes, sign: Bytes, ds: Bytes, post: Bytes)
    requires x != [] && x[1..] == sign + ds && ds != [] && AllDigits(ds) && (sign == [] || sign == [PLUS] || sign == [MINUS])
    ensures var t := x + post;
            && t != [] && t[0] == x[0] && (sign == [] ==> t[1..] == ds + post && |t| > 1 && t[1] != PLUS && t[1] != MINUS)
            && (sign != [] ==> |t| > 1 && t[1] == sign[0] && t[2..] == ds + post)
  {
    var t := x + post;
    assert t[1..] == x[1..] + post;
    Assoc(sign, ds, post);
    if sign == [] {
      assert sign + (ds + post) == ds + post && t[1..][0] == ds[0];
    } else {
      assert t[1] == t[1..][0] && t[2..] == t[1..][1..];
      Cut(sign, ds + post);
    }
  }

  lemma BareExponent(limit: int, t: Bytes)
    requires |t| > 1 && (t[0] == EXP || t[0] == EXP_UPPER) && t[1] != PLUS && t[1] != MINUS
    ensures Exponent(limit, t) == ExponentDigits(limit, false, t[1..])
  {
    hide ExponentDigits;
  }

  lemma MarkedExponent(limit: int, t: Bytes)
    requires |t| > 1 && (t[0] == EXP || t[0] == EXP_UPPER) && (t[1] == PLUS || t[1] == MINUS)
    ensures Exponent(limit, t) == ExponentDigits(limit, t[1] == MINUS, t[2..])
  {
    hide ExponentDigits;
  }

  lemma ExponentRead(limit: int, t: Bytes) returns (x: Bytes)
    requires limit >= 0 && Exponent(limit, t).Some?
    ensures var r := Exponent(limit, t).value;
            t == x + r.1 && IsExponent(x, r.0) && -limit <= r.0 <= limit
  {
    if t == [] || (t[0] != EXP && t[0] != EXP_UPPER) {
      x := [];
    } else {
      var r := Exponent(limit, t).value;
      var signed := |t| > 1 && (t[1] == PLUS || t[1] == MINUS);
      var n := if signed then 2 else 1;
      var sign := t[1..n];
      var m := DigitRun(t[n..]);
      var ds := t[n..][..m];
      x := t[..n + m];
      assert r.1 == t[n + m..];
      assert x[1..] == sign + ds;
      assert ExponentParts(x, r.0, sign, ds);
    }
  }

  lemma FractionOf(t: Bytes) returns (f: Bytes)
    requires Frac(t).Some?
    ensures var r := Frac(t).value; f == Fraction(r.0) && t == f + r.1 && AllDigits(r.0)
  {
    var r := Frac(t).value;
    f := Fraction(r.0);
    if t != [] && t[0] == DOT {
      Halves(t[1..], DigitRun(t[1..]));
      HeadTail(t);
    }
  }

  lemma WholeOf(t: Bytes)
    requires Whole(t).Some?
    ensures var r := Whole(t).value;
            t == r.0 + r.1 && r.0 != [] && AllDigits(r.0) && (r.0 == [ZERO] || r.0[0] != ZERO)
  {
    if t[0] == ZERO {
      assert t[..1] == [ZERO];
    } else {
      Halves(t, DigitRun(t));
    }
  }

  lemma NumberScans(limit: int, l: Literal, t: Bytes, post: Bytes)
    requires IsNumber(l, t) && -limit <= l.exp <= limit && Stops(post)
    ensures t != [] && (t[0] == MINUS || IsDigit(t[0])) && ScanLiteral(limit, t + post) == Some((l, post))
  {
    hide Exponent, Whole, Frac, IsExponent;
    var x :| IsExponent(x, l.exp) && t == SignText(l.neg) + (l.whole + (Fraction(l.frac) + x));
    ExponentScans(limit, x, l.exp, post);
    ExponentHead(x, l.exp, post);
    FracThen(l.frac, x + post);
    FractionHead(l.frac, x + post);
    WholeThen(l.whole, Fraction(l.frac) + (x + post));
    var body := l.whole + (Fraction(l.frac) + (x + post));
    assert body[0] == l.whole[0];
    SignThen(limit, l.neg, body);
    Regroup(SignText(l.neg), l.whole, Fraction(l.frac), x, post);
  }

  lemma ExponentHead(x: Bytes, e: int, post: Bytes)
    requires IsExponent(x, e) && Stops(post)
    ensures var t := x + post; t == [] || !(IsDigit(t[0]) || t[0] == DOT)
  {
    if x == [] {
      assert x + post == post;
    } else {
      var sign, ds :| ExponentParts(x, e, sign, ds);
      assert (x + post)[0] == x[0];
    }
  }

  lemma FractionHead(ds: Bytes, rest: Bytes)
    requires rest == [] || !IsDigit(rest[0])
    ensures var t := Fraction(ds) + rest; t == [] || !IsDigit(t[0])
  {
    if ds == [] { assert Fraction(ds) + rest == rest; }
  }

  lemma NumberRead(limit: int, t: Bytes) returns (v: Bytes)
    requires limit >= 0 && t != [] && ScanLiteral(limit, t).Some?
    ensures var r := ScanLiteral(limit, t).value;
            t == v + r.1 && IsNumber(r.0, v) && -limit <= r.0.exp <= limit
  {
    hide Exponent, Whole, Frac, IsExponent;
    var r := ScanLiteral(limit, t).value;
    var u := if t[0] == MINUS then t[1..] else t;
    WholeOf(u);
    var w := Whole(u).value;
    var f := FractionOf(w.1);
    var x := ExponentRead(limit, Frac(w.1).value.1);
    v := SignText(r.0.neg) + (w.0 + (f + x));
    Regroup(SignText(r.0.neg), w.0, f, x, r.1);
    HeadTail(t);
  }

  // ---- strings ----

  /** t ends in a quote and rest. */
  predicate EndsQuoted(t: Bytes, rest: Bytes) { |rest| < |t| && t[|t| - |rest| - 1..] == [QUOTE] + rest }

  lemma EndsMore(t: Bytes, k: nat, rest: Bytes)
    requires k <= |t| && EndsQuoted(t[k..], rest)
    ensures EndsQuoted(t, rest)
  {
    DropDrop(t, k, |t| - k - |rest| - 1);
  }

  lemma EndsNow(t: Bytes)
    requires t != [] && t[0] == QUOTE
    ensures EndsQuoted(t, t[1..])
  {
    HeadTail(t);
    assert t[0..] == t;
  }

  /** A scanned string ends in a quote before what is left. */
  lemma {:induction false} CharsCut(t: Bytes)
    requires Chars(t).Some?
    ensures EndsQuoted(t, Chars(t).value.1)
    decreases |t|
  {
    CharsNonempty(t);
    if t[0] == QUOTE {
      EndsNow(t);
    } else {
      hide SpellsOne, Chars, Encode, EndsQuoted;
      var k, r := FirstSpelled(t);
      CharsCut(t[k..]);
      EndsMore(t, k, Chars(t[k..]).value.1);
    }
  }

  lemma CharsNonempty(t: Bytes)
    requires Chars(t).Some?
    ensures t != []
  {
  }

  lemma StringRead(t: Bytes) returns (v: Bytes)
    requires t != [] && t[0] == QUOTE && Chars(t[1..]).Some?
    ensures var r := Chars(t[1..]).value; t == v + r.1 && IsString(r.0, v)
  {
    hide Chars, Spells;
    var r := Chars(t[1..]).value;
    CharsCut(t[1..]);
    var n := |t[1..]| - |r.1| - 1;
    var b := t[1..][..n];
    Halves(t[1..], n);
    CharsExactly(b, r.0, r.1);
    v := [QUOTE] + (b + [QUOTE]);
    HeadTail(t);
    Assoc(b, [QUOTE], r.1);
    Assoc([QUOTE], b + [QUOTE], r.1);
  }

  lemma StringScans(s: Bytes, v: Bytes, post: Bytes)
    requires IsString(s, v)
    ensures v != [] && v[0] == QUOTE && (v + post)[0] == QUOTE && Chars((v + post)[1..]) == Some((s, post))
  {
    hide Chars, Spells;
    var b :| Spells(b, s) && v == [QUOTE] + (b + [QUOTE]);
    CharsExactly(b, s, post);
    Assoc(b, [QUOTE], post);
    Assoc([QUOTE], b + [QUOTE], post);
    ConsTail(QUOTE, b + ([QUOTE] + post));
  }

  // ---- what the scanner accepts is grammatical ----

  lemma WordTexts()
    ensures TRUE == Text("true") && FALSE == Text("false") && NULL == Text("null")
  {
  }

  lemma ScalarRead(mode: Mode, t: Bytes) returns (v: Bytes)
    requires mode.limit >= 0 && t != [] && ScanScalar(mode, t).Some?
    ensures var r := ScanScalar(mode, t).value;
            t == v + r.1 && IsValue(r.0, v) && Guarded(mode.limit, r.0)
  {
    hide Chars, ScanLiteral, IsNumber, IsString, Text;
    WordTexts();
    var r := ScanScalar(mode, t).value;
    if t[0] == QUOTE {
      v := StringRead(t);
    } else if t[0] == MINUS || IsDigit(t[0]) {
      v := NumberRead(mode.limit, t);
    } else {
      v := if r.0.Null? then NULL else if r.0.b then TRUE else FALSE;
    }
  }

  lemma {:induction false} ValueRead(mode: Mode, room: nat, t: Bytes) returns (v: Bytes)
    requires mode.limit >= 0 && ScanValue(mode, room, t).Some?
    ensures var r := ScanValue(mode, room, t).value;
            t == v + r.1 && IsValue(r.0, v) && Guarded(mode.limit, r.0)
    decreases |t|, 1, 0
  {
    hide ScanScalar, IsItems, IsMembers;
    if t[0] == LBRACE {
      var b := ObjectRead(mode, room - 1, t[1..]);
      v := [LBRACE] + (b + [RBRACE]);
      Enclosed(t, b, RBRACE, ScanValue(mode, room, t).value.1);
    } else if t[0] == LBRACKET {
      var b := ArrayRead(mode, room - 1, t[1..]);
      v := [LBRACKET] + (b + [RBRACKET]);
      Enclosed(t, b, RBRACKET, ScanValue(mode, room, t).value.1);
    } else {
      v := ScalarRead(mode, t);
    }
  }

  lemma Enclosed(t: Bytes, b: Bytes, close: byte, post: Bytes)
    requires t != [] && t[1..] == b + ([close] + post)
    ensures t == ([t[0]] + (b + [close])) + post
  {
    HeadTail(t);
    Assoc(b, [close], post);
    Assoc([t[0]], b + [close], post);
  }

  lemma {:induction false} ArrayRead(mode: Mode, room: nat, t: Bytes) returns (b: Bytes)
    requires mode.limit >= 0 && ScanArray(mode, room, t).Some?
    ensures var r := ScanArray(mode, room, t).value;
            && t == b + ([RBRACKET] + r.1) && r.0.Arr? && Guarded(mode.limit, r.0)
            && if r.0.items == [] then Blank(b) else IsItems(r.0.items, b)
    decreases |t|, 3
  {
    hide IsItems, Blank;
    var a := SkippedBlank(t);
    var u := SkipSpace(t);
    if u != [] && u[0] == RBRACKET {
      b := a;
      HeadTail(u);
    } else {
      var c := ItemsRead(mode, room, u);
      var r := ScanItems(mode, room, u).value;
      b := a + c;
      Assoc(a, c, [RBRACKET] + r.1);
      BlankBefore(a, r.0, c);
    }
  }

  lemma BlankBlank(a: Bytes, b: Bytes)
    requires Blank(a) && Blank(b)
    ensures Blank(a + b)
  {
    hide Text;
  }

  lemma PaddedMore(a: Bytes, t: Bytes, v: Bytes)
    requires Blank(a) && Padded(t, v)
    ensures Padded(a + t, v)
  {
    hide Blank;
    var b, z :| Blank(b) && Blank(z) && t == b + (v + z);
    BlankBlank(a, b);
    Assoc(a, b, v + z);
  }

  lemma ItemMore(a: Bytes, d: Doc, t: Bytes)
    requires Blank(a) && IsItem(d, t)
    ensures IsItem(d, a + t)
  {
    hide Blank, Padded, IsValue;
    var v :| Padded(t, v) && IsValue(d, v);
    PaddedMore(a, t, v);
  }

  /** Blanks before a list belong to its first item. */
  lemma BlankBefore(a: Bytes, ds: seq<Doc>, t: Bytes)
    requires Blank(a) && ds != [] && IsItems(ds, t)
    ensures IsItems(ds, a + t)
  {
    hide Blank, IsItem;
    if |ds| == 1 {
      ItemMore(a, ds[0], t);
    } else {
      var x, y :| t == x + ([COMMA] + y) && IsItem(ds[0], x) && IsItems(ds[1..], y);
      ItemMore(a, ds[0], x);
      Assoc(a, x, [COMMA] + y);
    }
  }

  /** A value with blanks around it. */
  lemma ItemRead(mode: Mode, room: nat, t: Bytes) returns (x: Bytes)
    requires mode.limit >= 0 && ScanValue(mode, room, SkipSpace(t)).Some?
    ensures var r := ScanValue(mode, room, SkipSpace(t)).value;
            t == x + SkipSpace(r.1) && IsItem(r.0, x) && Guarded(mode.limit, r.0)
    decreases |t|, 1, 1
  {
    hide Blank, IsValue;
    var r := ScanValue(mode, room, SkipSpace(t)).value;
    var a := SkippedBlank(t);
    var v := ValueRead(mode, room, SkipSpace(t));
    var z := SkippedBlank(r.1);
    x := a + (v + z);
    assert Padded(x, v);
    Assoc(v, z, SkipSpace(r.1));
    Assoc(a, v + z, SkipSpace(r.1));
  }

  lemma {:induction false} ItemsRead(mode: Mode, room: nat, t: Bytes) returns (b: Bytes)
    requires mode.limit >= 0 && ScanItems(mode, room, t).Some?
    ensures var r := ScanItems(mode, room, t).value;
            && r.0 != [] && t == b + ([RBRACKET] + r.1) && IsItems(r.0, b)
            && forall i :: 0 <= i < |r.0| ==> Guarded(mode.limit, r.0[i])
    decreases |t|, 2
  {
    hide IsItem;
    var r := ScanItems(mode, room, t).value;
    var x := ItemRead(mode, room, t);
    var u := SkipSpace(ScanValue(mode, room, SkipSpace(t)).value.1);
    HeadTail(u);
    if u[0] == COMMA {
      var y := ItemsRead(mode, room, u[1..]);
      var more := ScanItems(mode, room, u[1..]).value;
      b := x + ([COMMA] + y);
      assert r.0[1..] == more.0;
      Assoc([COMMA], y, [RBRACKET] + r.1);
      Assoc(x, [COMMA] + y, [RBRACKET] + r.1);
    } else {
      b := x;
    }
  }

  lemma {:induction false} ObjectRead(mode: Mode, room: nat, t: Bytes) returns (b: Bytes)
    requires mode.limit >= 0 && ScanObject(mode, room, t).Some?
    ensures var r := ScanObject(mode, room, t).value;
            && t == b + ([RBRACE] + r.1) && r.0.Obj? && Guarded(mode.limit, r.0)
            && if r.0.members == [] then Blank(b) else IsMembers(r.0.members, b)
    decreases |t|, 3
  {
    hide IsMembers, Blank;
    var a := SkippedBlank(t);
    var u := SkipSpace(t);
    if u != [] && u[0] == RBRACE {
      b := a;
      HeadTail(u);
    } else {
      var c := MembersRead(mode, room, {}, u);
      var r := ScanMembers(mode, room, {}, u).value;
      b := a + c;
      Assoc(a, c, [RBRACE] + r.1);
      BlankBeforeMembers(a, r.0, c);
    }
  }

  lemma KeyMore(a: Bytes, k: Bytes, t: Bytes)
    requires Blank(a) && IsKey(k, t)
    ensures IsKey(k, a + t)
  {
    hide Blank, Padded, IsString;
    var v :| Padded(t, v) && IsString(k, v);
    PaddedMore(a, t, v);
  }

  lemma MemberMore(a: Bytes, k: Bytes, d: Doc, t: Bytes)
    requires Blank(a) && IsMember(k, d, t)
    ensures IsMember(k, d, a + t)
  {
    hide Blank, IsKey, IsItem;
    var x, y :| t == x + ([COLON] + y) && IsKey(k, x) && IsItem(d, y);
    KeyMore(a, k, x);
    Assoc(a, x, [COLON] + y);
  }

  lemma BlankBeforeMembers(a: Bytes, ms: seq<(Bytes, Doc)>, t: Bytes)
    requires Blank(a) && ms != [] && IsMembers(ms, t)
    ensures IsMembers(ms, a + t)
  {
    hide Blank, IsMember;
    if |ms| == 1 {
      MemberMore(a, ms[0].0, ms[0].1, t);
    } else {
      var x, y :| t == x + ([COMMA] + y) && IsMember(ms[0].0, ms[0].1, x) && IsMembers(ms[1..], y);
      MemberMore(a, ms[0].0, ms[0].1, x);
      Assoc(a, x, [COMMA] + y);
    }
  }

  /** A key, blanks around it, and the colon. */
  lemma KeyRead(seen: set<Bytes>, t: Bytes) returns (x: Bytes, z: Bytes)
    requires ScanKey(seen, t).Some?
    ensures var r := ScanKey(seen, t).value;
            t == x + ([COLON] + (z + r.1)) && Blank(z) && IsKey(r.0, x)
  {
    hide Blank, Chars, IsString;
    var r := ScanKey(seen, t).value;
    var a := SkippedBlank(t);
    var u := SkipSpace(t);
    var v := StringRead(u);
    var rest := Chars(u[1..]).value.1;
    var c := SkippedBlank(rest);
    var w := SkipSpace(rest);
    z := SkippedBlank(w[1..]);
    x := a + (v + c);
    assert Padded(x, v);
    HeadTail(w);
    Assoc(v, c, w);
    Assoc(a, v + c, w);
  }

  lemma MemberRead(mode: Mode, room: nat, seen: set<Bytes>, t: Bytes) returns (x: Bytes)
    requires mode.limit >= 0 && ScanMember(mode, room, seen, t).Some?
    ensures var r := ScanMember(mode, room, seen, t).value;
            t == x + SkipSpace(r.1) && IsMember(r.0.0, r.0.1, x) && Guarded(mode.limit, r.0.1)
    decreases |t|, 1, 1
  {
    hide Blank, IsKey, IsValue;
    var k, z := KeyRead(seen, t);
    var key := ScanKey(seen, t).value;
    var r := ScanMember(mode, room, seen, t).value;
    var v := ValueRead(mode, room, key.1);
    var y := SkippedBlank(r.1);
    var item := z + (v + y);
    assert Padded(item, v);
    x := k + ([COLON] + item);
    Assoc(v, y, SkipSpace(r.1));
    Assoc(z, v + y, SkipSpace(r.1));
    Assoc([COLON], item, SkipSpace(r.1));
    Assoc(k, [COLON] + item, SkipSpace(r.1));
    assert IsItem(r.0.1, item);
  }

  lemma {:induction false} MembersRead(mode: Mode, room: nat, seen: set<Bytes>, t: Bytes) returns (b: Bytes)
    requires mode.limit >= 0 && ScanMembers(mode, room, seen, t).Some?
    ensures var r := ScanMembers(mode, room, seen, t).value;
            && r.0 != [] && t == b + ([RBRACE] + r.1) && IsMembers(r.0, b)
            && forall i :: 0 <= i < |r.0| ==> Guarded(mode.limit, r.0[i].1)
    decreases |t|, 2
  {
    hide IsMember;
    var r := ScanMembers(mode, room, seen, t).value;
    var x := MemberRead(mode, room, seen, t);
    var m := ScanMember(mode, room, seen, t).value;
    var u := SkipSpace(m.1);
    HeadTail(u);
    if u[0] == COMMA {
      var y := MembersRead(mode, room, seen + {m.0.0}, u[1..]);
      var more := ScanMembers(mode, room, seen + {m.0.0}, u[1..]).value;
      b := x + ([COMMA] + y);
      assert r.0[1..] == more.0;
      Assoc([COMMA], y, [RBRACE] + r.1);
      Assoc(x, [COMMA] + y, [RBRACE] + r.1);
    } else {
      b := x;
    }
  }

  // ---- what is grammatical is accepted ----

  /** A value's text begins with neither a space nor a closing bracket. */
  lemma ValueHead(d: Doc, t: Bytes)
    requires IsValue(d, t)
    ensures t != [] && !IsSpace(t[0]) && t[0] != RBRACKET && t[0] != RBRACE
  {
    hide Spells, IsItems, IsMembers;
    match d
    case Num(l) => NumberScans(if l.exp < 0 then -l.exp else l.exp, l, t, []);
    case Str(s) => StringScans(s, t, []);
    case _ => WordTexts();
  }

  lemma WordScans(mode: Mode, room: nat, d: Doc, v: Bytes, post: Bytes)
    requires (d.Null? || d.Bool?) && IsValue(d, v)
    ensures ScanValue(mode, room, v + post) == Some((d, post))
  {
    hide Text;
    WordTexts();
    Cut(v, post);
    assert (v + post)[0] == v[0] && v <= v + post;
  }

  lemma {:induction false} ValueScans(mode: Mode, room: nat, d: Doc, v: Bytes, post: Bytes)
    requires IsValue(d, v) && WellFormed(mode.rules, room, d) && Guarded(mode.limit, d) && Stops(post)
    ensures ScanValue(mode, room, v + post) == Some((d, post))
    decreases d, 0
  {
    hide IsValue, IsItems, IsMembers, Blank, ScanValue;
    match d
    case Num(l) => NumScans(mode, room, l, v, post);
    case Str(s) => StrScans(mode, room, s, v, post);
    case Arr(items) => ArrayScans(mode, room - 1, items, v, post);
    case Obj(ms) => ObjectScans(mode, room - 1, ms, v, post);
    case _ => WordScans(mode, room, d, v, post);
  }

  lemma NumScans(mode: Mode, room: nat, l: Number, v: Bytes, post: Bytes)
    requires IsValue(Num(l), v) && Normalize(l).InRange() && mode.rules.Admits(l.Value()) && -mode.limit <= l.exp <= mode.limit
    requires Stops(post)
    ensures ScanValue(mode, room, v + post) == Some((Num(l), post))
  {
    hide ScanLiteral, IsNumber, Normalize;
    NumberScans(mode.limit, l, v, post);
    assert (v + post)[0] == v[0];
    NumberDispatch(mode, room, v + post);
  }

  lemma StrScans(mode: Mode, room: nat, s: Bytes, v: Bytes, post: Bytes)
    requires IsValue(Str(s), v)
    ensures ScanValue(mode, room, v + post) == Some((Str(s), post))
  {
    hide Chars, IsString;
    StringScans(s, v, post);
  }

  lemma {:induction false} ArrayScans(mode: Mode, room: nat, items: seq<Doc>, v: Bytes, post: Bytes)
    requires IsValue(Arr(items), v)
    requires forall i :: 0 <= i < |items| ==> WellFormed(mode.rules, room, items[i]) && Guarded(mode.limit, items[i])
    ensures ScanValue(mode, room + 1, v + post) == Some((Arr(items), post))
    decreases items, 2
  {
    hide IsItems, Blank, WellFormed, Guarded, SkipSpace, ScanItems;
    var b :| v == [LBRACKET] + (b + [RBRACKET]) && if items == [] then Blank(b) else IsItems(items, b);
    Opened(LBRACKET, b, RBRACKET, post);
    if items == [] {
      EmptyArray(mode, room, b, post);
    } else {
      ItemsScan(mode, room, items, b, post);
      ItemsSkip(mode, room, b + ([RBRACKET] + post));
    }
  }

  lemma {:induction false} ObjectScans(mode: Mode, room: nat, ms: seq<(Bytes, Doc)>, v: Bytes, post: Bytes)
    requires IsValue(Obj(ms), v) && DistinctKeys(ms)
    requires forall i :: 0 <= i < |ms| ==> WellFormed(mode.rules, room, ms[i].1) && Guarded(mode.limit, ms[i].1)
    ensures ScanValue(mode, room + 1, v + post) == Some((Obj(ms), post))
    decreases ms, 2
  {
    hide IsMembers, Blank, WellFormed, Guarded, SkipSpace, ScanMembers, DistinctKeys;
    var b :| v == [LBRACE] + (b + [RBRACE]) && if ms == [] then Blank(b) else IsMembers(ms, b);
    Opened(LBRACE, b, RBRACE, post);
    if ms == [] {
      EmptyObject(mode, room, b, post);
    } else {
      MembersScan(mode, room, {}, ms, b, post);
      MembersSkip(mode, room, {}, b + ([RBRACE] + post));
    }
  }

  lemma Opened(open: byte, b: Bytes, close: byte, post: Bytes)
    ensures var t := ([open] + (b + [close])) + post; t != [] && t[0] == open && t[1..] == b + ([close] + post)
  {
    Assoc(b, [close], post);
    Assoc([open], b + [close], post);
    ConsTail(open, b + ([close] + post));
  }

  lemma EmptyArray(mode: Mode, room: nat, b: Bytes, post: Bytes)
    requires Blank(b)
    ensures ScanArray(mode, room, b + ([RBRACKET] + post)) == Some((Arr([]), post))
  {
    SkipBlank(b, [RBRACKET] + post);
  }

  lemma EmptyObject(mode: Mode, room: nat, b: Bytes, post: Bytes)
    requires Blank(b)
    ensures ScanObject(mode, room, b + ([RBRACE] + post)) == Some((Obj([]), post))
  {
    SkipBlank(b, [RBRACE] + post);
  }

  /** A padded value before a text that is no part of it. */
  lemma PaddedScans(x: Bytes, v: Bytes, after: Bytes) returns (rest: Bytes)
    requires Padded(x, v) && v != [] && !IsSpace(v[0]) && Stops(after) && after != [] && !IsSpace(after[0])
    ensures SkipSpace(x + after) == v + rest && Stops(rest) && SkipSpace(rest) == after
  {
    hide Blank;
    var a, z :| Blank(a) && Blank(z) && x == a + (v + z);
    rest := z + after;
    Assoc(v, z, after);
    Assoc(a, v + z, after);
    SkipBlank(a, v + rest);
    SkipBlank(z, after);
    BlankStops(z, after);
  }

  lemma {:induction false} ItemScans(mode: Mode, room: nat, d: Doc, x: Bytes, after: Bytes) returns (rest: Bytes)
    requires IsItem(d, x) && WellFormed(mode.rules, room, d) && Guarded(mode.limit, d)
    requires Stops(after) && after != [] && !IsSpace(after[0])
    ensures var t := SkipSpace(x + after);
            && t != [] && t[0] != RBRACKET && t[0] != RBRACE
            && ScanValue(mode, room, t) == Some((d, rest)) && SkipSpace(rest) == after
    decreases d, 1
  {
    hide Padded, IsValue, WellFormed, Guarded, ScanValue, SkipSpace;
    var v :| Padded(x, v) && IsValue(d, v);
    ValueHead(d, v);
    rest := PaddedScans(x, v, after);
    ValueScans(mode, room, d, v, rest);
    assert (v + rest)[0] == v[0];
  }

  lemma {:induction false} SkipTwice(t: Bytes)
    ensures SkipSpace(SkipSpace(t)) == SkipSpace(t)
  {
    if t != [] && IsSpace(t[0]) { SkipTwice(t[1..]); }
  }

  lemma ItemsSkip(mode: Mode, room: nat, t: Bytes)
    ensures ScanItems(mode, room, SkipSpace(t)) == ScanItems(mode, room, t)
  {
    hide ScanValue;
    SkipTwice(t);
  }

  predicate Closes(t: Bytes) { Stops(t) && t != [] && !IsSpace(t[0]) }

  lemma CommaCloses(y: Bytes, close: byte, post: Bytes)
    requires close == RBRACKET || close == RBRACE
    ensures Closes([COMMA] + y) && Closes([close] + post) && Closes([COLON] + y)
  {
  }

  lemma {:induction false} ItemsScan(mode: Mode, room: nat, ds: seq<Doc>, b: Bytes, post: Bytes)
    requires ds != [] && IsItems(ds, b)
    requires forall i :: 0 <= i < |ds| ==> WellFormed(mode.rules, room, ds[i]) && Guarded(mode.limit, ds[i])
    ensures ScanItems(mode, room, b + ([RBRACKET] + post)) == Some((ds, post))
    ensures var u := SkipSpace(b + ([RBRACKET] + post)); u != [] && u[0] != RBRACKET
    decreases ds, 1
  {
    hide IsItem, WellFormed, Guarded, SkipSpace, ScanValue;
    var tail := [RBRACKET] + post;
    if |ds| == 1 {
      CommaCloses([], RBRACKET, post);
      var rest := ItemScans(mode, room, ds[0], b, tail);
      assert tail[1..] == post && ds == [ds[0]];
    } else {
      var x, y :| b == x + ([COMMA] + y) && IsItem(ds[0], x) && IsItems(ds[1..], y);
      var after := [COMMA] + (y + tail);
      Assoc([COMMA], y, tail);
      Assoc(x, [COMMA] + y, tail);
      CommaCloses(y + tail, RBRACKET, post);
      var rest := ItemScans(mode, room, ds[0], x, after);
      ItemsScan(mode, room, ds[1..], y, post);
      ConsTail(COMMA, y + tail);
      HeadTail(ds);
    }
  }

  lemma MembersSkip(mode: Mode, room: nat, seen: set<Bytes>, t: Bytes)
    ensures ScanMembers(mode, room, seen, SkipSpace(t)) == ScanMembers(mode, room, seen, t)
  {
    hide ScanValue, Chars;
    SkipTwice(t);
  }

  lemma KeyScans(seen: set<Bytes>, k: Bytes, x: Bytes, y: Bytes)
    requires IsKey(k, x) && k !in seen
    ensures ScanKey(seen, x + ([COLON] + y)) == Some((k, SkipSpace(y)))
    ensures var u := SkipSpace(x + ([COLON] + y)); u != [] && u[0] == QUOTE
  {
    hide Padded, IsString, Chars, SkipSpace;
    var v :| Padded(x, v) && IsString(k, v);
    StringScans(k, v, []);
    CommaCloses(y, RBRACE, []);
    var rest := PaddedScans(x, v, [COLON] + y);
    StringScans(k, v, rest);
    ConsTail(COLON, y);
  }

  lemma {:induction false} MemberScans(mode: Mode, room: nat, seen: set<Bytes>, k: Bytes, d: Doc, x: Bytes, after: Bytes) returns (rest: Bytes)
    requires IsMember(k, d, x) && WellFormed(mode.rules, room, d) && Guarded(mode.limit, d) && k !in seen && Closes(after)
    ensures ScanMember(mode, room, seen, x + after) == Some(((k, d), rest)) && SkipSpace(rest) == after
    ensures var u := SkipSpace(x + after); u != [] && u[0] == QUOTE
    decreases d, 2
  {
    hide IsKey, IsItem, WellFormed, Guarded, SkipSpace, ScanValue, ScanKey;
    var key, y :| x == key + ([COLON] + y) && IsKey(k, key) && IsItem(d, y);
    Assoc([COLON], y, after);
    Assoc(key, [COLON] + y, after);
    KeyScans(seen, k, key, y + after);
    rest := ItemScans(mode, room, d, y, after);
  }

  lemma {:induction false} MembersScan(mode: Mode, room: nat, seen: set<Bytes>, ms: seq<(Bytes, Doc)>, b: Bytes, post: Bytes)
    requires ms != [] && IsMembers(ms, b) && DistinctKeys(ms) && forall k :: k in seen ==> !HasKey(ms, k)
    requires forall i :: 0 <= i < |ms| ==> WellFormed(mode.rules, room, ms[i].1) && Guarded(mode.limit, ms[i].1)
    ensures ScanMembers(mode, room, seen, b + ([RBRACE] + post)) == Some((ms, post))
    ensures var u := SkipSpace(b + ([RBRACE] + post)); u != [] && u[0] == QUOTE
    decreases ms, 1
  {
    hide IsMember, WellFormed, Guarded, SkipSpace, ScanMember, DistinctKeys;
    var tail := [RBRACE] + post;
    FirstKey(ms, seen);
    assert ms[0].1 < ms[0];
    if |ms| == 1 {
      CommaCloses([], RBRACE, post);
      var rest := MemberScans(mode, room, seen, ms[0].0, ms[0].1, b, tail);
      assert tail[1..] == post && ms == [ms[0]];
    } else {
      var x, y :| b == x + ([COMMA] + y) && IsMember(ms[0].0, ms[0].1, x) && IsMembers(ms[1..], y);
      var after := [COMMA] + (y + tail);
      Assoc([COMMA], y, tail);
      Assoc(x, [COMMA] + y, tail);
      CommaCloses(y + tail, RBRACE, post);
      var rest := MemberScans(mode, room, seen, ms[0].0, ms[0].1, x, after);
      MembersScan(mode, room, seen + {ms[0].0}, ms[1..], y, post);
      ConsTail(COMMA, y + tail);
      HeadTail(ms);
    }
  }

  lemma FirstKey(ms: seq<(Bytes, Doc)>, seen: set<Bytes>)
    requires ms != [] && DistinctKeys(ms) && forall k :: k in seen ==> !HasKey(ms, k)
    ensures ms[0].0 !in seen && DistinctKeys(ms[1..]) && forall k :: k in seen + {ms[0].0} ==> !HasKey(ms[1..], k)
  {
    KeySplit(ms);
    assert HasKey(ms, ms[0].0);
  }

  // ---- the theorem ----

  /** A text is accepted as a document exactly when the grammar spells that
      document with it, the document meets the bounds, and no spelled exponent
      is above the guard. */
  lemma ParseExactly(rules: Rules, raw: Bytes, d: Doc)
    ensures Parse(rules, raw) == Some(d)
       <==> IsItem(d, raw) && WellFormed(rules, MAX_DEPTH, d) && Guarded(ExponentLimit(|raw|), d)
  {
    hide WellFormed, Guarded, ScanValue, SkipSpace, IsValue;
    var mode := Mode(ExponentLimit(|raw|), rules);
    if Parse(rules, raw) == Some(d) {
      ParseWellFormed(rules, raw);
      var x := ItemRead(mode, MAX_DEPTH, raw);
      assert x + [] == x;
    }
    if IsItem(d, raw) && WellFormed(rules, MAX_DEPTH, d) && Guarded(ExponentLimit(|raw|), d) {
      WholeScans(mode, MAX_DEPTH, d, raw);
    }
  }

  lemma WholeScans(mode: Mode, room: nat, d: Doc, raw: Bytes)
    requires IsItem(d, raw) && WellFormed(mode.rules, room, d) && Guarded(mode.limit, d)
    ensures var r := ScanValue(mode, room, SkipSpace(raw));
            r.Some? && r.value.0 == d && SkipSpace(r.value.1) == []
  {
    hide IsValue, WellFormed, Guarded, ScanValue, Blank;
    var v :| Padded(raw, v) && IsValue(d, v);
    var a, z :| Blank(a) && Blank(z) && raw == a + (v + z);
    ValueHead(d, v);
    assert (v + z)[0] == v[0];
    SkipBlank(a, v + z);
    SkipBlank(z, []);
    BlankStops(z, []);
    assert z + [] == z;
    ValueScans(mode, room, d, v, z);
  }

  /** The grammar spells at most one document with a text. */
  lemma Unambiguous(mode: Mode, room: nat, d: Doc, e: Doc, raw: Bytes)
    requires IsItem(d, raw) && WellFormed(mode.rules, room, d) && Guarded(mode.limit, d)
    requires IsItem(e, raw) && WellFormed(mode.rules, room, e) && Guarded(mode.limit, e)
    ensures d == e
  {
    hide IsItem, WellFormed, Guarded, ScanValue, SkipSpace;
    WholeScans(mode, room, d, raw);
    WholeScans(mode, room, e, raw);
  }

  /** Two texts of the grammar have one canonical text exactly when the documents
      they spell denote one value. */
  lemma SpellingsAgree(rules: Rules, a: Bytes, b: Bytes, x: Doc, y: Doc)
    requires IsItem(x, a) && WellFormed(rules, MAX_DEPTH, x) && Guarded(ExponentLimit(|a|), x)
    requires IsItem(y, b) && WellFormed(rules, MAX_DEPTH, y) && Guarded(ExponentLimit(|b|), y)
    ensures Canonicalize(rules, a).Some? && Canonicalize(rules, b).Some?
    ensures Canonicalize(rules, a) == Canonicalize(rules, b) <==> Denote(x) == Denote(y)
  {
    hide IsItem, WellFormed, Guarded, Parse, Denote, Canon;
    ParseExactly(rules, a, x);
    ParseExactly(rules, b, y);
    CanonicalizeIsEquality(rules, a, b);
  }

  // ---- the depth bound ----

  /** null inside n arrays. */
  function Nested(n: nat): Doc { if n == 0 then Null else Arr([Nested(n - 1)]) }

  function NestedText(n: nat): Bytes {
    if n == 0 then Text("null") else [LBRACKET] + (NestedText(n - 1) + [RBRACKET])
  }

  lemma {:induction false} NestedSpelled(n: nat)
    ensures IsValue(Nested(n), NestedText(n)) && IsItem(Nested(n), NestedText(n))
  {
    hide Text;
    if n > 0 {
      NestedSpelled(n - 1);
      assert IsItems([Nested(n - 1)], NestedText(n - 1));
    }
    var t := NestedText(n);
    assert Blank([]) && t == [] + (t + []);
    assert Padded(t, t);
  }

  lemma {:induction false} NestedFits(rules: Rules, room: nat, limit: int, n: nat)
    ensures WellFormed(rules, room, Nested(n)) <==> n <= room
    ensures Guarded(limit, Nested(n))
    decreases n
  {
    if n > 0 && room > 0 {
      NestedFits(rules, room - 1, limit, n - 1);
      assert [Nested(n - 1)][0] == Nested(n - 1);
    } else if n > 0 {
      NestedFits(rules, room, limit, n - 1);
    }
  }

  /** Ten thousand levels are accepted, and no more. */
  lemma DepthExactly(rules: Rules, n: nat)
    ensures Parse(rules, NestedText(n)).Some? <==> n <= 10000
  {
    hide IsItem, WellFormed, Guarded, Parse, Nested, NestedText;
    var raw := NestedText(n);
    var limit := ExponentLimit(|raw|);
    NestedSpelled(n);
    NestedFits(rules, MAX_DEPTH, limit, n);
    ParseExactly(rules, raw, Nested(n));
    if Parse(rules, raw).Some? {
      var d := Parse(rules, raw).value;
      var room := if n > MAX_DEPTH then n else MAX_DEPTH;
      ParseExactly(rules, raw, d);
      MoreRoom(rules, MAX_DEPTH, room, d);
      NestedFits(rules, room, limit, n);
      Unambiguous(Mode(limit, rules), room, d, Nested(n), raw);
    }
  }

  // ---- the bounds on numbers ----

  /** A number alone is accepted exactly when it is zero or of a magnitude from
      10^-1000000000000 up to 10^1000000000001, its value is admitted outside
      exact mode, and its exponent is within the guard. */
  lemma NumberAccepted(exact: bool, binary64: real -> bool, l: Number, t: Bytes)
    requires IsNumber(l, t)
    ensures Parse(Rules(exact, binary64), t) == Some(Num(l))
       <==> && (l.Value() == 0.0 || Scale(1.0, -1000000000000) <= Magnitude(l.Value()) < Scale(1.0, 1000000000001))
            && (exact || binary64(l.Value()))
            && -1000000000000 - |t| <= l.exp <= 1000000000000 + |t|
  {
    hide IsNumber, Parse, Scale, Normalize, Text;
    RangeMeans(l);
    assert Blank([]) && t == [] + (t + []);
    assert Padded(t, t) && IsValue(Num(l), t);
    assert IsItem(Num(l), t);
    ParseExactly(Rules(exact, binary64), t, Num(l));
  }
}
