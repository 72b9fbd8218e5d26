/** Scanning and printing numbers: the RFC 8259 grammar on the way in, the
    ECMAScript Number::toString placement of digits on the way out. */
module NumberText {
  import opened Utf8
  import opened Wrappers
  import opened Numbers
  import opened Seqs

  // ---- printing ----

  function Zeros(n: nat): (s: Bytes)
    ensures |s| == n && forall i :: 0 <= i < n ==> s[i] == ZERO
  {
    seq(n, _ => ZERO)
  }

  /** Decimal digits of a natural number, without leading zeros. */
  function DecimalText(n: nat): (s: Bytes)
    ensures s != [] && AllDigits(s)
  {
    if n < 10 then [ZERO + n] else DecimalText(n / 10) + [ZERO + n % 10]
  }

  /** Where Number::toString puts the digits of a nonzero normal form: a plain
      integer, a decimal fraction, or d.ddd with an exponent. */
  function Place(d: Decimal): (l: Literal)
    requires d.Dec? && d.Normal()
    ensures l.WellFormed() && l.neg == d.neg
  {
    var k := |d.digits|;
    if k <= d.point <= 21 then Literal(d.neg, d.digits + Zeros(d.point - k), [], 0)
    else if 0 < d.point <= 21 then Literal(d.neg, d.digits[..d.point], d.digits[d.point..], 0)
    else if -6 < d.point <= 0 then Literal(d.neg, [ZERO], Zeros(-d.point) + d.digits, 0)
    else Literal(d.neg, d.digits[..1], d.digits[1..], d.point - 1)
  }

  function Fraction(digits: Bytes): Bytes {
    if digits == [] then [] else [DOT] + digits
  }

  function ExponentText(e: int): Bytes {
    if e == 0 then []
    else if e > 0 then [EXP, PLUS] + DecimalText(e)
    else [EXP, MINUS] + DecimalText(-e)
  }

  function SignText(neg: bool): Bytes { if neg then [MINUS] else [] }

  function Unsigned(l: Literal): Bytes {
    l.whole + (Fraction(l.frac) + ExponentText(l.exp))
  }

  function Spell(l: Literal): Bytes {
    SignText(l.neg) + Unsigned(l)
  }

  /** The canonical spelling. */
  function Print(d: Decimal): Bytes
    requires d.Normal()
  {
    if d.Zero? then [ZERO] else Spell(Place(d))
  }

  // ---- scanning ----

  /** The length of the digit run at the start of `t`. */
  function DigitRun(t: Bytes): (n: nat)
    ensures n <= |t| && AllDigits(t[..n])
    ensures n < |t| ==> !IsDigit(t[n])
  {
    if t == [] || !IsDigit(t[0]) then 0 else 1 + DigitRun(t[1..])
  }

  /** One or more digits. */
  function Digits(t: Bytes): (r: Option<(Bytes, Bytes)>)
    ensures r.Some? ==> |r.value.1| < |t|
  {
    var n := DigitRun(t);
    if n == 0 then None else Some((t[..n], t[n..]))
  }

  /** A single zero, or digits: 01 scans as 0 and leaves 1. */
  function Whole(t: Bytes): (r: Option<(Bytes, Bytes)>)
    ensures r.Some? ==> |r.value.1| < |t|
  {
    if t == [] then None
    else if t[0] == ZERO then Some((t[..1], t[1..]))
    else Digits(t)
  }

  function Frac(t: Bytes): (r: Option<(Bytes, Bytes)>)
    ensures r.Some? ==> |r.value.1| <= |t|
  {
    if t != [] && t[0] == DOT then Digits(t[1..]) else Some(([], t))
  }

  /** A spelled exponent above `limit` is refused before it is used. */
  function ExponentDigits(limit: int, neg: bool, t: Bytes): (r: Option<(int, Bytes)>)
    ensures r.Some? ==> |r.value.1| < |t|
  {
    var digits :- Digits(t);
    var e: int := NatOf(digits.0);
    if e > limit then None else Some((if neg then -e else e, digits.1))
  }

  /** The exponent part. */
  function Exponent(limit: int, t: Bytes): (r: Option<(int, Bytes)>)
    ensures r.Some? ==> |r.value.1| <= |t|
  {
    if t == [] || (t[0] != EXP && t[0] != EXP_UPPER) then Some((0, t))
    else if |t| > 1 && (t[1] == PLUS || t[1] == MINUS) then ExponentDigits(limit, t[1] == MINUS, t[2..])
    else ExponentDigits(limit, false, t[1..])
  }

  /** The exponent guard for a document of `length` bytes. */
  function ExponentLimit(length: nat): int { MAX_EXPONENT + length }

  function ScanUnsigned(limit: int, neg: bool, t: Bytes): (r: Option<(Literal, Bytes)>)
    ensures r.Some? ==> r.value.0.WellFormed() && |r.value.1| < |t|
  {
    var whole :- Whole(t);
    var frac :- Frac(whole.1);
    var exp :- Exponent(limit, frac.1);
    Some((Literal(neg, whole.0, frac.0, exp.0), exp.1))
  }

  function ScanLiteral(limit: int, t: Bytes): (r: Option<(Literal, Bytes)>)
    requires t != []
    ensures r.Some? ==> r.value.0.WellFormed() && |r.value.1| < |t|
  {
    if t[0] == MINUS then ScanUnsigned(limit, true, t[1..]) else ScanUnsigned(limit, false, t)
  }

  // ---- scanning inverts printing ----

  /** What may follow a number without being read as part of it. */
  predicate Stops(post: Bytes) {
    post == [] || !(IsDigit(post[0]) || post[0] == DOT || post[0] == EXP || post[0] == EXP_UPPER)
  }

  lemma {:induction false} DigitRunThen(ds: Bytes, post: Bytes)
    requires AllDigits(ds)
    requires post == [] || !IsDigit(post[0])
    ensures DigitRun(ds + post) == |ds|
  {
    if ds == [] {
      assert ds + post == post;
    } else {
      DigitRunThen(ds[1..], post);
      assert (ds + post)[1..] == ds[1..] + post;
    }
  }

  lemma DigitsThen(ds: Bytes, post: Bytes)
    requires ds != [] && AllDigits(ds)
    requires post == [] || !IsDigit(post[0])
    ensures Digits(ds + post) == Some((ds, post))
  {
    DigitRunThen(ds, post);
  }

  lemma {:induction false} NatOfDecimalText(n: nat)
    ensures NatOf(DecimalText(n)) == n
  {
    var s := DecimalText(n);
    if n >= 10 {
      NatOfDecimalText(n / 10);
      assert s[..|s| - 1] == DecimalText(n / 10);
    }
  }

  lemma SignedExponent(limit: int, sign: byte, rest: Bytes)
    requires sign == PLUS || sign == MINUS
    ensures Exponent(limit, [EXP, sign] + rest) == ExponentDigits(limit, sign == MINUS, rest)
  {
    Cut([EXP, sign], rest);
  }

  lemma SignedExponentThen(limit: int, neg: bool, ds: Bytes, post: Bytes)
    requires ds != [] && AllDigits(ds) && NatOf(ds) <= limit && Stops(post)
    ensures Exponent(limit, [EXP, if neg then MINUS else PLUS] + ds + post)
            == Some((if neg then -(NatOf(ds) as int) else NatOf(ds), post))
  {
    DigitsThen(ds, post);
    Assoc([EXP, if neg then MINUS else PLUS], ds, post);
    SignedExponent(limit, if neg then MINUS else PLUS, ds + post);
  }

  lemma ExponentThen(limit: int, e: int, post: Bytes)
    requires -limit <= e <= limit && Stops(post)
    ensures Exponent(limit, ExponentText(e) + post) == Some((e, post))
  {
    if e == 0 {
      assert ExponentText(e) + post == post;
    } else {
      var m := if e > 0 then e else -e;
      NatOfDecimalText(m);
      SignedExponentThen(limit, e < 0, DecimalText(m), post);
    }
  }

  lemma FracThen(ds: Bytes, post: Bytes)
    requires AllDigits(ds)
    requires post == [] || !(IsDigit(post[0]) || post[0] == DOT)
    ensures Frac(Fraction(ds) + post) == Some((ds, post))
  {
    if ds == [] {
      assert Fraction(ds) + post == post;
    } else {
      DigitsThen(ds, post);
      Behead(DOT, ds, post);
    }
  }

  lemma Behead(b: byte, s: Bytes, t: Bytes)
    ensures ([b] + s + t)[0] == b && ([b] + s + t)[1..] == s + t
  {
  }

  /** Padding a normal form's digits with zeros only moves the point. */
  lemma PaddedDigits(neg: bool, a: nat, ds: Bytes, b: nat, e: int)
    requires Dec(neg, ds, 0).Normal()
    ensures AllDigits(Zeros(a) + ds + Zeros(b))
    ensures FromDigits(neg, Zeros(a) + ds + Zeros(b), e) == Dec(neg, ds, e + |ds| + b)
  {
    var all := Zeros(a) + ds + Zeros(b);
    assert all[a] == ds[0];
    assert Leading(all) == a;
    var s := all[a..];
    assert s == ds + Zeros(b);
    assert s[|ds| - 1] == ds[|ds| - 1];
    assert Trailing(s) == b;
    assert s[..|ds|] == ds;
  }

  lemma WholeThen(whole: Bytes, rest: Bytes)
    requires whole != [] && AllDigits(whole) && (whole == [ZERO] || whole[0] != ZERO)
    requires rest == [] || !IsDigit(rest[0])
    ensures Whole(whole + rest) == Some((whole, rest))
  {
    if whole != [ZERO] {
      DigitsThen(whole, rest);
    }
  }

  lemma Regroup(a: Bytes, b: Bytes, c: Bytes, d: Bytes, e: Bytes)
    ensures (a + (b + (c + d))) + e == a + (b + (c + (d + e)))
  {
  }

  /** A spelled literal scans back to itself. */
  lemma ScanSpelled(limit: int, l: Literal, post: Bytes)
    requires l.WellFormed() && (l.whole == [ZERO] || l.whole[0] != ZERO)
    requires -limit <= l.exp <= limit && Stops(post)
    ensures Spell(l) != []
    ensures ScanLiteral(limit, Spell(l) + post) == Some((l, post))
  {
    var tail := ExponentText(l.exp) + post;
    var rest := Fraction(l.frac) + tail;
    var body := l.whole + rest;
    ExponentThen(limit, l.exp, post);
    FracThen(l.frac, tail);
    WholeThen(l.whole, rest);
    assert ScanUnsigned(limit, l.neg, body) == Some((l, post));
    Regroup(SignText(l.neg), l.whole, Fraction(l.frac), ExponentText(l.exp), post);
    SignThen(limit, l.neg, body);
  }

  lemma SignThen(limit: int, neg: bool, body: Bytes)
    requires body != [] && IsDigit(body[0])
    ensures ScanLiteral(limit, SignText(neg) + body) == ScanUnsigned(limit, neg, body)
  {
    var t := SignText(neg) + body;
    if neg {
      assert t[1..] == body;
    } else {
      assert t == body;
    }
  }

  /** Placing digits does not change what they normalise to. */
  lemma NormalizePlaced(d: Decimal)
    requires d.Dec? && d.Normal()
    ensures Normalize(Place(d)) == d
  {
    var l := Place(d);
    var a, b := PlacedPadding(d);
    PaddedDigits(d.neg, a, d.digits, b, l.exp - |l.frac|);
  }

  lemma PlacedPadding(d: Decimal) returns (a: nat, b: nat)
    requires d.Dec? && d.Normal()
    ensures var l := Place(d);
            l.whole + l.frac == Zeros(a) + d.digits + Zeros(b) && l.exp - |l.frac| + |d.digits| + b == d.point
  {
    var k := |d.digits|;
    a, b := 0, 0;
    if k <= d.point <= 21 {
      b := d.point - k;
    } else if 0 < d.point <= 21 {
    } else if -6 < d.point <= 0 {
      a := 1 - d.point;
    }
  }

  /** Scanning a printed normal form reads a literal of that normal form and
      stops exactly after it. */
  lemma ScanPrinted(limit: int, d: Decimal, post: Bytes)
    requires d.Normal() && d.InRange() && limit >= MAX_EXPONENT && Stops(post)
    ensures Print(d) != []
    ensures var r := ScanLiteral(limit, Print(d) + post);
            r.Some? && r.value.1 == post && Normalize(r.value.0) == d
  {
    if d.Zero? {
      ScanSpelled(limit, Literal(false, [ZERO], [], 0), post);
      assert Print(d) == Spell(Literal(false, [ZERO], [], 0));
    } else {
      ScanSpelled(limit, Place(d), post);
      NormalizePlaced(d);
    }
  }

  // ---- the guard on spelled exponents ----

  const INT64_MAX: int := 0x7FFF_FFFF_FFFF_FFFF

  /** The early guard refuses no nonzero literal whose normal form is in
      range: the spelled exponent lies within the guard for any document long
      enough to hold the literal's digits. */
  lemma GuardAdmitsInRange(length: nat, l: Literal)
    requires l.WellFormed() && |l.whole| + |l.frac| <= length
    requires Normalize(l).Dec? && Normalize(l).InRange()
    ensures -ExponentLimit(length) <= l.exp <= ExponentLimit(length)
  {
    var all := l.whole + l.frac;
    assert Normalize(l).point == l.exp - |l.frac| + |all| - Leading(all);
  }

  lemma {:induction false} NatOfPrefix(ds: Bytes, k: nat)
    requires AllDigits(ds) && k <= |ds|
    ensures AllDigits(ds[..k]) && NatOf(ds[..k]) <= NatOf(ds)
    decreases |ds|
  {
    if k < |ds| {
      NatOfPrefix(ds[..|ds| - 1], k);
      assert ds[..|ds| - 1][..k] == ds[..k];
    } else {
      assert ds[..k] == ds;
    }
  }

  /** Accumulating an exponent digit by digit stays inside int64 at every step
      the guard lets through, one digit past the guard included, for every
      document of less than about 9.2e17 bytes. */
  lemma AccumulationFits(length: nat, ds: Bytes, k: nat)
    requires AllDigits(ds) && k < |ds|
    requires NatOf(ds[..k]) <= ExponentLimit(length)
    ensures NatOf(ds[..k + 1]) == 10 * NatOf(ds[..k]) + (ds[k] - ZERO)
    ensures length <= (INT64_MAX - 9) / 10 - MAX_EXPONENT ==> NatOf(ds[..k + 1]) <= INT64_MAX
  {
    assert ds[..k + 1][..k] == ds[..k];
  }

  // ---- literals and their printed forms ----

  /** Two literals print alike exactly when they have the same value. */
  lemma PrintDeterminesValue(a: Literal, b: Literal)
    requires a.WellFormed() && b.WellFormed()
    requires Normalize(a).InRange() && Normalize(b).InRange()
    ensures Print(Normalize(a)) == Print(Normalize(b)) <==> a.Value() == b.Value()
  {
    NormalizeValue(a);
    NormalizeValue(b);
    if a.Value() == b.Value() {
      DecimalUnique(Normalize(a), Normalize(b));
    }
    if Print(Normalize(a)) == Print(Normalize(b)) {
      ScanPrinted(MAX_EXPONENT, Normalize(a), []);
      ScanPrinted(MAX_EXPONENT, Normalize(b), []);
    }
  }

  /** The printed form is a literal of the same value, and printing it again
      changes nothing. */
  lemma PrintIsNormalForm(l: Literal)
    requires l.WellFormed() && Normalize(l).InRange()
    ensures Print(Normalize(l)) != []
    ensures var r := ScanLiteral(MAX_EXPONENT, Print(Normalize(l)));
            r.Some? && r.value.1 == [] && r.value.0.Value() == l.Value()
            && Print(Normalize(r.value.0)) == Print(Normalize(l))
  {
    var p := Print(Normalize(l));
    ScanPrinted(MAX_EXPONENT, Normalize(l), []);
    assert p + [] == p;
    NormalizeValue(l);
    NormalizeValue(ScanLiteral(MAX_EXPONENT, p).value.0);
  }
}
