/** Which canonical numbers are integers of 64 bits: by their value, and by
    reading their text as strconv.ParseInt does in base ten. */
module Integers {
  import opened Utf8
  import opened Wrappers
  import opened Numbers
  import opened NumberText
  import opened Ports

  const INT64: nat := 0x8000_0000_0000_0000

  predicate FitsInt(n: int) { -0x8000_0000_0000_0000 <= n < INT64 }

  predicate IsInt(x: real) { x == x.Floor as real && FitsInt(x.Floor) }

  /** An optional sign and digits, within range. */
  function ParseInt(t: Bytes): Option<int> {
    if t == [] then None
    else
      var ds := if t[0] == MINUS || t[0] == PLUS then t[1..] else t;
      if ds == [] || !AllDigits(ds) then None
      else
        var n := if t[0] == MINUS then 0 - (NatOf(ds) as int) else NatOf(ds) as int;
        if FitsInt(n) then Some(n) else None
  }

  // ---- an integer is printed plainly ----

  function Magnitude(n: int): nat { if n < 0 then -n else n }

  /** An integer as a literal. */
  function Plain(n: int): (l: Literal)
    ensures l.WellFormed()
  {
    Literal(n < 0, DecimalText(Magnitude(n)), [], 0)
  }

  lemma PlainValue(n: int)
    ensures Plain(n).Value() == n as real
  {
    hide DecimalText;
    var ds := DecimalText(Magnitude(n));
    NatOfDecimalText(Magnitude(n));
    assert ds + [] == ds;
  }

  lemma {:induction false} DecimalTextLeads(n: nat)
    requires n > 0
    ensures DecimalText(n)[0] != ZERO
  {
    if n >= 10 { DecimalTextLeads(n / 10); }
  }

  lemma {:induction false} DecimalTextLength(n: nat, k: nat)
    requires k > 0 && n < Power(1, k)
    ensures |DecimalText(n)| <= k
  {
    if n >= 10 { DecimalTextLength(n / 10, k - 1); }
  }

  lemma TwentyDigits()
    ensures Power(1, 20) == 100_000_000_000_000_000_000
  {
    assert Power(1, 5) == 100_000;
    assert Power(1, 10) == 10_000_000_000;
    assert Power(1, 15) == 1_000_000_000_000_000;
  }

  /** Digits without a leading zero are placed as they are, when there are few
      enough. */
  lemma DigitsPlaced(neg: bool, ds: Bytes)
    requires AllDigits(ds) && 0 < |ds| <= 21 && ds[0] != ZERO
    ensures Print(FromDigits(neg, ds, 0)) == SignText(neg) + ds && FromDigits(neg, ds, 0).InRange()
  {
    hide Trailing, Leading;
    NoLeading(ds);
    var k := |ds| - Trailing(ds);
    TrailingZeros(ds);
    assert ds + ([] + []) == ds;
  }

  lemma NoLeading(ds: Bytes)
    requires ds != [] && ds[0] != ZERO
    ensures Leading(ds) == 0 && ds[0..] == ds
  {
  }

  lemma TrailingZeros(ds: Bytes)
    requires ds != [] && ds[0] != ZERO
    ensures Trailing(ds) < |ds| && ds == ds[..|ds| - Trailing(ds)] + Zeros(Trailing(ds))
  {
    hide Trailing;
  }

  lemma PlainPrints(n: int)
    requires -100_000_000_000_000_000_000 < n < 100_000_000_000_000_000_000
    ensures Print(Normalize(Plain(n))) == SignText(n < 0) + DecimalText(Magnitude(n)) && Normalize(Plain(n)).InRange()
  {
    hide DecimalText, Print;
    var ds := DecimalText(Magnitude(n));
    TwentyDigits();
    DecimalTextLength(Magnitude(n), 20);
    assert ds + [] == ds;
    if n == 0 {
      ZeroPrints();
    } else {
      DecimalTextLeads(Magnitude(n));
      DigitsPlaced(n < 0, ds);
    }
  }

  lemma ZeroPrints()
    ensures DecimalText(0) == [ZERO] && FromDigits(false, [ZERO], 0) == Zero && Print(Zero) == [ZERO]
    ensures SignText(false) + [ZERO] == [ZERO]
  {
  }

  lemma PlainParses(n: int)
    requires FitsInt(n)
    ensures ParseInt(SignText(n < 0) + DecimalText(Magnitude(n))) == Some(n)
  {
    hide DecimalText;
    var ds := DecimalText(Magnitude(n));
    NatOfDecimalText(Magnitude(n));
    assert n < 0 ==> ([MINUS] + ds)[1..] == ds;
    assert [] + ds == ds;
  }

  // ---- and nothing else is ----

  /** A text of digits scans as the literal of those digits, or not to its
      end. */
  lemma DigitsScan(limit: int, neg: bool, ds: Bytes)
    requires AllDigits(ds) && ds != [] && limit >= 0
    ensures var r := ScanUnsigned(limit, neg, ds); r.Some? && r.value.1 == [] ==> r.value.0 == Literal(neg, ds, [], 0)
  {
    DigitsThen(ds, []);
    assert ds + [] == ds;
    assert ds[0] == ZERO ==> ds[..1] == [ZERO] && (ds[1..] == [] ==> ds == [ZERO]);
  }

  lemma ParsedValue(l: Literal, n: int)
    requires l.WellFormed() && Normalize(l).InRange() && ParseInt(Print(Normalize(l))) == Some(n)
    ensures l.Value() == n as real
  {
    hide ScanLiteral, Print, Normalize, ParseInt;
    var t := Print(Normalize(l));
    ScanPrinted(MAX_EXPONENT, Normalize(l), []);
    assert t + [] == t;
    var r := ScanLiteral(MAX_EXPONENT, t).value.0;
    NormalizeValue(l);
    NormalizeValue(r);
    SignLeads(t);
    ParsedDigits(t, n);
  }

  /** No literal begins with a plus sign. */
  lemma SignLeads(t: Bytes)
    requires t != [] && ScanLiteral(MAX_EXPONENT, t).Some?
    ensures t[0] != PLUS
  {
    hide NatOf;
  }

  /** What a text read as an integer scans as. */
  lemma ParsedDigits(t: Bytes, n: int)
    requires t != [] && ParseInt(t) == Some(n) && t[0] != PLUS
    ensures var r := ScanLiteral(MAX_EXPONENT, t); r.Some? && r.value.1 == [] ==> r.value.0.Value() == n as real
  {
    hide ScanUnsigned;
    var ds := if t[0] == MINUS then t[1..] else t;
    DigitsScan(MAX_EXPONENT, t[0] == MINUS, ds);
    assert ds + [] == ds;
  }

  /** The canonical text of a number is a plain integer of 64 bits exactly when
      its value is one, and reads as that value. */
  lemma CanonicalInteger(l: Literal)
    requires l.WellFormed() && Normalize(l).InRange()
    ensures ParseInt(Print(Normalize(l))) == if IsInt(l.Value()) then Some(l.Value().Floor) else None
  {
    hide ParseInt, Print;
    if IsInt(l.Value()) {
      var n := l.Value().Floor;
      PlainValue(n);
      PlainPrints(n);
      PlainParses(n);
      PrintDeterminesValue(l, Plain(n));
    } else {
      ParsedIsInt(l);
    }
  }

  lemma ParsedIsInt(l: Literal)
    requires l.WellFormed() && Normalize(l).InRange()
    ensures ParseInt(Print(Normalize(l))).Some? ==> IsInt(l.Value())
  {
    hide Print;
    if ParseInt(Print(Normalize(l))).Some? {
      var n := ParseInt(Print(Normalize(l))).value;
      ParsedValue(l, n);
      assert (n as real).Floor == n;
    }
  }
}
