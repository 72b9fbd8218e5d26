/** The guard on spelled exponents grows with the document. It decides nothing
    about nonzero numbers; for zeros it decides exactly those spelled beyond it. */
module ExponentGuard {
  import opened Utf8
  import opened Wrappers
  import opened Numbers
  import opened NumberText
  import opened Json

  function Abs(e: int): nat { if e < 0 then -e else e }

  /** A lower guard keeps the literals whose exponent it reaches, and refuses
      the others. */
  function Kept(limit: int, r: Option<(Literal, Bytes)>): Option<(Literal, Bytes)> {
    if r.Some? && Abs(r.value.0.exp) <= limit then r else None
  }

  lemma UnsignedKept(low: int, high: int, neg: bool, t: Bytes)
    requires 0 <= low <= high
    ensures ScanUnsigned(low, neg, t) == Kept(low, ScanUnsigned(high, neg, t))
  {
    hide Digits, Whole, Frac;
  }

  lemma LiteralKept(low: int, high: int, t: Bytes)
    requires t != [] && 0 <= low <= high
    ensures ScanLiteral(low, t) == Kept(low, ScanLiteral(high, t))
  {
    hide ScanUnsigned;
    if t[0] == MINUS {
      UnsignedKept(low, high, true, t[1..]);
    } else {
      UnsignedKept(low, high, false, t);
    }
  }

  lemma WholeLength(t: Bytes)
    ensures Whole(t).Some? ==> |Whole(t).value.0| + |Whole(t).value.1| == |t|
  {
  }

  lemma FracLength(t: Bytes)
    ensures Frac(t).Some? ==> |Frac(t).value.0| + |Frac(t).value.1| <= |t|
  {
  }

  /** The digits of a literal are among the bytes it takes. */
  lemma LiteralLength(limit: int, t: Bytes)
    requires t != [] && ScanLiteral(limit, t).Some?
    ensures var r := ScanLiteral(limit, t).value; |r.0.whole| + |r.0.frac| <= |t| - |r.1|
  {
    hide Whole, Frac, Exponent;
    var u := if t[0] == MINUS then t[1..] else t;
    WholeLength(u);
    FracLength(Whole(u).value.1);
  }

  /** Of two guards that both leave room for the literal, the lower one changes
      the outcome exactly when the literal is an accepted zero spelled with an
      exponent beyond it. */
  lemma GuardMatters(low: int, high: int, rules: Rules, t: Bytes)
    requires t != [] && 0 <= low <= high
    requires var r := ScanLiteral(high, t); r.Some? ==> low >= MAX_EXPONENT + |t| - |r.value.1|
    ensures ScanNumber(Mode(low, rules), t) != ScanNumber(Mode(high, rules), t)
       <==> && ScanNumber(Mode(high, rules), t).Some?
            && var l := ScanLiteral(high, t).value.0; Normalize(l).Zero? && Abs(l.exp) > low
  {
    hide ScanLiteral;
    LiteralKept(low, high, t);
    var r := ScanLiteral(high, t);
    if r.Some? && Normalize(r.value.0).Dec? && Normalize(r.value.0).InRange() {
      LiteralLength(high, t);
      GuardAdmitsInRange(|t| - |r.value.1|, r.value.0);
    }
  }

  // ---- a zero that its document's length decides ----

  function Spaces(k: nat): Bytes { seq(k, _ => 0x20) }

  /** 0e and a number, then spaces. */
  function ZeroText(n: nat, k: nat): Bytes { [ZERO, EXP] + (DecimalText(n) + Spaces(k)) }

  lemma {:induction false} SpacesSkipped(k: nat)
    ensures SkipSpace(Spaces(k)) == []
  {
    if k > 0 {
      SpacesSkipped(k - 1);
      assert Spaces(k)[1..] == Spaces(k - 1);
    }
  }

  lemma ZeroScans(limit: int, n: nat, k: nat)
    requires limit >= 0
    ensures ScanLiteral(limit, ZeroText(n, k))
         == if n <= limit then Some((Literal(false, [ZERO], [], n), Spaces(k))) else None
  {
    hide DecimalText, Digits;
    var t := ZeroText(n, k);
    var e := [EXP] + (DecimalText(n) + Spaces(k));
    assert t[..1] == [ZERO] && t[1..] == e && e[1..] == DecimalText(n) + Spaces(k);
    assert DecimalText(n)[0] == (DecimalText(n) + Spaces(k))[0];
    DigitsThen(DecimalText(n), Spaces(k));
    NatOfDecimalText(n);
  }

  lemma ZeroMeans(n: nat)
    ensures Normalize(Literal(false, [ZERO], [], n)) == Zero && Literal(false, [ZERO], [], n).Value() == 0.0
  {
    var l := Literal(false, [ZERO], [], n);
    assert [ZERO] + [] == [ZERO];
    NormalizeValue(l);
  }

  /** Such a text is the number zero, or refused when its exponent is beyond what
      its own length allows. */
  lemma ZeroExponent(rules: Rules, n: nat, k: nat)
    requires rules.Admits(0.0)
    ensures Canonicalize(rules, ZeroText(n, k))
         == if n <= ExponentLimit(|ZeroText(n, k)|) then Some([ZERO]) else None
  {
    hide DecimalText, ScanLiteral, ScanArray, ScanObject;
    var t := ZeroText(n, k);
    assert SkipSpace(t) == t;
    ZeroScans(ExponentLimit(|t|), n, k);
    ZeroMeans(n);
    SpacesSkipped(k);
  }

  lemma ThirteenDigits()
    ensures |DecimalText(1_000_000_000_020)| == 13
  {
    assert |DecimalText(1_000)| == 4;
    assert |DecimalText(1_000_000)| == 7;
    assert |DecimalText(1_000_000_000)| == 10;
    assert |DecimalText(1_000_000_000_02)| == 12;
  }

  /** 0e1000000000020 alone is refused; with five spaces behind it, it is 0. */
  lemma LengthDecidesZero(rules: Rules)
    requires rules.Admits(0.0)
    ensures |ZeroText(1_000_000_000_020, 0)| == 15 && Canonicalize(rules, ZeroText(1_000_000_000_020, 0)) == None
    ensures |ZeroText(1_000_000_000_020, 5)| == 20 && Canonicalize(rules, ZeroText(1_000_000_000_020, 5)) == Some([ZERO])
  {
    hide Canonicalize, DecimalText;
    ThirteenDigits();
    ZeroExponent(rules, 1_000_000_000_020, 0);
    ZeroExponent(rules, 1_000_000_000_020, 5);
  }
}
