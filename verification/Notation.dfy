/** How large a number is, read off its normal form: which literals are in
    range, and which are printed with an exponent. */
module Notation {
  import opened Utf8
  import opened Numbers
  import opened NumberText
  import opened Ports
  import opened JsonFields

  function Magnitude(x: real): real { if x < 0.0 then -x else x }

  lemma {:induction false} PowerScales(d: nat, n: nat)
    ensures Power(d, n) as real == Scale(d as real, n)
  {
    if n > 0 {
      PowerScales(d, n - 1);
      ScaleStep(d as real, n - 1);
    }
  }

  /** k digits without a leading zero lie between 10^(k-1) and 10^k. */
  lemma DigitsBetween(ds: Bytes)
    requires AllDigits(ds) && ds != [] && ds[0] != ZERO
    ensures Scale(1.0, |ds| - 1) <= NatOf(ds) as real < Scale(1.0, |ds|)
  {
    var n := |ds| - 1;
    LeadingDigit(ds);
    PowerGrows(0, ds[0] - ZERO, n);
    PowerGrows(1, ds[0] - ZERO, n);
    PowerGrows(ds[0] - ZERO, 10, n);
    PowerScales(1, n);
    PowerScales(10, n);
    ScaleStep(1.0, n);
  }

  lemma Between(d: Decimal)
    requires d.Dec? && d.Normal()
    ensures Scale(1.0, d.point - 1) <= Magnitude(d.Value()) < Scale(1.0, d.point)
  {
    var k, e := |d.digits|, d.point - |d.digits|;
    var x := NatOf(d.digits) as real;
    DigitsBetween(d.digits);
    ScaleAdd(1.0, e, k - 1);
    ScaleAdd(1.0, e, k);
    ScaleMonotone(x, Scale(1.0, k), e);
    if Scale(1.0, k - 1) < x { ScaleMonotone(Scale(1.0, k - 1), x, e); }
    MagnitudeIs(d);
  }

  lemma MagnitudeIs(d: Decimal)
    requires d.Dec? && d.Normal()
    ensures Magnitude(d.Value()) == Scale(NatOf(d.digits) as real, d.point - |d.digits|) > 0.0
  {
    hide Scale, NatOf;
    PositiveValue(d);
  }

  lemma {:induction false} ScaleGrows(e: int, f: int)
    requires e <= f
    ensures 0.0 < Scale(1.0, e) <= Scale(1.0, f)
    decreases f - e
  {
    if e == f {
      ScaleMonotone(0.0, 1.0, e);
      ScaleZero(e);
    } else {
      ScaleGrows(e, f - 1);
      ScaleStep(1.0, f - 1);
    }
  }

  /** Where the point stands says how large the number is. */
  lemma PointMeans(d: Decimal, e: int)
    requires d.Dec? && d.Normal()
    ensures d.point > e <==> Magnitude(d.Value()) >= Scale(1.0, e)
  {
    hide Scale;
    Between(d);
    if d.point > e { ScaleGrows(e, d.point - 1); } else { ScaleGrows(d.point, e); }
  }

  // ---- the range ----

  /** A literal is in range exactly when it is zero or its magnitude lies from
      10^-1000000000000 up to, not including, 10^1000000000001. */
  lemma RangeMeans(l: Literal)
    requires l.WellFormed()
    ensures Normalize(l).InRange()
       <==> l.Value() == 0.0 || Scale(1.0, -1000000000000) <= Magnitude(l.Value()) < Scale(1.0, 1000000000001)
  {
    hide Scale, Normalize;
    var d := Normalize(l);
    NormalizeValue(l);
    if d.Dec? {
      PointMeans(d, -1000000000000);
      PointMeans(d, 1000000000001);
      MagnitudeIs(d);
    }
  }

  // ---- the notation ----

  lemma ScaleSeven(x: real)
    ensures Scale(x, 7) == 10000000.0 * x
  {
    assert Scale(10000.0 * x, 3) == 10000000.0 * x;
    assert Scale(10.0 * x, 6) == Scale(100.0 * x, 5) == Scale(1000.0 * x, 4) == Scale(10000.0 * x, 3);
  }

  lemma TenTo21()
    ensures Scale(1.0, 21) == 1000000000000000000000.0
  {
    hide Scale;
    ScaleAdd(1.0, 14, 7);
    ScaleSeven(1.0);
    ScaleAdd(10000000.0, 7, 7);
    ScaleSeven(10000000.0);
    ScaleSeven(100000000000000.0);
  }

  lemma TenToMinus6()
    ensures Scale(1.0, -6) == 0.000001
  {
    assert Scale(0.001, -3) == 0.000001;
    assert Scale(1.0, -6) == Scale(0.1, -5) == Scale(0.01, -4) == Scale(0.001, -3);
  }

  lemma {:induction false} NoLetter(ds: Bytes)
    requires AllDigits(ds)
    ensures EXP !in ds && DOT !in ds && MINUS !in ds
  {
  }

  /** The printed text of a literal has an exponent exactly when the literal has
      one. */
  lemma SpelledExponent(l: Literal)
    requires l.WellFormed()
    ensures EXP in Spell(l) <==> l.exp != 0
  {
    hide DecimalText;
    NoLetter(l.whole);
    NoLetter(l.frac);
    var x := ExponentText(l.exp);
    assert l.exp != 0 ==> x[0] == EXP;
    assert EXP in Spell(l) <==> EXP in SignText(l.neg) || EXP in l.whole || EXP in Fraction(l.frac) || EXP in x;
  }

  /** As in Number::toString, an exponent is printed exactly for numbers of at
      least 10^21 and for nonzero numbers below 10^-6. */
  lemma ExponentPrinted(l: Literal)
    requires l.WellFormed()
    ensures EXP in Print(Normalize(l))
       <==> l.Value() != 0.0 && (Magnitude(l.Value()) >= 1000000000000000000000.0 || Magnitude(l.Value()) < 0.000001)
  {
    hide Scale, Normalize, Spell, NatOf;
    var d := Normalize(l);
    NormalizeValue(l);
    TenTo21();
    TenToMinus6();
    if d.Dec? {
      PointMeans(d, 21);
      PointMeans(d, -6);
      MagnitudeIs(d);
      SpelledExponent(Place(d));
    }
  }

  /** No digit is printed that carries nothing, and with an exponent one digit
      stands before the point. */
  lemma PrintedTidy(d: Decimal)
    requires d.Dec? && d.Normal()
    ensures var l := Place(d);
            && (l.whole == [ZERO] || l.whole[0] != ZERO)
            && (l.frac == [] || l.frac[|l.frac| - 1] != ZERO)
            && (l.exp != 0 ==> |l.whole| == 1 && l.whole != [ZERO])
  {
    assert d.digits[..1] == [d.digits[0]];
  }

  /** 10^21 is printed 1e+21. */
  lemma LargePrinted()
    ensures Print(Dec(false, [0x31], 22)) == Text("1e+21")
  {
    assert DecimalText(2) == [0x32] && DecimalText(21) == [0x32, 0x31];
    var l := Place(Dec(false, [0x31], 22));
    assert l == Literal(false, [0x31], [], 21);
    assert Spell(l) == [0x31, EXP, PLUS, 0x32, 0x31];
    assert Text("1e+21") == [0x31, EXP, PLUS, 0x32, 0x31];
  }

  /** -0.00000015 is printed -1.5e-7. */
  lemma SmallPrinted()
    ensures Print(Dec(true, [0x31, 0x35], -6)) == Text("-1.5e-7")
  {
    var l := Place(Dec(true, [0x31, 0x35], -6));
    assert l == Literal(true, [0x31], [0x35], -7);
    assert DecimalText(7) == [0x37];
    assert Spell(l) == [MINUS, 0x31, DOT, 0x35, EXP, MINUS, 0x37];
    assert Text("-1.5e-7") == [MINUS, 0x31, DOT, 0x35, EXP, MINUS, 0x37];
  }
}
