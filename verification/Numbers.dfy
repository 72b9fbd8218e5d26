/** JSON number literals: their exact decimal value, the normal form
    ECMAScript's Number::toString prints from, and the printed spelling.
    No value is ever read through a float. */
module Numbers {
  import opened Utf8

  const ZERO: byte := 0x30   // '0'
  const MINUS: byte := 0x2D  // '-'
  const PLUS: byte := 0x2B   // '+'
  const EXP: byte := 0x65    // 'e'
  const EXP_UPPER: byte := 0x45

  const MAX_EXPONENT: int := 1_000_000_000_000

  predicate IsDigit(b: byte) { 0x30 <= b <= 0x39 }

  predicate AllDigits(s: Bytes) {
    forall i :: 0 <= i < |s| ==> IsDigit(s[i])
  }

  /** The natural number a digit string spells; leading zeros carry nothing. */
  function NatOf(s: Bytes): (n: nat)
    requires AllDigits(s)
  {
    if s == [] then 0 else 10 * NatOf(s[..|s| - 1]) + (s[|s| - 1] - ZERO)
  }

  /** m x 10^e, for any integer e. */
  function Scale(m: real, e: int): real
    decreases if e < 0 then -e else e
  {
    if e == 0 then m else if e > 0 then Scale(10.0 * m, e - 1) else Scale(m / 10.0, e + 1)
  }

  /** A number literal as scanned: an integer part, a fraction, an exponent. */
  datatype Literal = Literal(neg: bool, whole: Bytes, frac: Bytes, exp: int)
  {
    predicate WellFormed() {
      whole != [] && AllDigits(whole) && AllDigits(frac)
    }

    function Mantissa(): nat
      requires WellFormed()
    {
      NatOf(whole + frac)
    }

    /** The exact decimal value. */
    function Value(): real
      requires WellFormed()
    {
      Signed(neg, Scale(Mantissa() as real, exp - |frac|))
    }
  }

  function Signed(neg: bool, x: real): real { if neg then -x else x }

  /** The normal form: zero, or 0.digits x 10^point with no zero at either end
      of the digits. */
  datatype Decimal = Zero | Dec(neg: bool, digits: Bytes, point: int)
  {
    predicate Normal() {
      Dec? ==> digits != [] && AllDigits(digits) && digits[0] != ZERO && digits[|digits| - 1] != ZERO
    }

    function Value(): real
      requires Normal()
    {
      match this
      case Zero => 0.0
      case Dec(neg, digits, point) => Signed(neg, Scale(NatOf(digits) as real, point - |digits|))
    }

    /** The exponent Number::toString would print is within the bound. */
    predicate InRange() {
      Dec? ==> -MAX_EXPONENT <= point - 1 <= MAX_EXPONENT
    }
  }

  // ---- normalisation ----

  function Leading(s: Bytes): (n: nat)
    ensures n <= |s|
    ensures forall i :: 0 <= i < n ==> s[i] == ZERO
    ensures n < |s| ==> s[n] != ZERO
  {
    if s == [] || s[0] != ZERO then 0 else 1 + Leading(s[1..])
  }

  function Trailing(s: Bytes): (n: nat)
    ensures n <= |s|
    ensures forall i :: |s| - n <= i < |s| ==> s[i] == ZERO
    ensures n < |s| ==> s[|s| - n - 1] != ZERO
  {
    if s == [] || s[|s| - 1] != ZERO then 0 else 1 + Trailing(s[..|s| - 1])
  }

  /** The normal form of (digit string) x 10^e. */
  function FromDigits(neg: bool, all: Bytes, e: int): (d: Decimal)
    requires AllDigits(all)
    ensures d.Normal()
  {
    var significant := all[Leading(all)..];
    if significant == [] then Zero
    else Dec(neg, significant[..|significant| - Trailing(significant)], e + |significant|)
  }

  function Normalize(l: Literal): (d: Decimal)
    requires l.WellFormed()
    ensures d.Normal()
  {
    FromDigits(l.neg, l.whole + l.frac, l.exp - |l.frac|)
  }

  // ---- laws of scaling ----

  lemma {:induction false} ScaleStep(m: real, e: int)
    ensures Scale(m, e + 1) == Scale(10.0 * m, e) == 10.0 * Scale(m, e)
    decreases if e < 0 then -e else e
  {
    if e > 0 {
      ScaleStep(10.0 * m, e - 1);
    } else if e < 0 {
      ScaleStep(m / 10.0, e + 1);
    }
  }

  lemma {:induction false} ScaleAdd(m: real, e: int, f: nat)
    ensures Scale(Scale(m, f), e) == Scale(m, e + f)
    decreases f
  {
    if f != 0 {
      ScaleAdd(10.0 * m, e, f - 1);
      ScaleStep(m, e + f - 1);
    }
  }

  lemma {:induction false} ScaleMonotone(x: real, y: real, e: int)
    requires x < y
    ensures Scale(x, e) < Scale(y, e)
    decreases if e < 0 then -e else e
  {
    if e > 0 {
      ScaleMonotone(10.0 * x, 10.0 * y, e - 1);
    } else if e < 0 {
      ScaleMonotone(x / 10.0, y / 10.0, e + 1);
    }
  }

  lemma {:induction false} ScaleZero(e: int)
    ensures Scale(0.0, e) == 0.0
    decreases if e < 0 then -e else e
  {
    if e > 0 {
      ScaleZero(e - 1);
    } else if e < 0 {
      ScaleZero(e + 1);
    }
  }

  lemma ScaleInjective(x: real, y: real, e: int)
    requires Scale(x, e) == Scale(y, e)
    ensures x == y
  {
    if x < y {
      ScaleMonotone(x, y, e);
    } else if y < x {
      ScaleMonotone(y, x, e);
    }
  }

  // ---- normalising keeps the exact value ----

  lemma {:induction false} NatOfConcat(a: Bytes, b: Bytes)
    requires AllDigits(a) && AllDigits(b)
    ensures AllDigits(a + b)
    ensures NatOf(a + b) as real == Scale(NatOf(a) as real, |b|) + NatOf(b) as real
  {
    if b == [] {
      assert a + b == a;
    } else {
      var b' := b[..|b| - 1];
      NatOfConcat(a, b');
      ScaleStep(NatOf(a) as real, |b'|);
      assert (a + b)[..|a + b| - 1] == a + b';
    }
  }

  lemma {:induction false} NatOfZeros(s: Bytes)
    requires forall i :: 0 <= i < |s| ==> s[i] == ZERO
    ensures AllDigits(s) && NatOf(s) == 0
  {
    if s != [] { NatOfZeros(s[..|s| - 1]); }
  }

  lemma LeadingZerosCarryNothing(zeros: Bytes, rest: Bytes)
    requires forall i :: 0 <= i < |zeros| ==> zeros[i] == ZERO
    requires AllDigits(rest)
    ensures AllDigits(zeros + rest) && NatOf(zeros + rest) == NatOf(rest)
  {
    NatOfZeros(zeros);
    NatOfConcat(zeros, rest);
    ScaleZero(|rest|);
  }

  lemma DropLeading(all: Bytes)
    requires AllDigits(all)
    ensures NatOf(all) == NatOf(all[Leading(all)..])
  {
    LeadingZerosCarryNothing(all[..Leading(all)], all[Leading(all)..]);
    assert all == all[..Leading(all)] + all[Leading(all)..];
  }

  lemma DropTrailing(s: Bytes)
    requires AllDigits(s)
    ensures var t := Trailing(s);
            NatOf(s) as real == Scale(NatOf(s[..|s| - t]) as real, t)
  {
    var t := Trailing(s);
    NatOfZeros(s[|s| - t..]);
    NatOfConcat(s[..|s| - t], s[|s| - t..]);
    assert s == s[..|s| - t] + s[|s| - t..];
  }

  lemma SignificantValue(s: Bytes, e: int)
    requires AllDigits(s)
    ensures Scale(NatOf(s) as real, e) == Scale(NatOf(s[..|s| - Trailing(s)]) as real, e + Trailing(s))
  {
    DropTrailing(s);
    ScaleAdd(NatOf(s[..|s| - Trailing(s)]) as real, e, Trailing(s));
  }

  lemma FromDigitsValue(neg: bool, all: Bytes, e: int)
    requires AllDigits(all)
    ensures FromDigits(neg, all, e).Value() == Signed(neg, Scale(NatOf(all) as real, e))
  {
    hide Scale, NatOf;
    DropLeading(all);
    var s := all[Leading(all)..];
    if s == [] {
      NatOfZeros(s);
      ScaleZero(e);
    } else {
      SignificantValue(s, e);
      assert FromDigits(neg, all, e).Dec?;
      assert e + |s| - |s[..|s| - Trailing(s)]| == e + Trailing(s);
    }
  }

  lemma NormalizeValue(l: Literal)
    requires l.WellFormed()
    ensures Normalize(l).Value() == l.Value()
  {
    FromDigitsValue(l.neg, l.whole + l.frac, l.exp - |l.frac|);
  }

  // ---- a normal form is determined by its value ----

  lemma {:induction false} NatOfPositive(s: Bytes)
    requires AllDigits(s) && s != [] && s[0] != ZERO
    ensures NatOf(s) > 0
  {
    if |s| > 1 {
      NatOfPositive(s[..|s| - 1]);
    }
  }

  /** Digit strings without leading zeros are determined by their number. */
  lemma {:induction false} NatOfInjective(a: Bytes, b: Bytes)
    requires AllDigits(a) && a != [] && a[0] != ZERO
    requires AllDigits(b) && b != [] && b[0] != ZERO
    requires NatOf(a) == NatOf(b)
    ensures a == b
  {
    var a', b' := a[..|a| - 1], b[..|b| - 1];
    LastDigit(a, b);
    hide NatOf;
    NatOfNothing();
    if |a| > 1 { NatOfPositive(a'); }
    if |b| > 1 { NatOfPositive(b'); }
    if |a| > 1 && |b| > 1 {
      NatOfInjective(a', b');
    }
    assert a == a' + [a[|a| - 1]] && b == b' + [b[|b| - 1]];
  }

  lemma NatOfNothing()
    ensures NatOf([]) == 0
  {
  }

  lemma LastDigit(a: Bytes, b: Bytes)
    requires AllDigits(a) && AllDigits(b) && a != [] && b != [] && NatOf(a) == NatOf(b)
    ensures a[|a| - 1] == b[|b| - 1] && NatOf(a[..|a| - 1]) == NatOf(b[..|b| - 1])
  {
    hide NatOf;
    NatOfLast(a);
    NatOfLast(b);
  }

  lemma NatOfLast(a: Bytes)
    requires AllDigits(a) && a != []
    ensures NatOf(a) == 10 * NatOf(a[..|a| - 1]) + (a[|a| - 1] - ZERO)
  {
  }

  /** A whole number scaled up by a power of ten ends in zero. */
  lemma {:induction false} ScaledEndsInZero(x: nat, y: nat, e: nat)
    requires Scale(x as real, e) == y as real
    ensures e > 0 ==> y % 10 == 0
    decreases e
  {
    if e == 1 {
      assert y == 10 * x;
    } else if e > 1 {
      assert 10.0 * x as real == (10 * x) as real;
      ScaledEndsInZero(10 * x, y, e - 1);
    }
  }

  lemma PositiveValue(d: Decimal)
    requires d.Normal() && d.Dec?
    ensures Scale(NatOf(d.digits) as real, d.point - |d.digits|) > 0.0
  {
    NatOfPositive(d.digits);
    ScaleMonotone(0.0, NatOf(d.digits) as real, d.point - |d.digits|);
    ScaleZero(d.point - |d.digits|);
  }

  lemma DecimalUniqueOrdered(a: Decimal, b: Decimal)
    requires a.Normal() && b.Normal() && a.Dec? && b.Dec?
    requires a.point - |a.digits| >= b.point - |b.digits|
    requires Scale(NatOf(a.digits) as real, a.point - |a.digits|) == Scale(NatOf(b.digits) as real, b.point - |b.digits|)
    ensures a.digits == b.digits && a.point == b.point
  {
    var eb := b.point - |b.digits|;
    var f := a.point - |a.digits| - eb;
    ScaleAdd(NatOf(a.digits) as real, eb, f);
    ScaleInjective(Scale(NatOf(a.digits) as real, f), NatOf(b.digits) as real, eb);
    ScaledEndsInZero(NatOf(a.digits), NatOf(b.digits), f);
    NatOfInjective(a.digits, b.digits);
  }

  /** Normal forms with the same value are the same normal form. */
  lemma DecimalUnique(a: Decimal, b: Decimal)
    requires a.Normal() && b.Normal()
    requires a.Value() == b.Value()
    ensures a == b
  {
    if a.Dec? { PositiveValue(a); }
    if b.Dec? { PositiveValue(b); }
    if a.Dec? && b.Dec? {
      if a.point - |a.digits| >= b.point - |b.digits| {
        DecimalUniqueOrdered(a, b);
      } else {
        DecimalUniqueOrdered(b, a);
      }
    }
  }
}
