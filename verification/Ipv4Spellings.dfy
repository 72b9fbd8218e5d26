/** Which numbers the labels of an IPv4 host spell, and which address the
    numbers make. */
module Ipv4Spellings {
  import opened Utf8
  import opened Wrappers
  import opened Splitting
  import opened Numbers
  import opened Strings
  import opened JsonFields
  import opened Ipv4

  /** A number in base 8, 10 or 16. */
  function InBase(base: nat, n: nat): (s: Bytes)
    requires 2 <= base <= 16
    ensures s != []
  {
    if n < base then [Digit(n)] else InBase(base, n / base) + [Digit(n % base)]
  }

  function Digit(v: int): byte
    requires 0 <= v < 16
  {
    "0123456789abcdef"[v] as int % 256
  }

  function BaseOf(r: Radix): (b: nat)
    ensures 2 <= b <= 16
  {
    match r case Octal => 8 case Decimal10 => 10 case Hexadecimal => 16
  }

  lemma DigitValue(v: int)
    requires 0 <= v < 16
    ensures HexValue(Digit(v)) == Some(v)
  {
    assert v == 0 || v == 1 || v == 2 || v == 3 || v == 4 || v == 5 || v == 6 || v == 7 || v == 8 || v == 9 || v == 10
        || v == 11 || v == 12 || v == 13 || v == 14 || v == 15;
  }

  lemma {:induction false} InBaseReads(r: Radix, n: nat)
    ensures DigitsOf(r, InBase(BaseOf(r), n)) && ValueOf(r, InBase(BaseOf(r), n)) == n
  {
    hide ValueOf, DigitsOf, Digit, Times;
    var b := BaseOf(r);
    if n < b {
      OneDigit(r, n);
    } else {
      Regrouped(r, n);
      InBaseReads(r, n / b);
      DigitAdded(r, InBase(b, n / b), n % b);
    }
  }

  lemma OneDigit(r: Radix, v: nat)
    requires v < BaseOf(r)
    ensures DigitsOf(r, [Digit(v)]) && ValueOf(r, [Digit(v)]) == v
  {
    hide Digit;
    DigitValue(v);
    assert [Digit(v)][..0] == [];
  }

  lemma DigitAdded(r: Radix, s: Bytes, v: nat)
    requires v < BaseOf(r) && DigitsOf(r, s)
    ensures DigitsOf(r, s + [Digit(v)]) && ValueOf(r, s + [Digit(v)]) == Times(r, ValueOf(r, s)) + v
  {
    hide Digit, HexValue, Times;
    DigitValue(v);
    assert (s + [Digit(v)])[..|s|] == s;
  }

  lemma Regrouped(r: Radix, n: nat)
    ensures Times(r, n / BaseOf(r)) + n % BaseOf(r) == n && 0 <= n % BaseOf(r) < BaseOf(r)
  {
  }

  /** Plain digits are decimal, a leading zero means octal, 0x means hexadecimal,
      and 2^40 is the last number there is. */
  lemma NumbersSpelled(n: nat)
    ensures var number := if n <= 1099511627776 then Some(n) else None;
            && NumberOf(InBase(10, n)) == number
            && NumberOf(Text("0") + InBase(8, n)) == number
            && NumberOf(Text("0x") + InBase(16, n)) == number
  {
    hide ValueOf, DigitsOf, InBase;
    InBaseReads(Decimal10, n);
    InBaseReads(Octal, n);
    InBaseReads(Hexadecimal, n);
    FirstDigit(n);
    OctalDigit(n);
    Behind(Text("0"), InBase(8, n));
    Behind(Text("0x"), InBase(16, n));
  }

  lemma Behind(a: Bytes, b: Bytes)
    ensures (a + b)[|a|..] == b && forall i :: 0 <= i < |a| ==> (a + b)[i] == a[i]
  {
  }

  lemma {:induction false} FirstDigit(n: nat)
    ensures var s := InBase(10, n); |s| >= 2 ==> s[0] != ZERO
  {
    if n >= 10 {
      FirstDigit(n / 10);
      if n < 100 { DigitValue(n / 10); }
    }
  }

  lemma OctalDigit(n: nat)
    ensures var s := InBase(8, n); s[0] != 0x78 && s[0] != 0x58
  {
    InBaseReads(Octal, n);
  }

  /** With a leading zero, 8 and 9 are no digits. */
  lemma NotOctal(s: Bytes, i: nat)
    requires AllDigits(s) && |s| >= 2 && s[0] == ZERO && i < |s| && s[i] >= 0x38
    ensures NumberOf(s) == None
  {
    assert s[1..][i - 1] == s[i];
  }

  // ---- addresses ----

  function Power256(n: nat): nat { if n == 0 then 1 else 256 * Power256(n - 1) }

  /** The parts before the last are the leading bytes. */
  function LeadingBytes(ns: seq<nat>, k: nat): nat
    requires k <= |ns| && k <= 3
  {
    if k == 0 then 0 else LeadingBytes(ns, k - 1) + ns[k - 1] * Power256(4 - k)
  }

  lemma Powers()
    ensures Power256(1) == 0x100 && Power256(2) == 0x10000 && Power256(3) == 0x1000000 && Power256(4) == 0x1_0000_0000
  {
    assert Power256(0) == 1;
  }

  lemma {:induction false} LeadingBytesAre(ns: seq<nat>, k: nat)
    requires k <= |ns| && k <= 3
    ensures LeadingBytes(ns, k) == Sum(ns, k)
  {
    Powers();
    if k > 0 { LeadingBytesAre(ns, k - 1); }
  }

  /** Dotted decimal numbers spell an address exactly when there are one to four
      of them, all but the last below 256 and the last within the bytes that
      remain. */
  lemma DottedNumbers(ns: seq<nat>)
    requires ns != [] && forall i :: 0 <= i < |ns| ==> ns[i] <= CAP
    ensures var k := |ns|;
            Address(Join(Texts(ns), DOT)) ==
            if k <= 4 && (forall i :: 0 <= i < k - 1 ==> ns[i] < 256) && ns[k - 1] < Power256(5 - k)
            then Some(LeadingBytes(ns, k - 1) + ns[k - 1]) else None
  {
    hide Texts, NumbersOf, Sum, LeadingBytes, Labels, Power256, InBounds, Free, Address, Join, AllDigits;
    var parts := Texts(ns);
    TextsAreNumbers(ns);
    PartsFree(parts);
    LabelsJoined(parts);
    AddressOfNumbers(Join(parts, DOT), ns);
    BoundsAre(ns);
    if |ns| <= 4 { LeadingBytesAre(ns, |ns| - 1); }
  }

  lemma AddressOfNumbers(host: Bytes, ns: seq<nat>)
    requires ns != [] && NumbersOf(Labels(host)) == Some(ns)
    ensures Address(host) == if InBounds(ns) then Some(ns[|ns| - 1] + Sum(ns, |ns| - 1)) else None
  {
    hide NumbersOf, Labels, Sum;
  }

  lemma BoundsAre(ns: seq<nat>)
    requires ns != []
    ensures var k := |ns|;
            InBounds(ns) <==> k <= 4 && (forall i :: 0 <= i < k - 1 ==> ns[i] < 256) && ns[k - 1] < Power256(5 - k)
  {
    hide Power256;
    Powers();
  }

  lemma PartsFree(parts: seq<Bytes>)
    requires forall i :: 0 <= i < |parts| ==> AllDigits(parts[i])
    ensures Free(parts, DOT)
  {
  }

  lemma LabelsJoined(parts: seq<Bytes>)
    requires parts != [] && Free(parts, DOT) && parts[|parts| - 1] != []
    ensures Labels(Join(parts, DOT)) == parts
  {
    hide Join, Split;
    SplitJoin(parts, DOT);
  }
}
