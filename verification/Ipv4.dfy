/** IPv4 hosts: numbers in three radices, one to four parts, and the dotted
    decimal every accepted spelling becomes. */
module Ipv4 {
  import opened Utf8
  import opened Wrappers
  import opened Strings
  import opened Splitting
  import opened Numbers
  import opened NumberText

  // ---- one number ----

  const CAP: nat := 0x100_0000_0000

  datatype Radix = Octal | Decimal10 | Hexadecimal

  function Size(r: Radix): nat {
    match r case Octal => 8 case Decimal10 => 10 case Hexadecimal => 16
  }

  function Times(r: Radix, n: nat): nat {
    match r case Octal => 8 * n case Decimal10 => 10 * n case Hexadecimal => 16 * n
  }

  predicate IsDigitOf(r: Radix, c: byte) { HexValue(c).Some? && HexValue(c).value < Size(r) }

  predicate DigitsOf(r: Radix, s: Bytes) { forall i :: 0 <= i < |s| ==> IsDigitOf(r, s[i]) }

  /** The value of digits in a radix, however large. */
  function ValueOf(r: Radix, s: Bytes): nat
    requires DigitsOf(r, s)
  {
    if s == [] then 0
    else
      var n := |s| - 1;
      assert forall i :: 0 <= i < n ==> s[..n][i] == s[i];
      Times(r, ValueOf(r, s[..n])) + HexValue(s[n]).value
  }

  predicate HexPrefixed(s: Bytes) { |s| >= 2 && s[0] == ZERO && (s[1] == 0x78 || s[1] == 0x58) }

  function RadixOf(s: Bytes): Radix {
    if HexPrefixed(s) then Hexadecimal else if |s| >= 2 && s[0] == ZERO then Octal else Decimal10
  }

  function DigitsIn(s: Bytes): Bytes {
    match RadixOf(s)
    case Hexadecimal => if |s| >= 2 then s[2..] else []
    case Octal => if |s| >= 1 then s[1..] else []
    case Decimal10 => s
  }

  /** A nonempty label read as a number: digits of its radix, at most 2^40. */
  function NumberOf(s: Bytes): Option<nat> {
    var r, ds := RadixOf(s), DigitsIn(s);
    if s != [] && DigitsOf(r, ds) && ValueOf(r, ds) <= CAP then Some(ValueOf(r, ds)) else None
  }

  lemma {:induction false} ValueOfPrefix(r: Radix, s: Bytes, k: nat)
    requires DigitsOf(r, s) && k <= |s|
    ensures DigitsOf(r, s[..k]) && ValueOf(r, s[..k]) <= ValueOf(r, s)
    decreases |s| - k
  {
    assert forall i :: 0 <= i < k ==> s[..k][i] == s[i];
    if k == |s| {
      assert s[..k] == s;
    } else {
      ValueOfPrefix(r, s, k + 1);
      assert s[..k + 1][..k] == s[..k];
    }
  }

  lemma ValueOfNext(r: Radix, s: Bytes, i: nat)
    requires i < |s| && DigitsOf(r, s[..i]) && IsDigitOf(r, s[i])
    ensures DigitsOf(r, s[..i + 1])
    ensures ValueOf(r, s[..i + 1]) == Times(r, ValueOf(r, s[..i])) + HexValue(s[i]).value
  {
    hide IsDigitOf, Times;
    assert s[..i + 1] == s[..i] + [s[i]];
    assert s[..i + 1][..i] == s[..i];
  }

  /** The loop, with the early refusals; the accumulator never leaves 64 bits. */
  method ParseIpv4Number(text: Bytes) returns (r: Option<nat>)
    ensures r == NumberOf(text)
  {
    hide HexValue, ValueOf, RadixOf, DigitsIn;
    if text == [] {
      return None;
    }
    var radix, s := RadixOf(text), DigitsIn(text);
    var n: nat := 0;
    ValueOfNothing(radix);
    assert s[..0] == [];
    var i := 0;
    while i < |s|
      invariant 0 <= i <= |s| && DigitsOf(radix, s[..i]) && n == ValueOf(radix, s[..i]) && n <= CAP
    {
      var d := HexValue(s[i]);
      if d.None? || d.value >= Size(radix) {
        assert !IsDigitOf(radix, s[i]);
        return None;
      }
      ValueOfNext(radix, s, i);
      n := Times(radix, n) + d.value;
      assert n < 0x1_0000_0000_0000_0000;
      if n > CAP {
        if DigitsOf(radix, s) { ValueOfPrefix(radix, s, i + 1); }
        return None;
      }
      i := i + 1;
    }
    assert s[..i] == s;
    r := Some(n);
  }

  lemma ValueOfNothing(r: Radix)
    ensures ValueOf(r, []) == 0
  {
  }

  // ---- parts ----

  /** The labels of a host; one trailing dot is not a label. */
  function Labels(host: Bytes): (parts: seq<Bytes>)
    ensures |parts| >= 1
  {
    var parts := Split(host, DOT);
    var n := |parts|;
    if n > 1 && parts[n - 1] == [] then parts[..n - 1] else parts
  }

  function NumbersOf(parts: seq<Bytes>): (r: Option<seq<nat>>)
    ensures r.Some? ==> |r.value| == |parts|
  {
    if parts == [] then Some([])
    else
      var n := |parts| - 1;
      var front :- NumbersOf(parts[..n]);
      var last :- NumberOf(parts[n]);
      Some(front + [last])
  }

  /** What the part at position i counts for. */
  function Weight(i: nat): nat {
    if i == 0 then 0x1000000 else if i == 1 then 0x10000 else if i == 2 then 0x100 else 1
  }

  /** The last of k parts fills the bytes the others leave. */
  function LastLimit(k: nat): nat {
    if k == 1 then 0x1_0000_0000 else if k == 2 then 0x1000000 else if k == 3 then 0x10000 else 0x100
  }

  predicate InBounds(numbers: seq<nat>) {
    && 1 <= |numbers| <= 4 && numbers[|numbers| - 1] < LastLimit(|numbers|)
    && forall i :: 0 <= i < |numbers| - 1 ==> numbers[i] <= 255
  }

  function Weighted(i: nat, n: nat): nat {
    if i == 0 then 0x1000000 * n else if i == 1 then 0x10000 * n else if i == 2 then 0x100 * n else n
  }

  function Sum(numbers: seq<nat>, k: nat): nat
    requires k <= |numbers|
  {
    if k == 0 then 0 else Sum(numbers, k - 1) + Weighted(k - 1, numbers[k - 1])
  }

  /** The 32-bit address a host spells. */
  function Address(host: Bytes): Option<nat> {
    var parts := Labels(host);
    if |parts| > 4 then None
    else
      var numbers :- NumbersOf(parts);
      if InBounds(numbers) then Some(numbers[|numbers| - 1] + Sum(numbers, |numbers| - 1)) else None
  }

  /** Every part but the last is one byte of the address, and the last part is
      the bytes that remain. */
  lemma AddressBytes(numbers: seq<nat>)
    requires InBounds(numbers)
    ensures var k := |numbers|; var v := numbers[k - 1] + Sum(numbers, k - 1);
            && v < 0x1_0000_0000 && v % LastLimit(k) == numbers[k - 1]
            && forall i :: 0 <= i < k - 1 ==> (v / Weight(i)) % 256 == numbers[i]
  {
    var k := |numbers|;
    var last := numbers[k - 1];
    if k == 2 {
      TwoParts(numbers[0], last);
      assert Sum(numbers, 1) == 0x1000000 * numbers[0];
    } else if k == 3 {
      ThreeParts(numbers[0], numbers[1], last);
      SumOfTwo(numbers);
    } else if k == 4 {
      FourParts(numbers[0], numbers[1], numbers[2], last);
      SumOfThree(numbers);
    }
  }

  lemma SumOfTwo(n: seq<nat>)
    requires |n| >= 2
    ensures Sum(n, 2) == 0x1000000 * n[0] + 0x10000 * n[1]
  {
    assert Sum(n, 1) == 0x1000000 * n[0];
  }

  lemma SumOfThree(n: seq<nat>)
    requires |n| >= 3
    ensures Sum(n, 3) == 0x1000000 * n[0] + 0x10000 * n[1] + 0x100 * n[2]
  {
    SumOfTwo(n);
  }

  lemma TwoParts(a: nat, last: nat)
    requires a <= 255 && last < 0x1000000
    ensures var v := last + 0x1000000 * a;
            v < 0x1_0000_0000 && v % 0x1000000 == last && v / 0x1000000 % 256 == a
  {
  }

  lemma ThreeParts(a: nat, b: nat, last: nat)
    requires a <= 255 && b <= 255 && last < 0x10000
    ensures var v := last + (0x1000000 * a + 0x10000 * b);
            v < 0x1_0000_0000 && v % 0x10000 == last && v / 0x1000000 % 256 == a && v / 0x10000 % 256 == b
  {
    TwoParts(a, last + 0x10000 * b);
  }

  lemma FourParts(a: nat, b: nat, c: nat, last: nat)
    requires a <= 255 && b <= 255 && c <= 255 && last < 0x100
    ensures var v := last + (0x1000000 * a + 0x10000 * b + 0x100 * c);
            && v < 0x1_0000_0000 && v % 0x100 == last && v / 0x1000000 % 256 == a && v / 0x10000 % 256 == b
            && v / 0x100 % 256 == c
  {
    ThreeParts(a, b, last + 0x100 * c);
  }

  /** The four bytes of an address. */
  function BytesOf(v: nat): seq<nat> {
    [v / 0x1000000 % 256, v / 0x10000 % 256, v / 0x100 % 256, v % 256]
  }

  function Texts(numbers: seq<nat>): (parts: seq<Bytes>)
    ensures |parts| == |numbers|
  {
    if numbers == [] then [] else Texts(numbers[..|numbers| - 1]) + [DecimalText(numbers[|numbers| - 1])]
  }

  /** The canonical spelling of an address. */
  function Dotted(v: nat): Bytes { Join(Texts(BytesOf(v)), DOT) }

  method ParseIpv4Host(host: Bytes) returns (r: Option<Bytes>)
    ensures r == if Address(host).None? then None else Some(Dotted(Address(host).value))
  {
    hide Dotted, Labels, NumbersOf, Sum, LastLimit;
    var parts := Labels(host);
    if |parts| > 4 {
      return None;
    }
    var parsed := ParseNumbers(parts);
    if parsed.None? {
      return None;
    }
    var ipv4 := Combine(parsed.value);
    if ipv4.None? {
      return None;
    }
    r := Some(Dotted(ipv4.value));
  }

  method Combine(numbers: seq<nat>) returns (r: Option<nat>)
    requires 1 <= |numbers| <= 4
    ensures r.Some? <==> InBounds(numbers)
    ensures r.Some? ==> r.value == numbers[|numbers| - 1] + Sum(numbers, |numbers| - 1)
  {
    hide Weighted;
    var k := |numbers|;
    for i := 0 to k - 1
      invariant forall j :: 0 <= j < i ==> numbers[j] <= 255
    {
      if numbers[i] > 255 {
        return None;
      }
    }
    if numbers[k - 1] >= LastLimit(k) {
      return None;
    }
    var ipv4 := numbers[k - 1];
    for i := 0 to k - 1
      invariant ipv4 == numbers[k - 1] + Sum(numbers, i)
    {
      ipv4 := ipv4 + Weighted(i, numbers[i]);
    }
    r := Some(ipv4);
  }

  method ParseNumbers(parts: seq<Bytes>) returns (r: Option<seq<nat>>)
    ensures r == NumbersOf(parts)
  {
    var numbers: seq<nat> := [];
    assert parts[..0] == [];
    for i := 0 to |parts|
      invariant NumbersOf(parts[..i]) == Some(numbers)
    {
      var n := ParseIpv4Number(parts[i]);
      assert parts[..i + 1][..i] == parts[..i];
      if n.None? {
        NumbersOfPrefix(parts, i + 1);
        return None;
      }
      numbers := numbers + [n.value];
    }
    assert parts[..|parts|] == parts;
    r := Some(numbers);
  }

  lemma {:induction false} NumbersOfPrefix(parts: seq<Bytes>, k: nat)
    requires k <= |parts| && NumbersOf(parts[..k]).None?
    ensures NumbersOf(parts).None?
    decreases |parts|
  {
    if k < |parts| {
      var front := parts[..|parts| - 1];
      assert front[..k] == parts[..k];
      NumbersOfPrefix(front, k);
    } else {
      assert parts[..k] == parts;
    }
  }

  // ---- the canonical spelling is its own ----

  lemma {:induction false} DecimalDigits(n: nat)
    ensures DigitsOf(Decimal10, DecimalText(n)) && ValueOf(Decimal10, DecimalText(n)) == n
  {
    var s := DecimalText(n);
    if n >= 10 {
      DecimalDigits(n / 10);
      assert s[..|s| - 1] == DecimalText(n / 10);
    }
  }

  lemma {:induction false} DecimalLead(n: nat)
    ensures |DecimalText(n)| >= 2 ==> DecimalText(n)[0] != ZERO
  {
    if n >= 10 { DecimalLead(n / 10); }
  }

  lemma DecimalNumber(n: nat)
    requires n <= CAP
    ensures NumberOf(DecimalText(n)) == Some(n)
  {
    DecimalDigits(n);
    DecimalLead(n);
  }

  lemma {:induction false} TextsAreNumbers(numbers: seq<nat>)
    requires forall i :: 0 <= i < |numbers| ==> numbers[i] <= CAP
    ensures NumbersOf(Texts(numbers)) == Some(numbers)
    ensures forall i :: 0 <= i < |numbers| ==> Texts(numbers)[i] != [] && AllDigits(Texts(numbers)[i])
  {
    hide DecimalText, NumberOf, AllDigits;
    if numbers != [] {
      var n := |numbers| - 1;
      TextsAreNumbers(numbers[..n]);
      DecimalNumber(numbers[n]);
      assert Texts(numbers)[..n] == Texts(numbers[..n]);
      assert numbers == numbers[..n] + [numbers[n]];
    }
  }

  lemma DottedLabels(v: nat)
    ensures Labels(Dotted(v)) == Texts(BytesOf(v)) && NumbersOf(Texts(BytesOf(v))) == Some(BytesOf(v))
    ensures AllDigits(Texts(BytesOf(v))[3]) && Texts(BytesOf(v))[3] != []
  {
    hide Texts, NumbersOf;
    TextsAreNumbers(BytesOf(v));
    var parts := Texts(BytesOf(v));
    assert Free(parts, DOT);
    SplitJoin(parts, DOT);
  }

  /** Dotted decimal spells its own address, so distinct addresses have distinct
      spellings. */
  lemma DottedAddress(v: nat)
    requires v < 0x1_0000_0000
    ensures Address(Dotted(v)) == Some(v)
  {
    hide Dotted, NumbersOf, Labels, Sum;
    DottedLabels(v);
    SumOfThree(BytesOf(v));
    Recomposed(v);
  }

  lemma Recomposed(v: nat)
    requires v < 0x1_0000_0000
    ensures v % 256 + (0x1000000 * (v / 0x1000000 % 256) + 0x10000 * (v / 0x10000 % 256) + 0x100 * (v / 0x100 % 256)) == v
  {
    DivTwice(v);
    DivTwice(v / 0x100);
    assert v / 0x1000000 == v / 0x100 / 0x10000;
    var a := v / 0x100;
    var b := a / 0x100;
    assert v == 0x100 * a + v % 256 && a == 0x100 * b + a % 256 && b == 0x100 * (b / 0x100) + b % 256;
    assert b / 0x100 < 256;
  }

  lemma DivTwice(v: nat)
    ensures v / 0x10000 == v / 0x100 / 0x100
  {
  }

  /** Every accepted spelling normalises to the one dotted decimal of its
      address. */
  lemma OneSpelling(a: Bytes, b: Bytes)
    requires Address(a).Some? && Address(b).Some?
    ensures Dotted(Address(a).value) == Dotted(Address(b).value) <==> Address(a) == Address(b)
    ensures Address(Dotted(Address(a).value)) == Address(a)
  {
    hide Dotted, Labels, NumbersOf;
    AddressBytes(NumbersOf(Labels(a)).value);
    AddressBytes(NumbersOf(Labels(b)).value);
    DottedAddress(Address(a).value);
    DottedAddress(Address(b).value);
  }

  function LastLabel(host: Bytes): Bytes {
    var parts := Labels(host);
    parts[|parts| - 1]
  }

  /** The last label decides whether a host is an address. */
  predicate EndsInNumber(host: Bytes) {
    var last := LastLabel(host);
    (last != [] && AllDigits(last)) || NumberOf(last).Some?
  }

  lemma DottedEndsInNumber(v: nat)
    ensures EndsInNumber(Dotted(v))
  {
    hide Dotted, Labels, Texts, NumberOf;
    DottedLabels(v);
  }

  // ---- the cap ----

  predicate IsHexNumber(text: Bytes) { HexPrefixed(text) && DigitsOf(Hexadecimal, text[2..]) }

  /** A hexadecimal number above 2^40. */
  predicate IsLargeHex(text: Bytes) { IsHexNumber(text) && ValueOf(Hexadecimal, text[2..]) > CAP }

  /** The test without the cap: all digits, or digits of the text's radix. */
  predicate IsNumberShaped(text: Bytes) { text != [] && (AllDigits(text) || DigitsOf(RadixOf(text), DigitsIn(text))) }

  lemma RadixDigits(text: Bytes)
    requires text != [] && DigitsOf(RadixOf(text), DigitsIn(text))
    ensures AllDigits(text) || IsHexNumber(text)
  {
    if RadixOf(text) == Octal { assert text == [ZERO] + DigitsIn(text); }
  }

  /** The cap changes the answer exactly on large hexadecimal last labels. */
  lemma CapExactly(host: Bytes)
    ensures (EndsInNumber(host) <==> IsNumberShaped(LastLabel(host))) <==> !IsLargeHex(LastLabel(host))
  {
    hide Labels, ValueOf;
    var last := LastLabel(host);
    if last != [] && DigitsOf(RadixOf(last), DigitsIn(last)) { RadixDigits(last); }
    if HexPrefixed(last) { assert !IsDigit(last[1]); }
  }
}
