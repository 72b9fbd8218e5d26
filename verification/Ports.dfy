/** Port normalisation: the loop over digit texts, set against the port's
    number. */
module Ports {
  import opened Utf8
  import opened Wrappers
  import opened Numbers
  import opened NumberText

  const HTTP: Bytes := [0x68, 0x74, 0x74, 0x70]
  const HTTPS: Bytes := [0x68, 0x74, 0x74, 0x70, 0x73]
  const PORT_HTTP: Bytes := [0x38, 0x30]
  const PORT_HTTPS: Bytes := [0x34, 0x34, 0x33]

  function DefaultPort(scheme: Bytes): Bytes { if scheme == HTTPS then PORT_HTTPS else PORT_HTTP }

  /** A port by its number: no port when it is empty or the scheme's default,
      its decimal digits otherwise, and nothing above 65535. */
  function NormalPort(port: Bytes, scheme: Bytes): Option<Bytes> {
    if port == [] then Some([])
    else if !AllDigits(port) || NatOf(port) > 65535 then None
    else
      var t := DecimalText(NatOf(port));
      Some(if t == DefaultPort(scheme) then [] else t)
  }

  lemma {:induction false} NatOfPadded(s: Bytes)
    requires AllDigits(s) && s != [] && s[0] == ZERO
    ensures AllDigits(s[1..]) && NatOf(s[1..]) == NatOf(s)
  {
    var n := |s| - 1;
    if n > 0 {
      var front := s[..n];
      NatOfPadded(front);
      assert front[1..] == s[1..][..n - 1];
    }
  }

  /** Digits without a leading zero are the decimal text of their number. */
  lemma {:induction false} DecimalTextOf(s: Bytes)
    requires AllDigits(s) && s != [] && s[0] != ZERO
    ensures DecimalText(NatOf(s)) == s && NatOf(s) > 0
  {
    var n := |s| - 1;
    if n > 0 {
      DecimalTextOf(s[..n]);
      assert s == s[..n] + [s[n]];
    } else {
      assert s[..0] == [] && s == [s[0]];
    }
  }

  /** Byte-wise comparison of texts of one length. */
  predicate After(a: Bytes, b: Bytes) {
    a != [] && b != [] && (a[0] > b[0] || (a[0] == b[0] && After(a[1..], b[1..])))
  }

  lemma {:induction false} AfterIsGreater(a: Bytes, b: Bytes)
    requires AllDigits(a) && AllDigits(b) && |a| == |b|
    ensures After(a, b) <==> NatOf(a) > NatOf(b)
    decreases |a|
  {
    if a != [] {
      AfterIsGreater(a[1..], b[1..]);
      LeadingDigit(a);
      LeadingDigit(b);
      PowerGrows(a[0] - ZERO, b[0] - ZERO, |a| - 1);
    }
  }

  function Power(d: nat, n: nat): nat { if n == 0 then d else 10 * Power(d, n - 1) }

  /** A leading digit counts d x 10^n, which outweighs the n digits behind it. */
  lemma {:induction false} LeadingDigit(s: Bytes)
    requires AllDigits(s) && s != []
    ensures NatOf(s) == Power(s[0] - ZERO, |s| - 1) + NatOf(s[1..]) && NatOf(s[1..]) < Power(1, |s| - 1)
  {
    var n := |s| - 1;
    if n > 0 {
      LeadingDigit(s[..n]);
      assert s[..n][1..] == s[1..][..n - 1];
    }
  }

  lemma {:induction false} PowerGrows(a: nat, b: nat, n: nat)
    ensures a < b ==> Power(a, n) + Power(1, n) <= Power(b, n)
    ensures b < a ==> Power(b, n) + Power(1, n) <= Power(a, n)
  {
    if n > 0 { PowerGrows(a, b, n - 1); }
  }

  lemma {:induction false} LongIsLarge(s: Bytes)
    requires AllDigits(s) && |s| > 5 && s[0] != ZERO
    ensures NatOf(s) > 65535
  {
    LeadingDigit(s);
    PowerGrows(0, s[0] - ZERO, |s| - 1);
    PowerAtLeast(|s| - 1);
  }

  lemma {:induction false} PowerAtLeast(n: nat)
    requires n >= 5
    ensures Power(1, n) >= 100000
  {
    if n > 5 {
      PowerAtLeast(n - 1);
    } else {
      assert Power(1, 2) == 100 && Power(1, 3) == 1000;
    }
  }

  lemma ShortIsSmall(s: Bytes)
    requires AllDigits(s) && |s| < 5
    ensures NatOf(s) <= 65535
  {
    if s != [] {
      LeadingDigit(s);
      PowerGrows(s[0] - ZERO, 9, |s| - 1);
      PowerGrows(9, 10, |s| - 1);
      PowerTen(|s| - 1);
    }
  }

  lemma {:induction false} PowerTen(n: nat)
    requires n <= 3
    ensures Power(10, n) <= 10000
  {
    if n > 0 {
      assert Power(10, 1) == 100 && Power(10, 2) == 1000;
    }
  }

  method NormalizePort(port: Bytes, scheme: Bytes) returns (r: Option<Bytes>)
    ensures r == NormalPort(port, scheme)
  {
    hide NatOf, DecimalText, After;
    if port == [] {
      return Some([]);
    }
    if !AllDigits(port) {
      return None;
    }
    var trimmed := TrimZeros(port);
    if |trimmed| > 5 || (|trimmed| == 5 && After(trimmed, [0x36, 0x35, 0x35, 0x33, 0x35])) {
      Judge(trimmed);
      return None;
    }
    Judge(trimmed);
    if trimmed == DefaultPort(scheme) {
      return Some([]);
    }
    r := Some(trimmed);
  }

  method TrimZeros(port: Bytes) returns (trimmed: Bytes)
    requires port != [] && AllDigits(port)
    ensures AllDigits(trimmed) && trimmed != [] && (trimmed == [ZERO] || trimmed[0] != ZERO)
    ensures NatOf(trimmed) == NatOf(port)
    ensures trimmed == DecimalText(NatOf(port))
  {
    trimmed := port;
    while trimmed != [] && trimmed[0] == ZERO
      invariant AllDigits(trimmed) && NatOf(trimmed) == NatOf(port)
      decreases |trimmed|
    {
      NatOfPadded(trimmed);
      trimmed := trimmed[1..];
    }
    if trimmed == [] {
      trimmed := [ZERO];
      assert trimmed[..0] == [];
    } else {
      DecimalTextOf(trimmed);
    }
  }

  lemma Judge(t: Bytes)
    requires AllDigits(t) && t != [] && (t == [ZERO] || t[0] != ZERO)
    ensures |t| > 5 || (|t| == 5 && After(t, [0x36, 0x35, 0x35, 0x33, 0x35])) <==> NatOf(t) > 65535
  {
    hide After;
    var top: Bytes := [0x36, 0x35, 0x35, 0x33, 0x35];
    if |t| > 5 {
      LongIsLarge(t);
    } else if |t| == 5 {
      AfterIsGreater(t, top);
      Top();
    } else {
      ShortIsSmall(t);
    }
  }

  lemma Top()
    ensures NatOf([0x36, 0x35, 0x35, 0x33, 0x35]) == 65535
  {
    NatOfDecimalText(65535);
    assert DecimalText(6) == [0x36] && DecimalText(65) == [0x36, 0x35] && DecimalText(655) == [0x36, 0x35, 0x35];
    assert DecimalText(6553) == [0x36, 0x35, 0x35, 0x33];
    assert DecimalText(65535) == [0x36, 0x35, 0x35, 0x33, 0x35];
  }
}
