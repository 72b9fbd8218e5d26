/** Host and port normalisation: the serialization of every accepted spelling
    of an authority. */
module Hosts {
  import opened Utf8
  import opened Wrappers
  import opened Strings
  import opened Splitting
  import opened Segments
  import opened Numbers
  import opened NumberText
  import opened Ipv4
  import opened Ipv6

  /** The library's IPv6 address parser, on text without a zone. */
  type AddressParser = Bytes -> Option<Pieces6>

  predicate IsForbiddenDomain(c: byte) {
    c <= 0x20 || c == 0x7F || c == 0x23 || c == 0x25 || c == 0x2F || c == 0x3A || c == 0x3C || c == 0x3E || c == 0x3F
    || c == 0x40 || c == 0x5B || c == 0x5C || c == 0x5D || c == 0x5E || c == 0x7C
  }

  function LowerByte(c: byte): byte { if 0x41 <= c <= 0x5A then c + 0x20 else c }

  function Lower(s: Bytes): (r: Bytes)
    ensures |r| == |s| && forall i :: 0 <= i < |s| ==> r[i] == LowerByte(s[i])
  {
    seq(|s|, i requires 0 <= i < |s| => LowerByte(s[i]))
  }

  predicate IsDomainByte(c: byte) { c < 0x80 && !IsForbiddenDomain(c) }

  /** Bytes of a registered name's label. */
  predicate IsLabelByte(c: byte) { 0x61 <= c <= 0x7A || IsDigit(c) || c == 0x2D || c == 0x5F }

  predicate IsLabel(s: Bytes) { s != [] && forall i :: 0 <= i < |s| ==> IsLabelByte(s[i]) }

  predicate RegisteredName(s: Bytes) { forall i :: 0 <= i < |Labels(s)| ==> IsLabel(Labels(s)[i]) }

  function BracketedHost(parse: AddressParser, inner: Bytes): Option<Bytes> {
    var address :- parse(inner);
    Some([LBRACKET] + Serialized(address) + [RBRACKET])
  }

  function NamedHost(s: Bytes): Option<Bytes> {
    if EndsInNumber(s) then
      var v :- Address(s);
      Some(Dotted(v))
    else if RegisteredName(s) then Some(s)
    else None
  }

  /** The serialization of a host as the splitter cuts it out. */
  function NormalHost(parse: AddressParser, raw: Bytes): Option<Bytes> {
    if raw == [] then None
    else if raw[0] == LBRACKET then
      if |raw| < 2 then None else BracketedHost(parse, raw[1..|raw| - 1])
    else
      var decoded :- DecodeSegment(raw);
      if forall i :: 0 <= i < |decoded| ==> IsDomainByte(decoded[i]) then NamedHost(Lower(decoded)) else None
  }

  method NormalizeHost(parse: AddressParser, raw: Bytes) returns (r: Option<Bytes>)
    ensures r == NormalHost(parse, raw)
  {
    if raw == [] {
      return None;
    }
    if raw[0] == LBRACKET {
      if |raw| < 2 {
        return None;
      }
      var address := parse(raw[1..|raw| - 1]);
      if address.None? {
        return None;
      }
      var text := SerializeIpv6(address.value);
      return Some([LBRACKET] + text + [RBRACKET]);
    }
    var decoded := DecodeSegmentOf(raw);
    if decoded.None? {
      return None;
    }
    var host := LowerDomain(decoded.value);
    if host.None? {
      return None;
    }
    r := SerializeName(host.value);
  }

  /** The loop over the decoded bytes. */
  method LowerDomain(decoded: Bytes) returns (r: Option<Bytes>)
    ensures r == if forall i :: 0 <= i < |decoded| ==> IsDomainByte(decoded[i]) then Some(Lower(decoded)) else None
  {
    hide IsForbiddenDomain;
    var host: Bytes := [];
    for i := 0 to |decoded|
      invariant |host| == i && forall j :: 0 <= j < i ==> IsDomainByte(decoded[j]) && host[j] == LowerByte(decoded[j])
    {
      if decoded[i] >= 0x80 || IsForbiddenDomain(decoded[i]) {
        assert !IsDomainByte(decoded[i]);
        return None;
      }
      host := host + [LowerByte(decoded[i])];
    }
    assert host == Lower(decoded);
    r := Some(host);
  }

  method SerializeName(s: Bytes) returns (r: Option<Bytes>)
    ensures r == NamedHost(s)
  {
    hide EndsInNumber, Address, Dotted, Labels, IsLabel;
    if EndsInNumber(s) {
      r := ParseIpv4Host(s);
      return;
    }
    var labels := Labels(s);
    for i := 0 to |labels|
      invariant forall j :: 0 <= j < i ==> IsLabel(labels[j])
    {
      var good := CheckLabel(labels[i]);
      if !good {
        return None;
      }
    }
    r := Some(s);
  }

  method CheckLabel(text: Bytes) returns (good: bool)
    ensures good == IsLabel(text)
  {
    if text == [] {
      return false;
    }
    for i := 0 to |text|
      invariant forall j :: 0 <= j < i ==> IsLabelByte(text[j])
    {
      if !IsLabelByte(text[i]) {
        return false;
      }
    }
    good := true;
  }

  // ---- what a serialization looks like ----

  /** Bytes of a host that is not bracketed. */
  predicate IsNameByte(c: byte) { IsLabelByte(c) || c == DOT }

  predicate NameText(s: Bytes) { forall i :: 0 <= i < |s| ==> IsNameByte(s[i]) }

  predicate AddressText(s: Bytes) { forall i :: 0 <= i < |s| ==> IsHexOrColon(s[i]) }

  /** A serialized host: a bracketed address or a name. */
  predicate HostText(h: Bytes) {
    || (h != [] && NameText(h))
    || (|h| >= 2 && h[0] == LBRACKET && h[|h| - 1] == RBRACKET && AddressText(h[1..|h| - 1]))
  }

  lemma {:induction false} JoinName(parts: seq<Bytes>)
    requires forall i :: 0 <= i < |parts| ==> NameText(parts[i])
    ensures NameText(Join(parts, DOT))
  {
    if |parts| > 1 { JoinName(parts[1..]); }
  }

  lemma RegisteredText(s: Bytes)
    requires RegisteredName(s)
    ensures s != [] && NameText(s)
  {
    hide NameText, Split, IsLabel;
    var parts := Split(s, DOT);
    assert IsLabel(Labels(s)[0]) && parts[0] == Labels(s)[0];
    forall i | 0 <= i < |parts| ensures NameText(parts[i]) {
      if i < |Labels(s)| {
        assert IsLabel(Labels(s)[i]) && parts[i] == Labels(s)[i];
        LabelIsName(parts[i]);
      } else {
        NothingIsName();
      }
    }
    JoinName(parts);
    JoinSplit(s, DOT);
    LabelFills(s);
  }

  lemma LabelIsName(t: Bytes)
    requires IsLabel(t)
    ensures NameText(t)
  {
  }

  lemma NothingIsName()
    ensures NameText([])
  {
  }

  lemma LabelFills(s: Bytes)
    requires IsLabel(Split(s, DOT)[0])
    ensures s != []
  {
  }

  lemma {:induction false} TextsName(numbers: seq<nat>)
    ensures forall i :: 0 <= i < |numbers| ==> NameText(Texts(numbers)[i])
  {
    hide DecimalText;
    if numbers != [] {
      var n := |numbers| - 1;
      TextsName(numbers[..n]);
      assert NameText(DecimalText(numbers[n]));
    }
  }

  lemma DottedText(v: nat)
    ensures Dotted(v) != [] && NameText(Dotted(v))
  {
    hide Texts;
    TextsName(BytesOf(v));
    JoinName(Texts(BytesOf(v)));
  }

  lemma NamedHostText(s: Bytes)
    requires NamedHost(s).Some?
    ensures NamedHost(s).value != [] && NameText(NamedHost(s).value)
  {
    hide Address, Dotted, EndsInNumber, RegisteredName, NameText;
    if EndsInNumber(s) {
      DottedText(Address(s).value);
    } else {
      RegisteredText(s);
    }
  }

  lemma BracketedText(parse: AddressParser, inner: Bytes)
    requires BracketedHost(parse, inner).Some?
    ensures HostText(BracketedHost(parse, inner).value)
  {
    hide Serialized, IsHexOrColon;
    var text := Serialized(parse(inner).value);
    SerializedBytes(parse(inner).value);
    var h := [LBRACKET] + text + [RBRACKET];
    assert h[1..|h| - 1] == text;
  }

  lemma NormalHostText(parse: AddressParser, raw: Bytes)
    requires NormalHost(parse, raw).Some?
    ensures HostText(NormalHost(parse, raw).value)
  {
    hide BracketedHost, NamedHost, NameText;
    if raw[0] == LBRACKET {
      BracketedText(parse, raw[1..|raw| - 1]);
    } else {
      NamedHostText(Lower(DecodeSegment(raw).value));
    }
  }

  // ---- a serialization is its own ----

  lemma {:induction false} NameDecodes(s: Bytes)
    requires NameText(s)
    ensures DecodeSegment(s) == Some(s)
  {
    if s != [] {
      NameDecodes(s[1..]);
      assert s == [s[0]] + s[1..];
    }
  }

  lemma NameNormal(parse: AddressParser, s: Bytes)
    requires s != [] && NameText(s)
    ensures NormalHost(parse, s) == NamedHost(s)
  {
    hide NamedHost;
    NameDecodes(s);
    assert Lower(s) == s;
  }

  lemma NamedAgain(s: Bytes)
    requires NamedHost(s).Some?
    ensures NamedHost(NamedHost(s).value) == NamedHost(s)
  {
    hide Dotted, EndsInNumber, RegisteredName, Address;
    if EndsInNumber(s) {
      AddressInRange(s);
      DottedAddress(Address(s).value);
      DottedEndsInNumber(Address(s).value);
    }
  }

  lemma AddressInRange(s: Bytes)
    requires Address(s).Some?
    ensures Address(s).value < 0x1_0000_0000
  {
    hide Labels, NumbersOf, Sum;
    AddressBytes(NumbersOf(Labels(s)).value);
  }

  /** The parser reads every serialized address back. */
  ghost predicate Inverts(parse: AddressParser) {
    forall p: Pieces6 :: parse(Serialized(p)) == Some(p)
  }

  /** Reading a serialized address as it was written is such a parser. */
  function ReadAddress(text: Bytes): Option<Pieces6> {
    var p := ReadBack(text);
    if IsPieces(p) then Some(p) else None
  }

  lemma ReadAddressInverts()
    ensures Inverts(ReadAddress)
  {
    hide ReadBack, Compression, Text6;
    forall p: Pieces6 ensures ReadAddress(Serialized(p)) == Some(p) { TextReadsBack(p, Compression(p)); }
  }

  /** A normalised host normalises to itself. Names and IPv4 hosts need nothing
      of the address parser. */
  lemma NormalHostAgain(parse: AddressParser, raw: Bytes)
    requires NormalHost(parse, raw).Some? && (raw[0] == LBRACKET ==> Inverts(parse))
    ensures NormalHost(parse, NormalHost(parse, raw).value) == NormalHost(parse, raw)
  {
    hide NamedHost, Serialized, NameText;
    if raw[0] == LBRACKET {
      var p := parse(raw[1..|raw| - 1]).value;
      var h := [LBRACKET] + Serialized(p) + [RBRACKET];
      assert h[1..|h| - 1] == Serialized(p);
    } else {
      var s := Lower(DecodeSegment(raw).value);
      NamedHostText(s);
      NameNormal(parse, NamedHost(s).value);
      NamedAgain(s);
    }
  }

  // ---- numbers too large to be numbers ----

  /** A host that ends in a hexadecimal number is kept as it is exactly when
      that number exceeds 2^40 and the host is a registered name. Above 2^40 it
      is kept or refused; up to 2^40 it is an address or refused. */
  lemma LargeHexIsName(host: Bytes)
    requires IsHexNumber(LastLabel(host))
    ensures NamedHost(host) == Some(host) <==> IsLargeHex(LastLabel(host)) && RegisteredName(host)
    ensures IsLargeHex(LastLabel(host)) ==> NamedHost(host) == if RegisteredName(host) then Some(host) else None
    ensures !IsLargeHex(LastLabel(host)) ==>
              NamedHost(host) == if Address(host).Some? then Some(Dotted(Address(host).value)) else None
  {
    hide Labels, ValueOf, Address, Dotted, RegisteredName;
    assert !IsDigit(LastLabel(host)[1]);
    if Address(host).Some? { DottedLast(Address(host).value); }
  }

  /** Dotted decimal ends in a decimal number. */
  lemma DottedLast(v: nat)
    ensures AllDigits(LastLabel(Dotted(v)))
  {
    hide Dotted, Texts, AllDigits, Labels;
    DottedLabels(v);
  }

  /** 0x and hexadecimal digits. */
  function HexLabel(digits: Bytes): Bytes { [ZERO, 0x78] + digits }

  predicate IsLowerHexDigits(s: Bytes) { forall i :: 0 <= i < |s| ==> IsLowerHexByte(s[i]) }

  lemma HexLabelReads(digits: Bytes)
    requires IsLowerHexDigits(digits)
    ensures HexLabel(digits)[2..] == digits && IsHexNumber(HexLabel(digits))
    ensures IsLabel(HexLabel(digits)) && DOT !in HexLabel(digits)
  {
    var s := HexLabel(digits);
    assert s[2..] == digits;
  }

  /** The labels of a name without dots, of one after another label, and of one
      before a trailing dot. */
  lemma LabelsOfName(t: Bytes)
    requires DOT !in t && t != []
    ensures Labels(t) == [t] && Labels([0x61] + ([DOT] + t)) == [[0x61], t] && Labels(t + ([DOT] + [])) == [t]
  {
    SplitOne(t, DOT);
    SplitFirst([0x61], DOT, t);
    SplitFirst(t, DOT, []);
    SplitOne([], DOT);
  }

  /** 0x10000000001, one above 2^40, is no number: alone, behind another label
      and before a trailing dot it is kept as a name. */
  lemma LargeHexExample()
    ensures var t := HexLabel([0x31, 0x30, 0x30, 0x30, 0x30, 0x30, 0x30, 0x30, 0x30, 0x30, 0x31]);
            && NumberOf(t) == None && NamedHost(t) == Some(t)
            && NamedHost([0x61] + ([DOT] + t)) == Some([0x61] + ([DOT] + t))
            && NamedHost(t + ([DOT] + [])) == Some(t + ([DOT] + []))
  {
    hide NamedHost, ValueOf, Labels, IsLabel;
    var digits: Bytes := [0x31, 0x30, 0x30, 0x30, 0x30, 0x30, 0x30, 0x30, 0x30, 0x30, 0x31];
    var t := HexLabel(digits);
    OneAbove(digits);
    HexLabelReads(digits);
    LabelsOfName(t);
    ShortLabel();
    LargeHexIsName(t);
    LargeHexIsName([0x61] + ([DOT] + t));
    LargeHexIsName(t + ([DOT] + []));
  }

  lemma ShortLabel()
    ensures IsLabel([0x61])
  {
  }

  lemma OneAbove(digits: Bytes)
    requires digits == [0x31, 0x30, 0x30, 0x30, 0x30, 0x30, 0x30, 0x30, 0x30, 0x30, 0x31]
    ensures DigitsOf(Hexadecimal, digits) && ValueOf(Hexadecimal, digits) == CAP + 1
  {
    assert DigitsOf(Hexadecimal, digits);
    assert digits[..0] == [];
    ValueOfNothing(Hexadecimal);
    ghost var n: nat := 0;
    for i := 0 to 11
      invariant n == if i == 0 then 0 else if i == 11 then CAP + 1 else PowerOf16(i - 1)
      invariant DigitsOf(Hexadecimal, digits[..i]) && ValueOf(Hexadecimal, digits[..i]) == n
    {
      ValueOfNext(Hexadecimal, digits, i);
      n := 16 * n + HexValue(digits[i]).value;
      if i == 10 { SixteenToTen(); }
    }
    assert digits[..11] == digits;
  }

  function PowerOf16(n: nat): nat { if n == 0 then 1 else 16 * PowerOf16(n - 1) }

  lemma SixteenToTen()
    ensures 16 * PowerOf16(9) == CAP
  {
    assert PowerOf16(3) == 0x1000;
    assert PowerOf16(6) == 0x1000000;
  }
}
