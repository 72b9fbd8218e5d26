/** Writing an IPv6 address: which run of zeros is left out, the text around it,
    and why the text still determines the address. */
module Ipv6 {
  import opened Utf8
  import opened Strings
  import opened Seqs
  import opened Splitting

  /** Eight numbers of 16 bits. */
  predicate IsPieces(p: seq<nat>) { |p| == 8 && forall i :: 0 <= i < 8 ==> p[i] < 0x10000 }

  type Pieces6 = p: seq<nat> | IsPieces(p) witness [0, 0, 0, 0, 0, 0, 0, 0]

  // ---- the run to compress ----

  /** The n pieces from i on are zero. */
  predicate ZeroRun(p: seq<nat>, i: nat, n: nat) {
    i + n <= |p| && forall j :: i <= j < i + n ==> p[j] == 0
  }

  /** Of the runs of at least two zeros none is longer than this one, and none
      as long begins earlier. */
  ghost predicate FirstLongest(p: seq<nat>, start: nat, length: nat) {
    && length >= 2 && ZeroRun(p, start, length)
    && forall i: nat, n: nat :: ZeroRun(p, i, n) ==> n <= length && (n == length ==> start <= i)
  }

  ghost predicate NoRun(p: seq<nat>) { forall i: nat :: !ZeroRun(p, i, 2) }

  datatype Run = Nowhere | At(start: nat, length: nat)

  ghost predicate IsCompression(p: seq<nat>, run: Run) {
    match run
    case Nowhere => NoRun(p)
    case At(start, length) => FirstLongest(p, start, length)
  }

  /** Every run that begins before i is accounted for. */
  ghost predicate BestBefore(p: seq<nat>, limit: nat, run: Run) {
    match run
    case Nowhere => forall i: nat, n: nat :: i < limit && ZeroRun(p, i, n) ==> n < 2
    case At(start, length) =>
      && length >= 2 && ZeroRun(p, start, length) && start < limit
      && forall i: nat, n: nat :: i < limit && ZeroRun(p, i, n) ==> n <= length && (n == length ==> start <= i)
  }

  lemma RunsEnd(p: seq<nat>, from: nat, end: nat, i: nat, n: nat)
    requires from <= i < end <= |p| && ZeroRun(p, from, end - from) && (end < |p| ==> p[end] != 0)
    requires ZeroRun(p, i, n)
    ensures i + n <= end
  {
  }

  /** The scan for the run, jumping over each run it meets. */
  method FindRun(p: Pieces6) returns (run: Run)
    ensures IsCompression(p, run)
  {
    run := Nowhere;
    var longest := 1;
    var i := 0;
    while i < |p|
      invariant 0 <= i <= |p| && BestBefore(p, i, run)
      invariant longest == if run.Nowhere? then 1 else run.length
      decreases |p| - i
    {
      if p[i] != 0 {
        assert forall n: nat :: ZeroRun(p, i, n) ==> n == 0;
        i := i + 1;
      } else {
        var j := i;
        while j < |p| && p[j] == 0
          invariant i <= j <= |p| && ZeroRun(p, i, j - i)
        {
          j := j + 1;
        }
        assert forall k: nat, n: nat :: i <= k < j && ZeroRun(p, k, n) ==> k + n <= j by {
          forall k: nat, n: nat | i <= k < j && ZeroRun(p, k, n)
            ensures k + n <= j
          {
            RunsEnd(p, i, j, k, n);
          }
        }
        if j - i > longest {
          run, longest := At(i, j - i), j - i;
        }
        i := j;
      }
    }
    assert forall k: nat, n: nat :: ZeroRun(p, k, n) && k >= |p| ==> n == 0;
  }

  /** How far the zeros from i on reach. */
  function Reach(p: seq<nat>, i: nat): (j: nat)
    requires i <= |p|
    ensures i <= j <= |p| && ZeroRun(p, i, j - i) && (j < |p| ==> p[j] != 0)
    decreases |p| - i
  {
    if i == |p| || p[i] != 0 then i else Reach(p, i + 1)
  }

  /** The best of the runs that begin before the limit, one start at a time. */
  function BestRun(p: seq<nat>, limit: nat): (run: Run)
    requires limit <= |p|
    ensures BestBefore(p, limit, run)
  {
    if limit == 0 then Nowhere
    else
      var r, i := BestRun(p, limit - 1), limit - 1;
      var n := Reach(p, i) - i;
      assert forall m: nat :: ZeroRun(p, i, m) ==> m <= n;
      if n >= 2 && (r.Nowhere? || n > r.length) then At(i, n) else r
  }

  function Compression(p: seq<nat>): (run: Run)
    ensures IsCompression(p, run)
  {
    assert forall k: nat, n: nat :: ZeroRun(p, k, n) && k >= |p| ==> n == 0;
    BestRun(p, |p|)
  }

  lemma CompressionUnique(p: seq<nat>, a: Run, b: Run)
    requires IsCompression(p, a) && IsCompression(p, b)
    ensures a == b
  {
    if a.At? { assert ZeroRun(p, a.start, 2); }
    if b.At? { assert ZeroRun(p, b.start, 2); }
  }

  // ---- the text ----

  /** A number in hex without leading zeros. */
  function HexText(n: nat): (s: Bytes)
    ensures s != [] && COLON !in s
  {
    if n < 16 then [LowerHex(n)] else HexText(n / 16) + [LowerHex(n % 16)]
  }

  /** A piece takes at most four digits. */
  lemma HexTextShort(n: nat)
    requires n < 0x10000
    ensures |HexText(n)| <= 4
  {
    assert n < 0x100 ==> |HexText(n)| <= 2;
    assert n / 0x100 < 0x100;
    assert n >= 0x100 ==> HexText(n) == HexText(n / 16 / 16) + [LowerHex(n / 16 % 16)] + [LowerHex(n % 16)];
  }

  function HexNat(s: Bytes): nat {
    if s == [] then 0
    else 16 * HexNat(s[..|s| - 1]) + (var d := HexValue(s[|s| - 1]); if d.Some? then d.value else 0)
  }

  lemma {:induction false} HexTextInverse(n: nat)
    ensures HexNat(HexText(n)) == n
  {
    var s := HexText(n);
    if n >= 16 {
      HexTextInverse(n / 16);
      assert s[..|s| - 1] == HexText(n / 16);
    } else {
      assert s[..0] == [];
    }
  }

  function Hexes(p: seq<nat>): (parts: seq<Bytes>)
    ensures |parts| == |p| && forall i :: 0 <= i < |p| ==> parts[i] == HexText(p[i])
  {
    seq(|p|, i requires 0 <= i < |p| => HexText(p[i]))
  }

  function Colons(p: seq<nat>): Bytes { Join(Hexes(p), COLON) }

  const DOUBLE: Bytes := [0x3A, 0x3A]

  /** Two sides of a double colon. */
  function Doubled(a: Bytes, b: Bytes): Bytes { a + (DOUBLE + b) }

  /** The text when the pieces of a run are left out. */
  function Text6(p: seq<nat>, run: Run): Bytes
    requires run.At? ==> run.start + run.length <= |p|
  {
    match run
    case Nowhere => Colons(p)
    case At(start, length) => Doubled(Colons(p[..start]), Colons(p[start + length..]))
  }

  // ---- writing it ----

  function Written(p: seq<nat>, i: nat): Bytes
    requires i < |p|
  {
    HexText(p[i]) + (if i != |p| - 1 then [COLON] else [])
  }

  /** What the loop still writes from piece i on, the run behind it. */
  function Plain(p: seq<nat>, i: nat): Bytes
    requires i <= |p|
    decreases |p| - i
  {
    if i == |p| then [] else Written(p, i) + Plain(p, i + 1)
  }

  /** What the loop still writes from piece i on, the run not yet met. */
  function Rest(p: seq<nat>, run: Run, i: nat): Bytes
    requires i <= |p| && (run.At? ==> i <= run.start < run.start + run.length <= |p|)
    decreases |p| - i
  {
    if i == |p| then []
    else if run.At? && i == run.start then (if i == 0 then DOUBLE else [COLON]) + Plain(p, run.start + run.length)
    else Written(p, i) + Rest(p, run, i + 1)
  }

  lemma ColonsStep(p: seq<nat>, i: nat, n: nat)
    requires i + 1 < n <= |p|
    ensures Colons(p[i..n]) == HexText(p[i]) + ([COLON] + Colons(p[i + 1..n]))
  {
    var h := Hexes(p[i..n]);
    assert h[1..] == Hexes(p[i + 1..n]);
  }

  lemma {:induction false} PlainIsColons(p: seq<nat>, i: nat)
    requires i <= |p|
    ensures Plain(p, i) == Colons(p[i..])
    decreases |p| - i
  {
    hide HexText;
    if i + 1 < |p| {
      PlainIsColons(p, i + 1);
      ColonsStep(p, i, |p|);
      assert p[i..] == p[i..|p|] && p[i + 1..] == p[i + 1..|p|];
      Assoc(HexText(p[i]), [COLON], Colons(p[i + 1..]));
    } else if i < |p| {
      assert p[i..] == [p[i]];
      assert Hexes([p[i]]) == [HexText(p[i])];
      assert HexText(p[i]) + [] + [] == HexText(p[i]);
    }
  }

  lemma {:induction false} RestNowhere(p: seq<nat>, i: nat)
    requires i <= |p|
    ensures Rest(p, Nowhere, i) == Plain(p, i)
    decreases |p| - i
  {
    hide Written;
    if i < |p| { RestNowhere(p, i + 1); }
  }

  lemma {:induction false} RestBefore(p: seq<nat>, run: Run, i: nat)
    requires run.At? && i < run.start < run.start + run.length <= |p|
    ensures Rest(p, run, i) == Colons(p[i..run.start]) + (DOUBLE + Plain(p, run.start + run.length))
    decreases |p| - i
  {
    hide HexText, Plain;
    var post := Plain(p, run.start + run.length);
    if i + 1 == run.start {
      assert Hexes(p[i..run.start]) == [HexText(p[i])];
      Assoc(HexText(p[i]), [COLON], [COLON] + post);
      assert [COLON] + ([COLON] + post) == DOUBLE + post;
    } else {
      RestBefore(p, run, i + 1);
      ColonsStep(p, i, run.start);
      var more := Colons(p[i + 1..run.start]);
      Assoc(HexText(p[i]), [COLON], more + (DOUBLE + post));
      Assoc(HexText(p[i]), [COLON] + more, DOUBLE + post);
      Assoc([COLON], more, DOUBLE + post);
    }
  }

  lemma RestIsText(p: seq<nat>, run: Run)
    requires p != [] && (run.At? ==> run.start < run.start + run.length <= |p|)
    ensures Rest(p, run, 0) == Text6(p, run)
  {
    hide Rest, Text6;
    if run.Nowhere? {
      RestUncompressed(p);
    } else {
      RestCompressed(p, run.start, run.length);
    }
  }

  lemma RestUncompressed(p: seq<nat>)
    ensures Rest(p, Nowhere, 0) == Text6(p, Nowhere)
  {
    hide Colons, Rest, Plain;
    RestNowhere(p, 0);
    PlainIsColons(p, 0);
    assert p[0..] == p;
  }

  lemma RestCompressed(p: seq<nat>, start: nat, length: nat)
    requires 0 < length && start + length <= |p|
    ensures Rest(p, At(start, length), 0) == Text6(p, At(start, length))
  {
    hide Rest, Text6, Colons, Plain;
    CompressedText(p, start, length);
    if start > 0 {
      RestBefore(p, At(start, length), 0);
      FromZero(p, start);
    } else {
      RestAtOnce(p, length);
    }
  }

  lemma CompressedText(p: seq<nat>, start: nat, length: nat)
    requires start + length <= |p|
    ensures Text6(p, At(start, length)) == Doubled(Colons(p[..start]), Plain(p, start + length))
  {
    hide Colons, Plain, Doubled;
    PlainIsColons(p, start + length);
  }

  lemma RestAtOnce(p: seq<nat>, length: nat)
    requires 0 < length <= |p|
    ensures Rest(p, At(0, length), 0) == Colons(p[..0]) + (DOUBLE + Plain(p, length))
  {
    hide Colons, Plain;
    NoColons();
    assert p[..0] == [];
    assert [] + (DOUBLE + Plain(p, length)) == DOUBLE + Plain(p, length);
  }

  lemma NoColons()
    ensures Colons([]) == []
  {
  }

  function Serialized(p: Pieces6): Bytes { Text6(p, Compression(p)) }

  method SerializeIpv6(p: Pieces6) returns (out: Bytes)
    ensures out == Serialized(p)
  {
    hide Compression, Text6;
    var run := FindRun(p);
    CompressionUnique(p, run, Compression(p));
    out := WriteRun(p, run);
  }

  method WriteRun(p: Pieces6, run: Run) returns (out: Bytes)
    requires IsCompression(p, run)
    ensures run.At? ==> run.start + run.length <= |p|
    ensures out == Text6(p, run)
  {
    hide Rest, Plain, Text6, Written;
    out := [];
    RestIsText(p, run);
    ghost var text := Text6(p, run);
    assert out + text == text;
    var ignoreZeros := false;
    var i := 0;
    while i < |p|
      invariant 0 <= i <= |p|
      invariant run.At? && ignoreZeros ==> run.start < i <= run.start + run.length && out + Plain(p, run.start + run.length) == text
      invariant run.At? && !ignoreZeros && run.start < i ==> run.start + run.length <= i && out + Plain(p, i) == text
      invariant run.Nowhere? || i <= run.start ==> !ignoreZeros && out + Rest(p, run, i) == text
    {
      if ignoreZeros && p[i] == 0 {
        RunMaximal(p, run, i);
      } else {
        if ignoreZeros { RunInside(p, run, i); }
        ignoreZeros := false;
        LoopStep(p, run, i, out);
        if run.At? && i == run.start {
          out := out + (if i == 0 then DOUBLE else [COLON]);
          ignoreZeros := true;
        } else {
          out := out + Written(p, i);
        }
      }
      i := i + 1;
    }
    Finished(p, run);
    assert out + [] == out;
  }

  /** Zeros right behind the run's start belong to it. */
  lemma RunMaximal(p: seq<nat>, run: Run, i: nat)
    requires IsCompression(p, run) && run.At? && run.start < i <= run.start + run.length && i < |p| && p[i] == 0
    ensures i < run.start + run.length
  {
    if i == run.start + run.length { assert ZeroRun(p, run.start, run.length + 1); }
  }

  lemma RunInside(p: seq<nat>, run: Run, i: nat)
    requires IsCompression(p, run) && run.At? && run.start < i <= run.start + run.length && i < |p| && p[i] != 0
    ensures i == run.start + run.length
  {
  }

  lemma LoopStep(p: seq<nat>, run: Run, i: nat, out: Bytes)
    requires i < |p| && (run.At? ==> run.start < run.start + run.length <= |p|)
    ensures out + Plain(p, i) == out + Written(p, i) + Plain(p, i + 1)
    ensures run.At? && i == run.start ==>
              out + Rest(p, run, i) == out + (if i == 0 then DOUBLE else [COLON]) + Plain(p, run.start + run.length)
    ensures run.Nowhere? || i < run.start ==> out + Rest(p, run, i) == out + Written(p, i) + Rest(p, run, i + 1)
  {
    hide Written;
    Assoc(out, Written(p, i), Plain(p, i + 1));
    if run.At? && i == run.start {
      Assoc(out, if i == 0 then DOUBLE else [COLON], Plain(p, run.start + run.length));
    } else if run.Nowhere? || i < run.start {
      Assoc(out, Written(p, i), Rest(p, run, i + 1));
    }
  }

  lemma Finished(p: seq<nat>, run: Run)
    requires run.At? ==> run.start + run.length <= |p|
    ensures Plain(p, |p|) == []
    ensures run.Nowhere? ==> Rest(p, run, |p|) == []
  {
  }

  // ---- reading it back ----

  function Values(parts: seq<Bytes>): (v: seq<nat>)
    ensures |v| == |parts| && forall i :: 0 <= i < |v| ==> v[i] == HexNat(parts[i])
  {
    seq(|parts|, i requires 0 <= i < |parts| => HexNat(parts[i]))
  }

  /** The pieces one side of a double colon spells. */
  function Side(parts: seq<Bytes>): seq<nat> { if parts == [[]] then [] else Values(parts) }

  /** How many parts stand before the first empty one. */
  function Filled(parts: seq<Bytes>): (n: nat)
    ensures n <= |parts| && (n < |parts| ==> parts[n] == [])
  {
    if parts == [] || parts[0] == [] then 0 else 1 + Filled(parts[1..])
  }

  function ZerosFor(n: nat): seq<nat> { seq(n, _ => 0) }

  function Padded(before: seq<nat>, after: seq<nat>): seq<nat> {
    before + ZerosFor(if |before| + |after| <= 8 then 8 - |before| - |after| else 0) + after
  }

  /** The pieces a serialized address spells. */
  function ReadBack(text: Bytes): seq<nat> { ReadParts(Split(text, COLON)) }

  function ReadParts(parts: seq<Bytes>): seq<nat> {
    var k := Filled(parts);
    if k == |parts| then Values(parts)
    else if k == 0 then Padded([], if |parts| >= 2 then Side(parts[2..]) else [])
    else Padded(Values(parts[..k]), Side(parts[k + 1..]))
  }

  lemma SplitColons(p: seq<nat>)
    ensures Split(Colons(p), COLON) == if p == [] then [[]] else Hexes(p)
  {
    if p != [] { SplitJoin(Hexes(p), COLON); }
  }

  lemma {:induction false} FilledIs(h: seq<Bytes>, rest: seq<Bytes>)
    requires forall i :: 0 <= i < |h| ==> h[i] != []
    ensures rest == [] || rest[0] == [] ==> Filled(h + rest) == |h|
  {
    if h != [] {
      FilledIs(h[1..], rest);
      assert (h + rest)[1..] == h[1..] + rest;
    } else {
      assert h + rest == rest;
    }
  }

  lemma ValuesOfHexes(p: seq<nat>)
    ensures Values(Hexes(p)) == p && Side(Split(Colons(p), COLON)) == p
  {
    hide Colons, HexNat, HexText;
    forall i | 0 <= i < |p| ensures HexNat(HexText(p[i])) == p[i] { HexTextInverse(p[i]); }
    SplitColons(p);
    assert p != [] ==> Hexes(p)[0] != [];
  }

  lemma SplitDouble(a: seq<nat>, b: seq<nat>)
    ensures Split(Colons(a) + (DOUBLE + Colons(b)), COLON)
            == Split(Colons(a), COLON) + ([[]] + Split(Colons(b), COLON))
  {
    hide Colons;
    var tail := [] + ([COLON] + Colons(b));
    assert DOUBLE + Colons(b) == [COLON] + tail;
    SplitConcat(Colons(a), COLON, tail);
    SplitFirst([], COLON, Colons(b));
  }

  lemma ReadEmptyFirst(right: seq<Bytes>)
    ensures ReadParts([[]] + ([[]] + right)) == Padded([], Side(right))
  {
    hide Padded, Side;
    var parts := [[]] + ([[]] + right);
    assert parts[2..] == right;
  }

  lemma ReadFilled(h: seq<Bytes>, right: seq<Bytes>)
    requires h != [] && forall i :: 0 <= i < |h| ==> h[i] != []
    ensures ReadParts(h + ([[]] + right)) == Padded(Values(h), Side(right))
  {
    hide Padded, Side, Values, Filled;
    var parts := h + ([[]] + right);
    FilledIs(h, [[]] + right);
    assert parts[..|h|] == h && parts[|h| + 1..] == right;
  }

  lemma ReadDouble(a: seq<nat>, b: seq<nat>)
    ensures ReadBack(Colons(a) + (DOUBLE + Colons(b))) == Padded(a, b)
  {
    hide Colons, Padded, Side, Values, HexText, ReadParts;
    var right := Split(Colons(b), COLON);
    SplitDouble(a, b);
    SplitColons(a);
    ValuesOfHexes(a);
    ValuesOfHexes(b);
    if a == [] {
      ReadEmptyFirst(right);
    } else {
      ReadFilled(Hexes(a), right);
    }
  }

  /** The text determines the address it was written for. */
  lemma TextReadsBack(p: Pieces6, run: Run)
    requires IsCompression(p, run)
    ensures ReadBack(Text6(p, run)) == p
  {
    hide ReadBack, Colons;
    match run
    case Nowhere => ReadPlain(p);
    case At(start, length) =>
      var a, b := p[..start], p[start + length..];
      ReadDouble(a, b);
      assert p[start..start + length] == ZerosFor(length);
      assert p == a + p[start..start + length] + b;
  }

  lemma ReadPlain(p: seq<nat>)
    requires p != []
    ensures ReadBack(Colons(p)) == p
  {
    hide Colons, HexText, Values;
    SplitColons(p);
    ValuesOfHexes(p);
    FilledIs(Hexes(p), []);
    assert Hexes(p) + [] == Hexes(p);
  }

  /** The serializer is injective on eight-piece addresses. */
  lemma SerializedInjective(p: Pieces6, q: Pieces6)
    ensures Serialized(p) == Serialized(q) <==> p == q
  {
    hide Text6, ReadBack, Compression;
    TextReadsBack(p, Compression(p));
    TextReadsBack(q, Compression(q));
  }

  /** Bytes of a serialized address. */
  predicate IsHexOrColon(c: byte) { 0x30 <= c <= 0x3A || 0x61 <= c <= 0x66 }

  lemma {:induction false} HexTextBytes(n: nat)
    ensures forall i :: 0 <= i < |HexText(n)| ==> IsHexOrColon(HexText(n)[i])
  {
    if n >= 16 { HexTextBytes(n / 16); }
  }

  lemma {:induction false} ColonsBytes(p: seq<nat>)
    ensures forall i :: 0 <= i < |Colons(p)| ==> IsHexOrColon(Colons(p)[i])
  {
    hide HexText;
    if p != [] {
      HexTextBytes(p[0]);
      ColonsBytes(p[1..]);
      var h := Hexes(p);
      assert h[0] == HexText(p[0]) && h[1..] == Hexes(p[1..]);
      assert |p| > 1 ==> Colons(p) == h[0] + ([COLON] + Colons(p[1..]));
    }
  }

  lemma SerializedBytes(p: Pieces6)
    ensures forall i :: 0 <= i < |Serialized(p)| ==> IsHexOrColon(Serialized(p)[i])
  {
    hide Colons, Compression;
    match Compression(p)
    case Nowhere => ColonsBytes(p);
    case At(start, length) =>
      ColonsBytes(p[..start]);
      ColonsBytes(p[start + length..]);
  }
}
