/** Ordering by UTF-16 code unit, computed without converting either string. */
module CodeUnits {
  import opened Utf8

  /** The UTF-16 code units of one scalar: itself, or a surrogate pair. */
  function UnitsOf(r: int): (us: seq<int>)
    requires IsScalar(r)
    ensures 1 <= |us| <= 2
  {
    if r < 0x10000 then [r]
    else [0xD800 + (r - 0x10000) / 1024, 0xDC00 + (r - 0x10000) % 1024]
  }

  /** The scalar a surrogate pair stands for, as the JSON string scanner joins
      two \u escapes. */
  function JoinSurrogates(lead: int, trail: int): int
  {
    0x10000 + (lead - 0xD800) * 1024 + (trail - 0xDC00)
  }

  lemma JoinInvertsSplit(r: int)
    requires IsScalar(r) && 0x10000 <= r
    ensures var us := UnitsOf(r);
            |us| == 2 && 0xD800 <= us[0] < 0xDC00 && 0xDC00 <= us[1] < 0xE000 && JoinSurrogates(us[0], us[1]) == r
  {
  }

  lemma SplitInvertsJoin(lead: int, trail: int)
    requires 0xD800 <= lead < 0xDC00 && 0xDC00 <= trail < 0xE000
    ensures var r := JoinSurrogates(lead, trail);
            IsScalar(r) && 0x10000 <= r && UnitsOf(r) == [lead, trail]
  {
    var r := JoinSurrogates(lead, trail);
    assert (r - 0x10000) / 1024 == lead - 0xD800;
  }

  /** The UTF-16 form of a list of scalars. */
  function Utf16(rs: seq<int>): (us: seq<int>)
    requires forall i :: 0 <= i < |rs| ==> IsScalar(rs[i])
  {
    if rs == [] then [] else UnitsOf(rs[0]) + Utf16(rs[1..])
  }

  /** The UTF-16 form of a Go string, ill-formed bytes read as U+FFFD. */
  function Units(s: Bytes): seq<int> {
    Utf16(Scalars(s))
  }

  /** Lexicographic comparison: the reference order. */
  function Lex(a: seq<int>, b: seq<int>): (c: int)
    ensures -1 <= c <= 1
  {
    if a == [] then (if b == [] then 0 else -1)
    else if b == [] then 1
    else if a[0] < b[0] then -1
    else if a[0] > b[0] then 1
    else Lex(a[1..], b[1..])
  }

  /** The order the laws are stated in. */
  function Compare(a: Bytes, b: Bytes): int {
    Lex(Units(a), Units(b))
  }

  predicate Less(a: Bytes, b: Bytes) { Compare(a, b) < 0 }

  /** A scalar's sort key: lead unit, then trail. */
  function CodeUnitKey(r: int): int
    requires IsScalar(r)
  {
    if r < 0x10000 then r * 65536
    else (0xD800 + (r - 0x10000) / 1024) * 65536 + (0xDC00 + (r - 0x10000) % 1024)
  }

  // ---- the reference order is a total order ----

  lemma {:induction false} LexZero(a: seq<int>, b: seq<int>)
    ensures Lex(a, b) == 0 <==> a == b
  {
    if a != [] && b != [] && a[0] == b[0] {
      LexZero(a[1..], b[1..]);
      assert a == [a[0]] + a[1..] && b == [b[0]] + b[1..];
    }
  }

  lemma {:induction false} LexFlip(a: seq<int>, b: seq<int>)
    ensures Lex(b, a) == -Lex(a, b)
  {
    if a != [] && b != [] && a[0] == b[0] {
      LexFlip(a[1..], b[1..]);
    }
  }

  lemma {:induction false} LexTransitive(a: seq<int>, b: seq<int>, c: seq<int>)
    requires Lex(a, b) <= 0 && Lex(b, c) <= 0
    ensures Lex(a, c) <= 0
    ensures Lex(a, b) < 0 || Lex(b, c) < 0 ==> Lex(a, c) < 0
  {
    if a != [] && b != [] && c != [] && a[0] == b[0] == c[0] {
      LexTransitive(a[1..], b[1..], c[1..]);
    }
  }

  /** Two unit lists that share a prefix compare as their remainders do. */
  lemma {:induction false} LexSharedPrefix(p: seq<int>, a: seq<int>, b: seq<int>)
    ensures Lex(p + a, p + b) == Lex(a, b)
  {
    if p == [] {
      assert p + a == a && p + b == b;
    } else {
      LexSharedPrefix(p[1..], a, b);
      assert (p + a)[1..] == p[1..] + a && (p + b)[1..] == p[1..] + b;
    }
  }

  /** The packed key decides a pair of different scalars as their units do. */
  lemma KeyDecides(r: int, q: int, a: seq<int>, b: seq<int>)
    requires IsScalar(r) && IsScalar(q) && r != q
    ensures CodeUnitKey(r) != CodeUnitKey(q)
    ensures Lex(UnitsOf(r) + a, UnitsOf(q) + b) == if CodeUnitKey(r) < CodeUnitKey(q) then -1 else 1
  {
    var u, v := UnitsOf(r) + a, UnitsOf(q) + b;
    if u[0] == v[0] {
      assert |UnitsOf(r)| == 2 && |UnitsOf(q)| == 2;
      assert u[1] != v[1];
      assert u[1..][0] == u[1] && v[1..][0] == v[1];
    }
  }

  /** Comparing two strings rune by rune is comparing their UTF-16 forms,
      whatever bytes they hold. */
  method CompareCodeUnits(a0: Bytes, b0: Bytes) returns (c: int)
    ensures c == Lex(Units(a0), Units(b0))
  {
    var a, b := a0, b0;
    while |a| > 0 && |b| > 0
      invariant Lex(Units(a), Units(b)) == Lex(Units(a0), Units(b0))
      decreases |a|
    {
      var ra, rb := RuneAt(a), RuneAt(b);
      UnitsStep(a);
      UnitsStep(b);
      if ra != rb {
        KeyDecides(ra, rb, Units(a[Width(a)..]), Units(b[Width(b)..]));
        if CodeUnitKey(ra) < CodeUnitKey(rb) {
          return -1;
        }
        return 1;
      }
      LexSharedPrefix(UnitsOf(ra), Units(a[Width(a)..]), Units(b[Width(b)..]));
      a, b := a[Width(a)..], b[Width(b)..];
    }
    if |a| > 0 { UnitsStep(a); }
    if |b| > 0 { UnitsStep(b); }
    if |a| == 0 && |b| == 0 {
      return 0;
    } else if |a| == 0 {
      return -1;
    }
    return 1;
  }

  lemma UnitsStep(s: Bytes)
    requires s != []
    ensures Units(s) == UnitsOf(RuneAt(s)) + Units(s[Width(s)..])
    ensures Units(s) != []
  {
    assert Scalars(s)[1..] == Scalars(s[Width(s)..]);
  }

  // ---- the order on valid strings ----

  lemma {:induction false} Utf16Injective(rs: seq<int>, qs: seq<int>)
    requires forall i :: 0 <= i < |rs| ==> IsScalar(rs[i])
    requires forall i :: 0 <= i < |qs| ==> IsScalar(qs[i])
    requires Utf16(rs) == Utf16(qs)
    ensures rs == qs
  {
    if rs != [] && qs != [] {
      var u, v := Utf16(rs), Utf16(qs);
      var r, q := rs[0], qs[0];
      assert u[0] == UnitsOf(r)[0] && v[0] == UnitsOf(q)[0];
      assert |UnitsOf(r)| == |UnitsOf(q)|;
      if r >= 0x10000 {
        assert u[1] == UnitsOf(r)[1] && v[1] == UnitsOf(q)[1];
        JoinInvertsSplit(r);
        JoinInvertsSplit(q);
      }
      assert r == q;
      assert u[|UnitsOf(r)|..] == Utf16(rs[1..]) && v[|UnitsOf(r)|..] == Utf16(qs[1..]);
      Utf16Injective(rs[1..], qs[1..]);
      assert rs == [r] + rs[1..] && qs == [q] + qs[1..];
    }
  }

  /** Any two byte strings tie exactly when they decode to the same scalars. */
  lemma TiesAreScalars(a: Bytes, b: Bytes)
    ensures Compare(a, b) == 0 <==> Scalars(a) == Scalars(b)
  {
    LexZero(Units(a), Units(b));
    if Units(a) == Units(b) { Utf16Injective(Scalars(a), Scalars(b)); }
  }

  /** Two ill-formed bytes are unequal strings that tie: both decode to the
      replacement character. */
  lemma IllFormedTie()
    ensures var a: Bytes, b: Bytes := [0xFF], [0xFE]; a != b && Compare(a, b) == 0
  {
    var a: Bytes, b: Bytes := [0xFF], [0xFE];
    assert a[1..] == [] && b[1..] == [];
    assert Scalars(a) == [REPLACEMENT] == Scalars(b);
    assert a[0] != b[0];
    TiesAreScalars(a, b);
  }

  /** On valid strings only equal strings tie. */
  lemma CompareZero(a: Bytes, b: Bytes)
    requires Valid(a) && Valid(b)
    ensures Compare(a, b) == 0 <==> a == b
  {
    TiesAreScalars(a, b);
    if Scalars(a) == Scalars(b) { ScalarsInjective(a, b); }
  }

  lemma LessTransitive(a: Bytes, b: Bytes, c: Bytes)
    requires Less(a, b) && Less(b, c)
    ensures Less(a, c)
  {
    LexTransitive(Units(a), Units(b), Units(c));
  }

  lemma LessIrreflexive(a: Bytes)
    ensures !Less(a, a)
  {
    LexZero(Units(a), Units(a));
  }

  /** `Less` is a strict total order on valid strings. */
  lemma Trichotomy(a: Bytes, b: Bytes)
    requires Valid(a) && Valid(b)
    ensures Less(a, b) || a == b || Less(b, a)
    ensures !(Less(a, b) && Less(b, a))
    ensures a == b ==> !Less(a, b)
  {
    CompareZero(a, b);
    LexFlip(Units(a), Units(b));
  }

  lemma {:induction false} Utf16Ascii(rs: seq<int>)
    requires forall i :: 0 <= i < |rs| ==> 0 <= rs[i] < 0x80
    ensures Utf16(rs) == rs
  {
    if rs != [] {
      Utf16Ascii(rs[1..]);
      assert rs == [rs[0]] + rs[1..];
    }
  }

  /** On ASCII, code-unit order is byte order. */
  lemma AsciiOrder(a: Bytes, b: Bytes)
    requires IsAscii(a) && IsAscii(b)
    ensures Compare(a, b) == Lex(a, b)
  {
    AsciiScalars(a);
    AsciiScalars(b);
    Utf16Ascii(Scalars(a));
    Utf16Ascii(Scalars(b));
  }

  /** A supplementary character sorts below U+E000..U+FFFF by code unit and above
      it by byte. */
  lemma OrdersDiffer()
    ensures var supplementary, private := Encode(0x10000), Encode(0xFFFF);
            Less(supplementary, private) && Lex(private, supplementary) < 0
  {
    var s, p := Encode(0x10000), Encode(0xFFFF);
    DecodeEncode(0x10000, []);
    DecodeEncode(0xFFFF, []);
    assert s + [] == s && p + [] == p;
    UnitsStep(s);
    UnitsStep(p);
    assert Units(s)[0] == 0xD800 && Units(p)[0] == 0xFFFF;
    assert p[0] == 0xEF && s[0] == 0xF0;
  }
}
