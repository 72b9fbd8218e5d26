/** Code-unit order against byte order. */
module ByteOrder {
  import opened Utf8
  import opened CodeUnits

  /** How long the common prefix of two lists is. */
  function FirstDifference(rs: seq<int>, qs: seq<int>): (k: nat)
    ensures k <= |rs| && k <= |qs| && rs[..k] == qs[..k]
    ensures k < |rs| && k < |qs| ==> rs[k] != qs[k]
  {
    if rs == [] || qs == [] || rs[0] != qs[0] then 0
    else
      var k := FirstDifference(rs[1..], qs[1..]);
      assert rs[..k + 1] == [rs[0]] + rs[1..][..k] && qs[..k + 1] == [qs[0]] + qs[1..][..k];
      k + 1
  }

  predicate IsAboveSurrogates(r: int) { 0xE000 <= r < 0x10000 }

  /** One scalar is supplementary and the other lies in U+E000..U+FFFF. */
  predicate Crossing(r: int, q: int) {
    (r >= 0x10000 && IsAboveSurrogates(q)) || (q >= 0x10000 && IsAboveSurrogates(r))
  }

  /** The lists first differ in such a pair. */
  predicate Crosses(rs: seq<int>, qs: seq<int>) {
    var k := FirstDifference(rs, qs);
    k < |rs| && k < |qs| && Crossing(rs[k], qs[k])
  }

  lemma CrossesLater(r: int, rs: seq<int>, qs: seq<int>)
    ensures Crosses([r] + rs, [r] + qs) <==> Crosses(rs, qs)
  {
    assert ([r] + rs)[1..] == rs && ([r] + qs)[1..] == qs;
  }

  lemma KeyMonotone(r: int, q: int)
    requires 0x10000 <= r < q < 0x110000
    ensures CodeUnitKey(r) < CodeUnitKey(q)
  {
    var a, b := r - 0x10000, q - 0x10000;
    assert a / 1024 <= b / 1024;
    if a / 1024 == b / 1024 { assert a % 1024 < b % 1024; }
  }

  /** Sort keys order scalars as numbers do, but for the crossing pairs. */
  lemma KeyOrder(r: int, q: int)
    requires IsScalar(r) && IsScalar(q) && r < q
    ensures CodeUnitKey(r) < CodeUnitKey(q) <==> !Crossing(r, q)
  {
    if r >= 0x10000 {
      KeyMonotone(r, q);
    } else if q >= 0x10000 {
      assert 0xD800 <= 0xD800 + (q - 0x10000) / 1024 < 0xDC00;
    }
  }

  lemma LexAt(u: seq<int>, v: seq<int>, k: nat)
    requires k < |u| && k < |v| && u[k] < v[k] && forall i :: 0 <= i < k ==> u[i] == v[i]
    ensures Lex(u, v) == -1
  {
    assert u[..k] == v[..k] && u == u[..k] + u[k..] && v == v[..k] + v[k..];
    LexSharedPrefix(u[..k], u[k..], v[k..]);
  }

  /** UTF-8 orders different scalars as numbers, whatever follows them. */
  lemma EncodeOrder(r: int, q: int, a: Bytes, b: Bytes)
    requires IsScalar(r) && IsScalar(q) && r < q
    ensures Lex(Encode(r) + a, Encode(q) + b) == -1
  {
    var k := FirstByte(r, q);
    var u, v := Encode(r) + a, Encode(q) + b;
    assert u[k] == Encode(r)[k] && v[k] == Encode(q)[k];
    assert forall i :: 0 <= i < k ==> u[i] == Encode(r)[i] && v[i] == Encode(q)[i];
    LexAt(u, v, k);
  }

  lemma FirstByte(r: int, q: int) returns (k: nat)
    requires IsScalar(r) && IsScalar(q) && r < q
    ensures k < |Encode(r)| && k < |Encode(q)| && Encode(r)[k] < Encode(q)[k]
    ensures forall i :: 0 <= i < k ==> Encode(r)[i] == Encode(q)[i]
  {
    if |Encode(r)| != |Encode(q)| {
      k := 0;
    } else if |Encode(r)| <= 2 {
      k := if |Encode(r)| == 1 || r / 64 < q / 64 then 0 else 1;
    } else {
      Sixths(r, q);
      if |Encode(r)| == 3 {
        k := if r / 4096 < q / 4096 then 0 else if r / 64 < q / 64 then 1 else 2;
      } else {
        k := if r / 262144 < q / 262144 then 0 else if r / 4096 < q / 4096 then 1 else if r / 64 < q / 64 then 2 else 3;
      }
    }
  }

  lemma Sixths(r: nat, q: nat)
    requires r < q
    ensures r / 64 <= q / 64 && r / 4096 <= q / 4096 && r / 262144 <= q / 262144
    ensures r / 64 == q / 64 ==> r % 64 < q % 64
    ensures r / 4096 == q / 4096 && r / 64 < q / 64 ==> r / 64 % 64 < q / 64 % 64
    ensures r / 262144 == q / 262144 && r / 4096 < q / 4096 ==> r / 4096 % 64 < q / 4096 % 64
  {
    SplitThree(r);
    SplitThree(q);
    SplitFour(r);
    SplitFour(q);
  }

  /** Different first scalars decide both orders. */
  lemma FirstScalarsDecide(r: int, q: int, a: Bytes, b: Bytes, us: seq<int>, vs: seq<int>)
    requires IsScalar(r) && IsScalar(q) && r != q
    ensures Lex(UnitsOf(r) + us, UnitsOf(q) + vs) != Lex(Encode(r) + a, Encode(q) + b) <==> Crossing(r, q)
  {
    hide UnitsOf, Encode, CodeUnitKey;
    KeyDecides(r, q, us, vs);
    if r < q {
      KeyOrder(r, q);
      EncodeOrder(r, q, a, b);
    } else {
      KeyOrder(q, r);
      EncodeOrder(q, r, b, a);
      LexFlip(Encode(q) + b, Encode(r) + a);
    }
  }

  /** On valid strings the two orders disagree exactly when the first scalars
      that differ are a supplementary one and one in U+E000..U+FFFF. */
  lemma {:induction false} OrdersDisagree(a: Bytes, b: Bytes)
    requires Valid(a) && Valid(b)
    ensures Compare(a, b) != Lex(a, b) <==> Crosses(Scalars(a), Scalars(b))
    decreases |a|
  {
    if a == [] || b == [] {
      EmptyAgree(a, b);
    } else {
      hide Scalars, RuneLen, RuneAt, Encode, Valid, UnitsOf, Crossing, Units, Crosses;
      var n, m := RuneLen(a), RuneLen(b);
      var r, q := RuneAt(a), RuneAt(b);
      ValidStep(a);
      ValidStep(b);
      UnitsFirst(a);
      UnitsFirst(b);
      if r == q {
        OrdersDisagree(a[n..], b[m..]);
        LexSharedPrefix(Encode(r), a[n..], b[m..]);
        LexSharedPrefix(UnitsOf(r), Units(a[n..]), Units(b[m..]));
        CrossesLater(r, Scalars(a[n..]), Scalars(b[m..]));
      } else {
        FirstScalarsDecide(r, q, a[n..], b[m..], Units(a[n..]), Units(b[m..]));
        CrossesNow(r, q, Scalars(a[n..]), Scalars(b[m..]));
      }
    }
  }

  lemma CrossesNow(r: int, q: int, rs: seq<int>, qs: seq<int>)
    requires r != q
    ensures Crosses([r] + rs, [q] + qs) <==> Crossing(r, q)
  {
  }

  lemma UnitsFirst(s: Bytes)
    requires RuneLen(s) > 0
    ensures Units(s) == UnitsOf(RuneAt(s)) + Units(s[RuneLen(s)..])
  {
    hide RuneLen, RuneAt, UnitsOf, Units;
    UnitsStep(s);
  }

  lemma EmptyAgree(a: Bytes, b: Bytes)
    requires a == [] || b == []
    ensures Compare(a, b) == Lex(a, b) && !Crosses(Scalars(a), Scalars(b))
  {
    if a != [] { UnitsStep(a); }
    if b != [] { UnitsStep(b); }
  }
}
