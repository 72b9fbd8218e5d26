/** The JSON grammar of RFC 8259, said as relations between texts and documents,
    and that the scanner decides it. */
module Grammar {
  import opened Utf8
  import opened Numbers
  import opened NumberText
  import opened Spellings
  import opened Json
  import opened JsonFields

  // ---- the grammar ----

  /** Spaces, tabs and line ends. */
  predicate Blank(t: Bytes) { forall i :: 0 <= i < |t| ==> t[i] in Text(" \t\n\r") }

  ghost predicate Padded(t: Bytes, v: Bytes) { exists a, z :: Blank(a) && Blank(z) && t == a + (v + z) }

  /** An optional exponent of value e: the letter, a sign, and digits. */
  ghost predicate IsExponent(t: Bytes, e: int) {
    if t == [] then e == 0 else exists sign, ds :: ExponentParts(t, e, sign, ds)
  }

  predicate ExponentParts(t: Bytes, e: int, sign: Bytes, ds: Bytes) {
    && t != [] && (t[0] == 0x65 || t[0] == 0x45) && t[1..] == sign + ds
    && ds != [] && AllDigits(ds)
    && ((sign == [] && e == NatOf(ds)) || (sign == [PLUS] && e == NatOf(ds)) || (sign == [MINUS] && e == -(NatOf(ds) as int)))
  }

  /** A minus sign, digits without a leading zero, a fraction, an exponent. */
  ghost predicate IsNumber(l: Literal, t: Bytes) {
    && l.WellFormed() && (l.whole == [ZERO] || l.whole[0] != ZERO)
    && exists x :: IsExponent(x, l.exp) && t == SignText(l.neg) + (l.whole + (Fraction(l.frac) + x))
  }

  ghost predicate IsString(s: Bytes, t: Bytes) { exists b :: Spells(b, s) && t == [QUOTE] + (b + [QUOTE]) }

  ghost predicate IsValue(d: Doc, t: Bytes)
    decreases d, 0
  {
    match d
    case Null => t == Text("null")
    case Bool(b) => t == Text(if b then "true" else "false")
    case Num(l) => IsNumber(l, t)
    case Str(s) => IsString(s, t)
    case Arr(items) => exists b :: t == [LBRACKET] + (b + [RBRACKET]) && if items == [] then Blank(b) else IsItems(items, b)
    case Obj(ms) => exists b :: t == [LBRACE] + (b + [RBRACE]) && if ms == [] then Blank(b) else IsMembers(ms, b)
  }

  /** A value between blanks. */
  ghost predicate IsItem(d: Doc, t: Bytes)
    decreases d, 1
  {
    exists v :: Padded(t, v) && IsValue(d, v)
  }

  ghost predicate IsItems(ds: seq<Doc>, t: Bytes)
    requires ds != []
    decreases ds, 2
  {
    if |ds| == 1 then IsItem(ds[0], t)
    else exists x, y :: t == x + ([COMMA] + y) && IsItem(ds[0], x) && IsItems(ds[1..], y)
  }

  ghost predicate IsKey(k: Bytes, t: Bytes) { exists v :: Padded(t, v) && IsString(k, v) }

  ghost predicate IsMember(k: Bytes, d: Doc, t: Bytes)
    decreases d, 2
  {
    exists x, y :: t == x + ([COLON] + y) && IsKey(k, x) && IsItem(d, y)
  }

  ghost predicate IsMembers(ms: seq<(Bytes, Doc)>, t: Bytes)
    requires ms != []
    decreases ms, 3
  {
    assert ms[0].1 < ms[0];
    if |ms| == 1 then IsMember(ms[0].0, ms[0].1, t)
    else exists x, y :: t == x + ([COMMA] + y) && IsMember(ms[0].0, ms[0].1, x) && IsMembers(ms[1..], y)
  }

  /** No spelled exponent exceeds the limit. */
  predicate Guarded(limit: int, d: Doc)
    decreases d
  {
    match d
    case Num(l) => -limit <= l.exp <= limit
    case Arr(items) => forall i :: 0 <= i < |items| ==> Guarded(limit, items[i])
    case Obj(ms) => forall i :: 0 <= i < |ms| ==> Guarded(limit, ms[i].1)
    case _ => true
  }
}
