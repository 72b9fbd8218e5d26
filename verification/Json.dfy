/** JSON texts: the documents they spell, the values those denote, and the one
    canonical text of each value (RFC 8785 over exact decimal numbers). */
module Json {
  import opened Utf8
  import opened Wrappers
  import opened Numbers
  import opened NumberText
  import opened Strings
  import opened Sorting

  const LBRACE: byte := 0x7B
  const RBRACE: byte := 0x7D
  const COMMA: byte := 0x2C

  const TRUE: Bytes := [0x74, 0x72, 0x75, 0x65]
  const FALSE: Bytes := [0x66, 0x61, 0x6C, 0x73, 0x65]
  const NULL: Bytes := [0x6E, 0x75, 0x6C, 0x6C]

  /** The deepest nesting the scanner enters. */
  const MAX_DEPTH: nat := 10000

  type Number = l: Literal | l.WellFormed() witness Literal(false, [ZERO], [], 0)

  /** A parsed document: numbers as spelled, members in source order. */
  datatype Doc =
    | Null
    | Bool(b: bool)
    | Num(lit: Number)
    | Str(s: Bytes)
    | Arr(items: seq<Doc>)
    | Obj(members: seq<(Bytes, Doc)>)

  /** What a document means under RFC 6902 section 4.6: numbers by exact value,
      arrays by position, objects as member sets. */
  datatype Value =
    | VNull
    | VBool(b: bool)
    | VNum(x: real)
    | VStr(s: Bytes)
    | VArr(items: seq<Value>)
    | VObj(members: map<Bytes, Value>)

  function Denote(d: Doc): Value {
    match d
    case Null => VNull
    case Bool(b) => VBool(b)
    case Num(l) => VNum(l.Value())
    case Str(s) => VStr(s)
    case Arr(items) => VArr(DenoteItems(items))
    case Obj(members) => VObj(ToMap(DenoteMembers(members)))
  }

  function DenoteItems(ds: seq<Doc>): (vs: seq<Value>)
    ensures |vs| == |ds|
  {
    if ds == [] then [] else [Denote(ds[0])] + DenoteItems(ds[1..])
  }

  function DenoteMembers(ms: seq<(Bytes, Doc)>): (vs: seq<(Bytes, Value)>)
    ensures |vs| == |ms|
  {
    if ms == [] then []
    else
      assert ms[0].1 < ms[0];
      [(ms[0].0, Denote(ms[0].1))] + DenoteMembers(ms[1..])
  }

  /** What the caller admits. The binary64 law is a predicate on the exact
      value of a number; exact mode admits every number. */
  datatype Rules = Rules(exact: bool, binary64: real -> bool)
  {
    predicate Admits(x: real) { exact || binary64(x) }
  }

  /** A document the scanner can have produced with `room` levels of nesting
      left. */
  ghost predicate WellFormed(rules: Rules, room: nat, d: Doc)
    decreases d
  {
    match d
    case Num(l) => Normalize(l).InRange() && rules.Admits(l.Value())
    case Str(s) => Valid(s)
    case Arr(items) => room > 0 && forall i :: 0 <= i < |items| ==> WellFormed(rules, room - 1, items[i])
    case Obj(members) => room > 0 && DistinctKeys(members) && ValidKeys(members)
                         && forall i :: 0 <= i < |members| ==> WellFormed(rules, room - 1, members[i].1)
    case _ => true
  }

  ghost predicate WellFormedItems(rules: Rules, room: nat, ds: seq<Doc>) {
    forall i :: 0 <= i < |ds| ==> WellFormed(rules, room, ds[i])
  }

  ghost predicate WellFormedMembers(rules: Rules, room: nat, ms: seq<(Bytes, Doc)>) {
    ValidKeys(ms) && forall i :: 0 <= i < |ms| ==> WellFormed(rules, room, ms[i].1)
  }

  // ---- the canonical text ----

  function Canon(d: Doc): Bytes {
    match d
    case Null => NULL
    case Bool(b) => if b then TRUE else FALSE
    case Num(l) => Print(Normalize(l))
    case Str(s) => Quoted(s)
    case Arr(items) => [LBRACKET] + JoinItems(CanonItems(items)) + [RBRACKET]
    case Obj(members) => ObjectText(CanonMembers(members))
  }

  function CanonItems(ds: seq<Doc>): (ts: seq<Bytes>)
    ensures |ts| == |ds|
  {
    if ds == [] then [] else [Canon(ds[0])] + CanonItems(ds[1..])
  }

  function CanonMembers(ms: seq<(Bytes, Doc)>): (ts: seq<(Bytes, Bytes)>)
    ensures |ts| == |ms|
  {
    if ms == [] then []
    else
      assert ms[0].1 < ms[0];
      [(ms[0].0, Canon(ms[0].1))] + CanonMembers(ms[1..])
  }

  function JoinItems(ts: seq<Bytes>): Bytes {
    if ts == [] then []
    else if |ts| == 1 then ts[0]
    else ts[0] + ([COMMA] + JoinItems(ts[1..]))
  }

  function MemberText(p: (Bytes, Bytes)): Bytes {
    Quoted(p.0) + ([COLON] + p.1)
  }

  function JoinMembers(ps: seq<(Bytes, Bytes)>): Bytes {
    if ps == [] then []
    else if |ps| == 1 then MemberText(ps[0])
    else MemberText(ps[0]) + ([COMMA] + JoinMembers(ps[1..]))
  }

  /** An object's text from its members' keys and canonical texts, in any
      order. */
  function ObjectText(ps: seq<(Bytes, Bytes)>): Bytes {
    [LBRACE] + JoinMembers(Sort(ps)) + [RBRACE]
  }

  // ---- the pure parse ----

  predicate IsSpace(b: byte) { b == 0x20 || b == 0x09 || b == 0x0A || b == 0x0D }

  function SkipSpace(t: Bytes): (r: Bytes)
    ensures |r| <= |t|
  {
    if t != [] && IsSpace(t[0]) then SkipSpace(t[1..]) else t
  }

  /** How a text is read: the spelled-exponent guard, and the rules. */
  datatype Mode = Mode(limit: int, rules: Rules)

  type Scanned<T> = Option<(T, Bytes)>

  function ScanWord(t: Bytes, word: Bytes, d: Doc): Scanned<Doc> {
    if word <= t then Some((d, t[|word|..])) else None
  }

  function ScanNumber(mode: Mode, t: Bytes): Scanned<Doc>
    requires t != []
  {
    var l :- ScanLiteral(mode.limit, t);
    if Normalize(l.0).InRange() && mode.rules.Admits(l.0.Value()) then Some((Num(l.0), l.1)) else None
  }

  function ScanScalar(mode: Mode, t: Bytes): (r: Scanned<Doc>)
    requires t != []
    ensures r.Some? ==> |r.value.1| < |t|
  {
    var c := t[0];
    if c == QUOTE then
      var s :- Chars(t[1..]);
      Some((Str(s.0), s.1))
    else if c == TRUE[0] then ScanWord(t, TRUE, Bool(true))
    else if c == FALSE[0] then ScanWord(t, FALSE, Bool(false))
    else if c == NULL[0] then ScanWord(t, NULL, Null)
    else if c == MINUS || IsDigit(c) then ScanNumber(mode, t)
    else None
  }

  function ScanValue(mode: Mode, room: nat, t: Bytes): (r: Scanned<Doc>)
    ensures r.Some? ==> |r.value.1| < |t|
    decreases |t|, 1
  {
    if t == [] then None
    else if t[0] == LBRACE then
      if room == 0 then None else ScanObject(mode, room - 1, t[1..])
    else if t[0] == LBRACKET then
      if room == 0 then None else ScanArray(mode, room - 1, t[1..])
    else ScanScalar(mode, t)
  }

  function ScanArray(mode: Mode, room: nat, t: Bytes): (r: Scanned<Doc>)
    ensures r.Some? ==> |r.value.1| < |t|
    decreases |t|, 3
  {
    var u := SkipSpace(t);
    if u != [] && u[0] == RBRACKET then Some((Arr([]), u[1..]))
    else
      var items :- ScanItems(mode, room, u);
      Some((Arr(items.0), items.1))
  }

  /** One or more elements up to the closing bracket. */
  function ScanItems(mode: Mode, room: nat, t: Bytes): (r: Scanned<seq<Doc>>)
    ensures r.Some? ==> |r.value.1| < |t|
    decreases |t|, 2
  {
    var d :- ScanValue(mode, room, SkipSpace(t));
    var u := SkipSpace(d.1);
    if u == [] then None
    else if u[0] == COMMA then
      var more :- ScanItems(mode, room, u[1..]);
      Some(([d.0] + more.0, more.1))
    else if u[0] == RBRACKET then Some(([d.0], u[1..]))
    else None
  }

  function ScanObject(mode: Mode, room: nat, t: Bytes): (r: Scanned<Doc>)
    ensures r.Some? ==> |r.value.1| < |t|
    decreases |t|, 3
  {
    var u := SkipSpace(t);
    if u != [] && u[0] == RBRACE then Some((Obj([]), u[1..]))
    else
      var members :- ScanMembers(mode, room, {}, u);
      Some((Obj(members.0), members.1))
  }

  /** A member's key and the colon after it; a repeated key is refused. */
  function ScanKey(seen: set<Bytes>, t: Bytes): (r: Scanned<Bytes>)
    ensures r.Some? ==> |r.value.1| < |t|
  {
    var u := SkipSpace(t);
    if u == [] || u[0] != QUOTE then None
    else
      var key :- Chars(u[1..]);
      var v := SkipSpace(key.1);
      if key.0 in seen || v == [] || v[0] != COLON then None
      else Some((key.0, SkipSpace(v[1..])))
  }

  function ScanMember(mode: Mode, room: nat, seen: set<Bytes>, t: Bytes): (r: Scanned<(Bytes, Doc)>)
    ensures r.Some? ==> |r.value.1| < |t|
    decreases |t|, 1
  {
    var key :- ScanKey(seen, t);
    var d :- ScanValue(mode, room, key.1);
    Some(((key.0, d.0), d.1))
  }

  /** One or more members up to the closing brace. */
  function ScanMembers(mode: Mode, room: nat, seen: set<Bytes>, t: Bytes): (r: Scanned<seq<(Bytes, Doc)>>)
    ensures r.Some? ==> |r.value.1| < |t|
    decreases |t|, 2
  {
    var m :- ScanMember(mode, room, seen, t);
    var u := SkipSpace(m.1);
    if u == [] then None
    else if u[0] == COMMA then
      var more :- ScanMembers(mode, room, seen + {m.0.0}, u[1..]);
      Some(([m.0] + more.0, more.1))
    else if u[0] == RBRACE then Some(([m.0], u[1..]))
    else None
  }

  /** One JSON text, spaces around it allowed, nothing else after it. */
  function Parse(rules: Rules, raw: Bytes): Option<Doc> {
    var d :- ScanValue(Mode(ExponentLimit(|raw|), rules), MAX_DEPTH, SkipSpace(raw));
    if SkipSpace(d.1) == [] then Some(d.0) else None
  }

  /** The canonical bytes of a JSON text, or a refusal. */
  function Canonicalize(rules: Rules, raw: Bytes): Option<Bytes> {
    var d :- Parse(rules, raw);
    Some(Canon(d))
  }
}
