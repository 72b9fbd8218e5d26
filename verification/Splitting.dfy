/** strings.Split and strings.Join over one separator byte. */
module Splitting {
  import opened Utf8
  import opened Seqs

  /** The first position of b in t, or |t| when there is none. */
  function IndexOf(t: Bytes, b: byte): (i: nat)
    ensures i <= |t| && b !in t[..i]
    ensures i < |t| ==> t[i] == b
    ensures i == |t| <==> b !in t
  {
    if t == [] || t[0] == b then 0
    else
      assert t == [t[0]] + t[1..];
      1 + IndexOf(t[1..], b)
  }

  /** The parts of t between separators: always at least one. */
  function Split(t: Bytes, b: byte): (parts: seq<Bytes>)
    ensures |parts| >= 1
    decreases |t|
  {
    var i := IndexOf(t, b);
    if i == |t| then [t] else [t[..i]] + Split(t[i + 1..], b)
  }

  function Join(parts: seq<Bytes>, b: byte): Bytes {
    if parts == [] then []
    else if |parts| == 1 then parts[0]
    else parts[0] + ([b] + Join(parts[1..], b))
  }

  predicate Free(parts: seq<Bytes>, b: byte) {
    forall i :: 0 <= i < |parts| ==> b !in parts[i]
  }

  lemma {:induction false} IndexOfFirst(a: Bytes, b: byte, rest: Bytes)
    requires b !in a
    ensures IndexOf(a + ([b] + rest), b) == |a|
  {
    if a == [] {
      assert a + ([b] + rest) == [b] + rest;
    } else {
      IndexOfFirst(a[1..], b, rest);
      assert (a + ([b] + rest))[1..] == a[1..] + ([b] + rest);
    }
  }

  lemma SplitFirst(a: Bytes, b: byte, rest: Bytes)
    requires b !in a
    ensures Split(a + ([b] + rest), b) == [a] + Split(rest, b)
  {
    IndexOfFirst(a, b, rest);
    var t := a + ([b] + rest);
    assert t[..|a|] == a && t[|a| + 1..] == rest;
  }

  lemma {:induction false} SplitFree(t: Bytes, b: byte)
    ensures Free(Split(t, b), b)
    decreases |t|
  {
    var i := IndexOf(t, b);
    if i < |t| { SplitFree(t[i + 1..], b); }
  }

  /** Joining what was split gives the text back. */
  lemma {:induction false} JoinSplit(t: Bytes, b: byte)
    ensures Join(Split(t, b), b) == t
    decreases |t|
  {
    hide Join;
    var i := IndexOf(t, b);
    if i < |t| {
      JoinSplit(t[i + 1..], b);
      JoinCons(t[..i], Split(t[i + 1..], b), b);
      Around(t, i);
    } else {
      JoinOne(t, b);
    }
  }

  lemma JoinOne(t: Bytes, b: byte)
    ensures Join([t], b) == t
  {
  }

  lemma JoinCons(x: Bytes, rest: seq<Bytes>, b: byte)
    requires rest != []
    ensures Join([x] + rest, b) == x + ([b] + Join(rest, b))
  {
    ConsTail(x, rest);
  }

  /** Splitting what was joined gives the parts back. */
  lemma {:induction false} SplitJoin(parts: seq<Bytes>, b: byte)
    requires parts != [] && Free(parts, b)
    ensures Split(Join(parts, b), b) == parts
  {
    hide Split, Join;
    HeadTail(parts);
    if |parts| == 1 {
      assert parts == [parts[0]];
      JoinOne(parts[0], b);
      SplitOne(parts[0], b);
    } else {
      SplitJoin(parts[1..], b);
      JoinCons(parts[0], parts[1..], b);
      SplitFirst(parts[0], b, Join(parts[1..], b));
    }
  }

  lemma SplitOne(t: Bytes, b: byte)
    requires b !in t
    ensures Split(t, b) == [t]
  {
  }

  /** A separator between two texts separates their parts. */
  lemma {:induction false} SplitConcat(a: Bytes, b: byte, c: Bytes)
    ensures Split(a + ([b] + c), b) == Split(a, b) + Split(c, b)
    decreases |a|
  {
    var i := IndexOf(a, b);
    if i == |a| {
      SplitFirst(a, b, c);
    } else {
      hide Split;
      var x, rest := a[..i], a[i + 1..];
      assert a == x + ([b] + rest);
      SplitConcat(rest, b, c);
      SplitFirst(x, b, rest);
      SplitFirst(x, b, rest + ([b] + c));
      Assoc(x, [b] + rest, [b] + c);
      Assoc([b], rest, [b] + c);
      Assoc([x], Split(rest, b), Split(c, b));
    }
  }

  lemma {:induction false} JoinConcat(p: seq<Bytes>, q: seq<Bytes>, b: byte)
    requires p != [] && q != []
    ensures Join(p + q, b) == Join(p, b) + ([b] + Join(q, b))
  {
    if |p| == 1 {
      assert (p + q)[1..] == q;
    } else {
      JoinConcat(p[1..], q, b);
      assert (p + q)[1..] == p[1..] + q;
      Assoc(p[0], [b] + Join(p[1..], b), [b] + Join(q, b));
      Assoc([b], Join(p[1..], b), [b] + Join(q, b));
    }
  }
}
