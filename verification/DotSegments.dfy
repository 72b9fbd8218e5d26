/** Dot-segment removal, set against the algorithm of section 5.2.4 of
    RFC 3986. */
module DotSegments {
  import opened Utf8
  import opened Seqs
  import opened Splitting
  import opened UrlText

  const DOT_SEGMENT: Bytes := [DOT]
  const DOTS_SEGMENT: Bytes := [DOT, DOT]

  // ---- over segments ----

  function Ended(out: seq<Bytes>, last: bool): seq<Bytes> { if last then out + [[]] else out }

  function Popped(out: seq<Bytes>): seq<Bytes> { if |out| > 1 then out[..|out| - 1] else out }

  /** One segment of the loop: what the output becomes. */
  function Step(out: seq<Bytes>, segment: Bytes, last: bool): seq<Bytes> {
    if segment == DOT_SEGMENT then Ended(out, last)
    else if segment == DOTS_SEGMENT then Ended(Popped(out), last)
    else out + [segment]
  }

  function Steps(segments: seq<Bytes>, out: seq<Bytes>): seq<Bytes>
    decreases |segments|
  {
    if segments == [] then out else Steps(segments[1..], Step(out, segments[0], |segments| == 1))
  }

  function WithoutDots(path: Bytes): Bytes { Join(Steps(Split(path, SLASH), []), SLASH) }

  method RemoveDotSegments(path: Bytes) returns (r: Bytes)
    ensures r == WithoutDots(path)
  {
    var segments := Split(path, SLASH);
    var out: seq<Bytes> := [];
    for i := 0 to |segments|
      invariant Steps(segments[i..], out) == Steps(segments, [])
    {
      var last := i == |segments| - 1;
      assert segments[i..][1..] == segments[i + 1..];
      if segments[i] == DOT_SEGMENT {
        if last { out := out + [[]]; }
      } else if segments[i] == DOTS_SEGMENT {
        if |out| > 1 { out := out[..|out| - 1]; }
        if last { out := out + [[]]; }
      } else {
        out := out + [segments[i]];
      }
    }
    r := Join(out, SLASH);
  }

  // ---- nothing is left to remove ----

  predicate IsDots(s: Bytes) { s == DOT_SEGMENT || s == DOTS_SEGMENT }

  predicate Clean(out: seq<Bytes>) {
    forall i :: 0 <= i < |out| ==> !IsDots(out[i]) && SLASH !in out[i]
  }

  lemma {:induction false} StepsClean(segments: seq<Bytes>, out: seq<Bytes>)
    requires Free(segments, SLASH) && Clean(out)
    ensures Clean(Steps(segments, out)) && (segments != [] ==> Steps(segments, out) != [])
    decreases |segments|
  {
    if segments != [] { StepsClean(segments[1..], Step(out, segments[0], |segments| == 1)); }
  }

  lemma {:induction false} StepsOfClean(segments: seq<Bytes>, out: seq<Bytes>)
    requires Clean(segments)
    ensures Steps(segments, out) == out + segments
    decreases |segments|
  {
    if segments == [] {
      assert out + [] == out;
    } else {
      assert !IsDots(segments[0]);
      StepsOfClean(segments[1..], out + [segments[0]]);
      Assoc(out, [segments[0]], segments[1..]);
      assert segments == [segments[0]] + segments[1..];
    }
  }

  /** A path none of whose segments is . or .. is left as it is. */
  lemma CleanPathKept(path: Bytes)
    requires Clean(Split(path, SLASH))
    ensures WithoutDots(path) == path
  {
    StepsOfClean(Split(path, SLASH), []);
    assert [] + Split(path, SLASH) == Split(path, SLASH);
    JoinSplit(path, SLASH);
  }

  lemma WithoutDotsClean(path: Bytes)
    ensures Clean(Split(WithoutDots(path), SLASH))
  {
    SplitFree(path, SLASH);
    StepsClean(Split(path, SLASH), []);
    SplitJoin(Steps(Split(path, SLASH), []), SLASH);
  }

  /** Removing dot segments twice is removing them once, on every path. */
  lemma WithoutDotsIdempotent(path: Bytes)
    ensures WithoutDots(WithoutDots(path)) == WithoutDots(path)
  {
    hide WithoutDots;
    WithoutDotsClean(path);
    CleanPathKept(WithoutDots(path));
  }

  // ---- the algorithm of the RFC, on texts ----

  function DropLastSegment(output: Bytes): Bytes {
    var c := CutLast(output, SLASH);
    if c.found then c.before else []
  }

  /** The input buffer begins with /name, name a complete path segment. */
  predicate Begins(input: Bytes, name: Bytes) {
    [SLASH] + name + [SLASH] <= input || input == [SLASH] + name
  }

  /** Where the first segment of the input buffer ends, its initial slash
      included. */
  function FirstSegmentEnd(input: Bytes): (n: nat)
    requires input != []
    ensures 0 < n <= |input|
  {
    if input[0] == SLASH then 1 + IndexOf(input[1..], SLASH) else IndexOf(input, SLASH)
  }

  /** Replace /name or /name/ at the front by a slash. */
  function Collapsed(input: Bytes, name: Bytes): (r: Bytes)
    requires Begins(input, name) && name != []
    ensures |r| < |input|
  {
    if |input| == 1 + |name| then [SLASH] else input[1 + |name|..]
  }

  /** Steps 2A to 2E of section 5.2.4. */
  function RemoveDotsRfc(input: Bytes, output: Bytes): Bytes
    decreases |input|
  {
    if input == [] then output
    else if DOTS_SEGMENT + [SLASH] <= input then RemoveDotsRfc(input[3..], output)
    else if DOT_SEGMENT + [SLASH] <= input then RemoveDotsRfc(input[2..], output)
    else if Begins(input, DOT_SEGMENT) then RemoveDotsRfc(Collapsed(input, DOT_SEGMENT), output)
    else if Begins(input, DOTS_SEGMENT) then RemoveDotsRfc(Collapsed(input, DOTS_SEGMENT), DropLastSegment(output))
    else if IsDots(input) then RemoveDotsRfc([], output)
    else RemoveDotsRfc(input[FirstSegmentEnd(input)..], output + input[..FirstSegmentEnd(input)])
  }

  /** The buffer at the front of which the segment s stands. */
  predicate Front(s: Bytes, rest: Bytes) { SLASH !in s && (rest == [] || rest[0] == SLASH) }

  lemma BeginsMeans(s: Bytes, rest: Bytes, name: Bytes)
    requires Front(s, rest) && SLASH !in name
    ensures Begins([SLASH] + s + rest, name) <==> s == name
  {
    var input := [SLASH] + s + rest;
    if s == name {
      assert rest != [] ==> rest == [SLASH] + rest[1..];
      assert rest != [] ==> input == [SLASH] + name + [SLASH] + rest[1..];
      assert rest == [] ==> input == [SLASH] + name;
    }
    if input == [SLASH] + name {
      assert name == input[1..] == s + rest;
      assert forall c :: c in rest ==> c in s + rest;
      assert rest == [];
    } else if [SLASH] + name + [SLASH] <= input {
      BeginsPrefix(s, rest, name);
    }
  }

  lemma BeginsPrefix(s: Bytes, rest: Bytes, name: Bytes)
    requires Front(s, rest) && SLASH !in name && [SLASH] + name + [SLASH] <= [SLASH] + s + rest
    ensures s == name
  {
    var input := [SLASH] + s + rest;
    var head := [SLASH] + name + [SLASH];
    assert forall i :: 0 <= i < |head| ==> head[i] == input[i];
    assert forall i :: 0 <= i < |name| ==> name[i] == head[1 + i];
    assert forall i :: 0 <= i < |s| ==> s[i] == input[1 + i];
    assert input[1 + |name|] == head[1 + |name|] == SLASH;
    assert forall i :: 0 <= i < |name| ==> input[1 + i] == name[i];
    assert rest != [] ==> input[1 + |s|] == SLASH;
    assert |s| == |name|;
  }

  lemma FirstSegmentIs(s: Bytes, rest: Bytes)
    requires Front(s, rest)
    ensures FirstSegmentEnd([SLASH] + s + rest) == 1 + |s|
  {
    var input := [SLASH] + s + rest;
    assert input[1..] == s + rest;
    if rest == [] {
      assert s + rest == s;
    } else {
      IndexOfFirst(s, SLASH, rest[1..]);
      assert rest == [SLASH] + rest[1..];
    }
  }

  function AtLeastSlash(rest: Bytes): Bytes { if rest == [] then [SLASH] else rest }

  /** One round of the algorithm on a buffer that begins with a slash. */
  lemma RfcStep(s: Bytes, rest: Bytes, output: Bytes)
    requires Front(s, rest)
    ensures RemoveDotsRfc([SLASH] + s + rest, output) ==
            if s == DOT_SEGMENT then RemoveDotsRfc(AtLeastSlash(rest), output)
            else if s == DOTS_SEGMENT then RemoveDotsRfc(AtLeastSlash(rest), DropLastSegment(output))
            else RemoveDotsRfc(rest, output + ([SLASH] + s))
  {
    hide Begins, DropLastSegment, FirstSegmentEnd;
    var input := [SLASH] + s + rest;
    BeginsMeans(s, rest, DOT_SEGMENT);
    BeginsMeans(s, rest, DOTS_SEGMENT);
    FirstSegmentIs(s, rest);
    Cut([SLASH] + s, rest);
    assert input[0] == SLASH;
    assert |input| == 1 + |s| <==> rest == [];
  }

  // ---- the two agree ----

  /** The output list of an absolute path: it starts with an empty segment. */
  predicate Rooted(out: seq<Bytes>) { out != [] && out[0] == [] && Free(out, SLASH) }

  lemma Pushed(out: seq<Bytes>, s: Bytes)
    requires Rooted(out)
    ensures Join(out + [s], SLASH) == Join(out, SLASH) + ([SLASH] + s)
  {
    JoinConcat(out, [s], SLASH);
  }

  lemma PoppedText(out: seq<Bytes>)
    requires Rooted(out)
    ensures Rooted(Popped(out)) && DropLastSegment(Join(out, SLASH)) == Join(Popped(out), SLASH)
  {
    hide CutLast;
    var n := |out| - 1;
    if n > 0 {
      var front := out[..n];
      assert out == front + [out[n]];
      Pushed(front, out[n]);
      CutLastMarked(Join(front, SLASH), SLASH, out[n]);
    }
  }

  lemma RfcSlash(output: Bytes)
    ensures RemoveDotsRfc([SLASH], output) == output + [SLASH]
  {
    RfcStep([], [], output);
    assert [SLASH] + [] + [] == [SLASH];
    assert [SLASH] + [] == [SLASH];
  }

  /** The rest of the input buffer after the first of these segments. */
  function Following(segments: seq<Bytes>): Bytes
    requires segments != []
  {
    if |segments| == 1 then [] else [SLASH] + Join(segments[1..], SLASH)
  }

  lemma {:induction false} RfcAgrees(segments: seq<Bytes>, out: seq<Bytes>)
    requires segments != [] && Free(segments, SLASH) && Rooted(out)
    ensures RemoveDotsRfc([SLASH] + Join(segments, SLASH), Join(out, SLASH)) == Join(Steps(segments, out), SLASH)
    decreases |segments|
  {
    hide RemoveDotsRfc, DropLastSegment, Popped;
    var s, rest := segments[0], Following(segments);
    var last := |segments| == 1;
    assert [SLASH] + Join(segments, SLASH) == [SLASH] + s + rest by {
      Assoc([SLASH], s, rest);
      assert last ==> s + [] == s;
    }
    RfcStep(s, rest, Join(out, SLASH));
    Pushed(out, s);
    PoppedText(out);
    var next := Step(out, s, last);
    if last {
      LastStep(out, s);
      assert Steps(segments, out) == next;
    } else {
      assert Rooted(next);
      RfcAgrees(segments[1..], next);
    }
  }

  lemma LastStep(out: seq<Bytes>, s: Bytes)
    requires Rooted(out) && SLASH !in s
    ensures Join(Step(out, s, true), SLASH) ==
            if s == DOT_SEGMENT then RemoveDotsRfc([SLASH], Join(out, SLASH))
            else if s == DOTS_SEGMENT then RemoveDotsRfc([SLASH], DropLastSegment(Join(out, SLASH)))
            else RemoveDotsRfc([], Join(out, SLASH) + ([SLASH] + s))
  {
    hide DropLastSegment, Popped;
    PoppedText(out);
    RfcSlash(Join(out, SLASH));
    RfcSlash(Join(Popped(out), SLASH));
    Pushed(out, []);
    Pushed(Popped(out), []);
    Pushed(out, s);
    assert [SLASH] + [] == [SLASH];
  }

  lemma FirstEmpty(segments: seq<Bytes>)
    requires segments != []
    ensures Steps([[]] + segments, []) == Steps(segments, [[]])
  {
    var all := [[]] + segments;
    assert all[1..] == segments;
    assert Step([], all[0], false) == [[]];
  }

  /** On every absolute path the loop computes what section 5.2.4 of RFC 3986
      defines. */
  lemma RemovesAsRfc(path: Bytes)
    requires path != [] && path[0] == SLASH
    ensures WithoutDots(path) == RemoveDotsRfc(path, [])
  {
    hide RemoveDotsRfc;
    var segments := Split(path[1..], SLASH);
    assert path == [] + ([SLASH] + path[1..]);
    SplitFirst([], SLASH, path[1..]);
    FirstEmpty(segments);
    SplitFree(path[1..], SLASH);
    RfcAgrees(segments, [[]]);
    JoinSplit(path[1..], SLASH);
  }
}
