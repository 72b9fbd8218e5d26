/** Scope-local canonical IDs: validation, mounting under a root, and generated
    candidates. */
module ResourceIds {
  import opened Utf8
  import opened Wrappers
  import opened Splitting
  import opened Segments

  /** One or more canonical segments joined by slashes. */
  predicate CanonicalId(id: Bytes) { AllCanonical(Split(id, SLASH)) }

  predicate AllCanonical(parts: seq<Bytes>) { forall i :: 0 <= i < |parts| ==> CanonicalSegment(parts[i]) }

  /** Bytes a canonical ID is made of. */
  predicate IdText(t: Bytes) {
    forall i :: 0 <= i < |t| ==> IsSegmentByte(t[i]) || t[i] == SLASH
  }

  lemma {:induction false} CanonicalIdText(id: Bytes)
    requires CanonicalId(id)
    ensures id != [] && IdText(id)
    decreases |id|
  {
    hide CanonicalSegment, IsSegmentByte;
    var i := IndexOf(id, SLASH);
    var parts := Split(id, SLASH);
    CanonicalBytes(parts[0]);
    if i < |id| {
      assert parts[1..] == Split(id[i + 1..], SLASH);
      CanonicalIdText(id[i + 1..]);
      IdTextJoined(id[..i], id[i + 1..]);
      assert id == id[..i] + ([SLASH] + id[i + 1..]);
    } else {
      assert parts[0] == id;
    }
  }

  lemma IdTextJoined(a: Bytes, b: Bytes)
    requires IdText(a) && IdText(b)
    ensures IdText(a + ([SLASH] + b))
  {
    hide IsSegmentByte;
  }

  /** No canonical ID holds a query or fragment mark, so the check for one
      refuses nothing the grammar would admit. */
  lemma IdBytes(id: Bytes)
    requires CanonicalId(id)
    ensures id != [] && IsAscii(id) && QUESTION !in id && HASH !in id && IdText(id)
  {
    hide CanonicalId;
    CanonicalIdText(id);
  }

  /** The loop over the segments of an ID. */
  method ValidateCanonicalResourceId(id: Bytes) returns (ok: bool)
    ensures ok == CanonicalId(id)
  {
    hide CanonicalId;
    if QUESTION in id || HASH in id {
      if CanonicalId(id) { IdBytes(id); }
      return false;
    }
    var rest := id;
    while true
      invariant CanonicalId(id) == CanonicalId(rest)
      decreases |rest|
    {
      var i := IndexOf(rest, SLASH);
      CanonicalIdStep(rest);
      var valid := ValidateCanonicalSegment(rest[..i]);
      if !valid {
        return false;
      }
      if i == |rest| {
        return true;
      }
      rest := rest[i + 1..];
    }
  }

  /** A canonical ID is a canonical segment, alone or before a slash and another
      canonical ID. */
  lemma CanonicalIdStep(id: Bytes)
    ensures var i := IndexOf(id, SLASH);
            CanonicalId(id) <==> CanonicalSegment(id[..i]) && (i < |id| ==> CanonicalId(id[i + 1..]))
  {
    hide CanonicalSegment, AllCanonical;
    var i := IndexOf(id, SLASH);
    if i == |id| {
      assert id[..i] == id;
      OneCanonical(id);
    } else {
      ConsCanonical(id[..i], Split(id[i + 1..], SLASH));
    }
  }

  lemma OneCanonical(x: Bytes)
    ensures AllCanonical([x]) <==> CanonicalSegment(x)
  {
    hide CanonicalSegment;
    assert [x][0] == x;
  }

  lemma ConsCanonical(x: Bytes, rest: seq<Bytes>)
    ensures AllCanonical([x] + rest) <==> CanonicalSegment(x) && AllCanonical(rest)
  {
    hide CanonicalSegment;
    var all := [x] + rest;
    assert all[0] == x;
    assert forall i :: 0 <= i < |rest| ==> all[i + 1] == rest[i];
  }

  // ---- mounting ----

  /** root/id is canonical exactly when both parts are. */
  lemma MountCanonical(root: Bytes, id: Bytes)
    ensures CanonicalId(root + ([SLASH] + id)) <==> CanonicalId(root) && CanonicalId(id)
  {
    hide CanonicalSegment;
    SplitConcat(root, SLASH, id);
    var a, b := Split(root, SLASH), Split(id, SLASH);
    var all := Split(root + ([SLASH] + id), SLASH);
    assert all == a + b;
    assert forall i :: 0 <= i < |a| ==> all[i] == a[i];
    assert forall i :: 0 <= i < |b| ==> all[|a| + i] == b[i];
  }

  method MountCanonicalResourceId(root: Bytes, id: Bytes) returns (r: Option<Bytes>)
    ensures r.Some? <==> CanonicalId(id) && (root == [] || CanonicalId(root))
    ensures r.Some? ==> CanonicalId(r.value) && r.value == if root == [] then id else root + ([SLASH] + id)
  {
    hide CanonicalId;
    var ok := ValidateCanonicalResourceId(id);
    if !ok {
      return None;
    }
    if root == [] {
      return Some(id);
    }
    ok := ValidateCanonicalResourceId(root);
    if !ok {
      return None;
    }
    MountCanonical(root, id);
    r := Some(root + ([SLASH] + id));
  }

  // ---- generated candidates ----

  const GENERATED_INITIAL_LENGTH: nat := 6
  const GENERATED_MAX_LENGTH: nat := 26
  const GENERATED_ROOT_MAX_BYTES: nat := 1024 - 6 - 1 - GENERATED_MAX_LENGTH

  /** Lowercase letters and the digits 2 to 7. */
  function AlphabetByte(v: int): (c: byte)
    requires 0 <= v < 32
    ensures IsAlphanumeric(c)
  {
    if v < 26 then 0x61 + v else 0x32 + v - 26
  }

  function Masked(entropy: Bytes): (s: Bytes)
    ensures |s| == |entropy| && forall i :: 0 <= i < |s| ==> IsAlphanumeric(s[i])
  {
    seq(|entropy|, i requires 0 <= i < |entropy| => AlphabetByte(entropy[i] % 32))
  }

  lemma {:induction false} EncodeAlphanumeric(s: Bytes)
    requires forall i :: 0 <= i < |s| ==> IsAlphanumeric(s[i])
    ensures EncodeSegment(s) == s
  {
    if s != [] {
      EncodeAlphanumeric(s[1..]);
      assert s == [s[0]] + s[1..];
    }
  }

  lemma AlphanumericSegment(s: Bytes)
    requires s != [] && forall i :: 0 <= i < |s| ==> IsAlphanumeric(s[i])
    ensures CanonicalSegment(s) && CanonicalId(s)
  {
    EncodeAlphanumeric(s);
    DecodeEncoded(s);
    AsciiScalars(s);
    assert SLASH !in s;
    assert Split(s, SLASH) == [s];
  }

  predicate ValidGeneratedRoot(root: Bytes) {
    root == [] || (CanonicalId(root) && |root| <= GENERATED_ROOT_MAX_BYTES)
  }

  /** A candidate from as many entropy bytes as it has characters: always a
      canonical ID, and short enough for a private six-byte locator prefix. */
  method GeneratedResourceIdCandidate(root: Bytes, length: int, entropy: Bytes) returns (r: Option<Bytes>)
    ensures r.Some? <==> 6 <= length <= 26 && (root == [] || (CanonicalId(root) && |root| <= 991)) && |entropy| >= length
    ensures r.Some? ==> CanonicalId(r.value) && 6 + |r.value| <= 1024
    ensures r.Some? ==> r.value == (if root == [] then [] else root + [SLASH]) + Masked(entropy[..length])
  {
    hide CanonicalId, Masked;
    if length < GENERATED_INITIAL_LENGTH || length > GENERATED_MAX_LENGTH {
      return None;
    }
    var okRoot := ValidateGeneratedRoot(root);
    if !okRoot {
      return None;
    }
    if |entropy| < length {
      return None;
    }
    var suffix := MaskedSuffix(entropy[..length]);
    AlphanumericId(suffix);
    r := MountCanonicalResourceId(root, suffix);
    assert root + ([SLASH] + suffix) == root + [SLASH] + suffix;
  }

  lemma AlphanumericId(s: Bytes)
    requires s != [] && forall i :: 0 <= i < |s| ==> IsAlphanumeric(s[i])
    ensures CanonicalId(s)
  {
    hide CanonicalId, IsAlphanumeric;
    AlphanumericSegment(s);
  }

  /** Draw the entropy into a buffer and mask it there. */
  method MaskedSuffix(entropy: Bytes) returns (suffix: Bytes)
    ensures suffix == Masked(entropy)
  {
    hide Masked;
    var buf := new byte[|entropy|](i requires 0 <= i < |entropy| => entropy[i]);
    MaskInPlace(buf, entropy);
    suffix := buf[..];
  }

  method ValidateGeneratedRoot(root: Bytes) returns (ok: bool)
    ensures ok == ValidGeneratedRoot(root)
  {
    hide CanonicalId;
    if root == [] {
      return true;
    }
    var canonical := ValidateCanonicalResourceId(root);
    return canonical && |root| <= GENERATED_ROOT_MAX_BYTES;
  }

  /** Replace every entropy byte by an alphabet character, in the buffer. */
  method MaskInPlace(buf: array<byte>, ghost entropy: Bytes)
    requires buf[..] == entropy
    modifies buf
    ensures buf[..] == Masked(entropy)
  {
    var i := 0;
    while i < buf.Length
      invariant 0 <= i <= buf.Length
      invariant forall k :: 0 <= k < i ==> buf[k] == AlphabetByte(entropy[k] % 32)
      invariant forall k :: i <= k < buf.Length ==> buf[k] == entropy[k]
    {
      buf[i] := AlphabetByte(buf[i] % 32);
      i := i + 1;
    }
  }
}
