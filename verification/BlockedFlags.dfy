/** The batched is_blocked read: repeats and blanks dropped, ids asked about in
    chunks, one answer map. */
module BlockedFlags {
  import opened Wrappers
  import opened Graphs
  import opened Seqs

  const BLOCKED_FLAGS_CHUNK: nat := 100

  /** One annotated id; no flag when it names no row. */
  datatype Item = Item(id: Id, isBlocked: Option<bool>)

  /** The annotator role over one snapshot of flags. It keeps the requests it
      was sent; calls whose number is in `failing` fail; every answer carries
      the stray items as well, whatever was asked. */
  class Annotator {
    const flags: map<Id, bool>
    const failing: set<nat>
    const strays: seq<Item>
    var calls: seq<seq<Id>>

    constructor (flags: map<Id, bool>, failing: set<nat>, strays: seq<Item>)
      ensures this.flags == flags && this.failing == failing && this.strays == strays && calls == []
    {
      this.flags, this.failing, this.strays, calls := flags, failing, strays, [];
    }

    method AnnotateBlocking(ids: seq<Id>) returns (r: Option<seq<Item>>)
      modifies this
      ensures calls == old(calls) + [ids]
      ensures r.None? <==> |old(calls)| in failing
      ensures r.Some? ==> forall item :: item in r.value <==>
                                         item in strays || (item.id in ids && item.isBlocked == FlagOf(flags, item.id))
    {
      var failed := |calls| in failing;
      calls := calls + [ids];
      if failed {
        return None;
      }
      var items := strays;
      var i := 0;
      while i < |ids|
        invariant 0 <= i <= |ids|
        invariant forall item :: item in items <==>
                                 item in strays || (item.id in ids[..i] && item.isBlocked == FlagOf(flags, item.id))
      {
        assert ids[..i + 1] == ids[..i] + [ids[i]];
        items := items + [Item(ids[i], FlagOf(flags, ids[i]))];
        i := i + 1;
      }
      assert ids[..i] == ids;
      r := Some(items);
    }
  }

  function FlagOf(flags: map<Id, bool>, x: Id): Option<bool> {
    if x in flags then Some(flags[x]) else None
  }

  /** The ids without blanks, each at its first mention. */
  function FirstMentions(ids: seq<Id>): (r: seq<Id>)
    ensures forall x :: x in r <==> x in ids && x != ""
  {
    if ids == [] then []
    else
      var sofar := FirstMentions(ids[..|ids| - 1]);
      var x := ids[|ids| - 1];
      assert ids == ids[..|ids| - 1] + [x];
      if x == "" || x in sofar then sofar else sofar + [x]
  }

  lemma {:induction false} FirstMentionsDistinct(ids: seq<Id>)
    ensures Distinct(FirstMentions(ids))
  {
    if ids != [] { FirstMentionsDistinct(ids[..|ids| - 1]); }
  }

  /** A list cut into consecutive requests of at most `size`. */
  function Chunks(ids: seq<Id>, size: nat): (r: seq<seq<Id>>)
    requires size > 0
    decreases |ids|
  {
    if ids == [] then []
    else if |ids| <= size then [ids]
    else [ids[..size]] + Chunks(ids[size..], size)
  }

  function Flatten(chunks: seq<seq<Id>>): seq<Id> {
    if chunks == [] then [] else chunks[0] + Flatten(chunks[1..])
  }

  /** Cutting loses, repeats and reorders nothing, and every request is
      nonempty and within the size. */
  lemma {:induction false} ChunksCover(ids: seq<Id>, size: nat)
    requires size > 0
    ensures Flatten(Chunks(ids, size)) == ids
    ensures forall c :: c in Chunks(ids, size) ==> 0 < |c| <= size
    decreases |ids|
  {
    if |ids| > size {
      ChunksCover(ids[size..], size);
      Halves(ids, size);
      assert Chunks(ids, size)[1..] == Chunks(ids[size..], size);
    } else if ids != [] {
      assert Chunks(ids, size) == [ids];
      assert Flatten([ids]) == ids + Flatten([ids][1..]);
      assert ids + [] == ids;
    }
  }

  method DistinctIds(ids: seq<Id>) returns (distinct: seq<Id>)
    ensures distinct == FirstMentions(ids)
  {
    distinct := [];
    var seen: set<Id> := {};
    var i := 0;
    while i < |ids|
      invariant 0 <= i <= |ids| && distinct == FirstMentions(ids[..i])
      invariant forall x :: x in seen <==> x in distinct
    {
      assert ids[..i + 1][..i] == ids[..i];
      if ids[i] != "" && ids[i] !in seen {
        seen := seen + {ids[i]};
        distinct := distinct + [ids[i]];
      }
      i := i + 1;
    }
    assert ids[..i] == ids;
  }

  /** True flags of requested ids, and nothing else. */
  ghost predicate Truthful(out: map<Id, bool>, flags: map<Id, bool>, seen: set<Id>) {
    forall x :: x in out ==> x in seen && x in flags && out[x] == flags[x]
  }

  /** The flags of these ids are in. */
  ghost predicate Answered(out: map<Id, bool>, flags: map<Id, bool>, ids: seq<Id>) {
    forall x :: x in ids && x in flags ==> x in out
  }

  method Fold(out0: map<Id, bool>, items: seq<Item>, seen: set<Id>, ghost flags: map<Id, bool>, ghost asked: seq<Id>)
      returns (out: map<Id, bool>)
    requires forall item :: item in items && item.id in seen ==> item.isBlocked == FlagOf(flags, item.id)
    requires forall x :: x in asked ==> x in seen && Item(x, FlagOf(flags, x)) in items
    requires Truthful(out0, flags, seen)
    ensures Truthful(out, flags, seen) && Answered(out, flags, asked) && out0.Keys <= out.Keys
  {
    out := out0;
    for i := 0 to |items|
      invariant Truthful(out, flags, seen) && out0.Keys <= out.Keys
      invariant forall j :: 0 <= j < i && items[j].id in seen && items[j].isBlocked.Some? ==> items[j].id in out
    {
      var item := items[i];
      assert item in items;
      if item.isBlocked.Some? && item.id in seen {
        out := out[item.id := item.isBlocked.value];
      }
    }
    forall x | x in asked && x in flags ensures x in out {
      var j :| 0 <= j < |items| && items[j] == Item(x, FlagOf(flags, x));
    }
  }

  /** The annotator tells the truth about the ids it is asked for; its strays
      may say anything of others. */
  ghost predicate Honest(annotator: Annotator, ids: seq<Id>) {
    forall item :: item in annotator.strays && item.id in ids && item.id != "" ==>
                     item.isBlocked == FlagOf(annotator.flags, item.id)
  }

  /** The whole read: the pointwise flag map over the requested ids, wherever the
      chunk boundaries fall and whatever else is answered, from requests that
      are the distinct nonblank ids in order; it fails exactly when one of its
      calls does. */
  method BlockedFlags(annotator: Annotator, ids: seq<Id>) returns (r: Option<map<Id, bool>>)
    requires annotator.calls == [] && Honest(annotator, ids)
    modifies annotator
    ensures annotator.calls <= Chunks(FirstMentions(ids), 100)
    ensures r.Some? ==> annotator.calls == Chunks(FirstMentions(ids), 100)
    ensures r.None? <==> exists k :: 0 <= k < |Chunks(FirstMentions(ids), 100)| && k in annotator.failing
    ensures r.Some? ==> r.value == map x | x in ids && x != "" && x in annotator.flags :: annotator.flags[x]
  {
    hide Chunks, FlagOf, Answered, FirstMentions;
    var distinct := DistinctIds(ids);
    var seen := set x | x in distinct;
    var out: map<Id, bool> := map[];
    ghost var all := Chunks(distinct, BLOCKED_FLAGS_CHUNK);
    NothingAnswered(annotator.flags, distinct);
    var start := 0;
    while start < |distinct|
      invariant 0 <= start <= |distinct|
      invariant annotator.calls + Chunks(distinct[start..], BLOCKED_FLAGS_CHUNK) == all
      invariant forall k :: 0 <= k < |annotator.calls| ==> k !in annotator.failing
      invariant Truthful(out, annotator.flags, seen) && Answered(out, annotator.flags, distinct[..start])
    {
      var end := if start + BLOCKED_FLAGS_CHUNK < |distinct| then start + BLOCKED_FLAGS_CHUNK else |distinct|;
      var chunk := distinct[start..end];
      ghost var before, sofar := annotator.calls, out;
      NextChunk(distinct, start, end);
      var items := annotator.AnnotateBlocking(chunk);
      Assoc(before, [chunk], Chunks(distinct[end..], BLOCKED_FLAGS_CHUNK));
      if items.None? {
        return None;
      }
      out := Fold(out, items.value, seen, annotator.flags, chunk);
      assert distinct[..end] == distinct[..start] + chunk;
      AnsweredMore(sofar, out, annotator.flags, distinct[..start], chunk);
      start := end;
    }
    assert distinct[..start] == distinct && distinct[start..] == [];
    NoChunks();
    assert annotator.calls + [] == annotator.calls;
    AllAnswered(out, annotator.flags, distinct, seen);
    r := Some(out);
  }

  lemma NothingAnswered(flags: map<Id, bool>, distinct: seq<Id>)
    ensures Answered(map[], flags, distinct[..0])
  {
  }

  lemma AnsweredMore(before: map<Id, bool>, after: map<Id, bool>, flags: map<Id, bool>, a: seq<Id>, b: seq<Id>)
    requires Answered(before, flags, a) && Answered(after, flags, b) && before.Keys <= after.Keys
    ensures Answered(after, flags, a + b)
  {
  }

  lemma AllAnswered(out: map<Id, bool>, flags: map<Id, bool>, distinct: seq<Id>, seen: set<Id>)
    requires Truthful(out, flags, seen) && Answered(out, flags, distinct) && forall x :: x in seen <==> x in distinct
    ensures out == map x | x in distinct && x in flags :: flags[x]
  {
  }

  lemma NoChunks()
    ensures Chunks([], BLOCKED_FLAGS_CHUNK) == []
  {
  }

  /** Over all its calls the read sends each nonblank id once, in order of
      first mention, at most a chunk at a time. */
  lemma RequestsAreClean(ids: seq<Id>)
    ensures var calls := Chunks(FirstMentions(ids), 100);
            && Flatten(calls) == FirstMentions(ids) && Distinct(Flatten(calls)) && "" !in Flatten(calls)
            && forall c :: c in calls ==> 0 < |c| <= 100
  {
    ChunksCover(FirstMentions(ids), BLOCKED_FLAGS_CHUNK);
    FirstMentionsDistinct(ids);
  }

  lemma NextChunk(ids: seq<Id>, start: nat, end: nat)
    requires start < |ids| && end == if start + BLOCKED_FLAGS_CHUNK < |ids| then start + BLOCKED_FLAGS_CHUNK else |ids|
    ensures Chunks(ids[start..], BLOCKED_FLAGS_CHUNK) == [ids[start..end]] + Chunks(ids[end..], BLOCKED_FLAGS_CHUNK)
  {
    var rest := ids[start..];
    if |rest| > BLOCKED_FLAGS_CHUNK {
      assert rest[..BLOCKED_FLAGS_CHUNK] == ids[start..end];
      assert rest[BLOCKED_FLAGS_CHUNK..] == ids[end..];
    } else {
      assert rest == ids[start..end] && ids[end..] == [];
    }
  }
}
