/** The view of a loaded molecule: a state for each step, what is done, what is
    under way and what comes next, and the order the steps are shown in. */
module Views {
  import opened Wrappers
  import opened Seqs
  import opened Graphs
  import opened Molecules
  import opened Loading
  import opened Analyze

  datatype StepState = Done | Current | BlockedState | ReadyState | Pending

  function StateOf(x: Issue, ready: set<Id>): StepState {
    match x.status
    case Closed => Done
    case InProgress => Current
    case Blocked => BlockedState
    case _ => if x.id in ready then ReadyState else Pending
  }

  type Step = (Issue, StepState)

  /** Every node but the root, in molecule order. */
  function StepStates(rootId: Id, issues: seq<Issue>, ready: set<Id>): (r: seq<Step>)
    ensures |r| <= |issues|
    ensures forall p :: p in r ==> p.0 in issues && p.0.id != rootId && p.1 == StateOf(p.0, ready)
    ensures forall x :: x in issues && x.id != rootId ==> (x, StateOf(x, ready)) in r
  {
    if issues == [] then []
    else if issues[0].id == rootId then StepStates(rootId, issues[1..], ready)
    else [(issues[0], StateOf(issues[0], ready))] + StepStates(rootId, issues[1..], ready)
  }

  lemma {:induction false} StepStatesSnoc(rootId: Id, issues: seq<Issue>, x: Issue, ready: set<Id>)
    ensures StepStates(rootId, issues + [x], ready) ==
            if x.id == rootId then StepStates(rootId, issues, ready)
            else StepStates(rootId, issues, ready) + [(x, StateOf(x, ready))]
  {
    hide StateOf;
    if issues == [] {
      assert issues + [x] == [x];
    } else {
      var more := if x.id == rootId then [] else [(x, StateOf(x, ready))];
      StepStatesSnoc(rootId, issues[1..], x, ready);
      SnocTail(issues, x);
      Assoc([(issues[0], StateOf(issues[0], ready))], StepStates(rootId, issues[1..], ready), more);
    }
  }

  function FirstReady(steps: seq<Step>): Option<Issue> {
    if steps == [] then None
    else if steps[0].1 == ReadyState then Some(steps[0].0)
    else FirstReady(steps[1..])
  }

  function LastCurrent(steps: seq<Step>): Option<Issue> {
    if steps == [] then None
    else if steps[|steps| - 1].1 == Current then Some(steps[|steps| - 1].0)
    else LastCurrent(steps[..|steps| - 1])
  }

  lemma {:induction false} FirstReadySnoc(steps: seq<Step>, p: Step)
    ensures FirstReady(steps + [p]) ==
            if FirstReady(steps).None? && p.1 == ReadyState then Some(p.0) else FirstReady(steps)
  {
    if steps == [] {
      assert steps + [p] == [p];
    } else {
      FirstReadySnoc(steps[1..], p);
      assert (steps + [p])[1..] == steps[1..] + [p];
    }
  }

  lemma LastCurrentSnoc(steps: seq<Step>, p: Step)
    ensures LastCurrent(steps + [p]) == if p.1 == Current then Some(p.0) else LastCurrent(steps)
  {
    assert (steps + [p])[..|steps|] == steps;
  }

  /** The rows the analysis marks ready, the root included, in molecule order. */
  function ReadyRows(issues: seq<Issue>, ready: set<Id>): (r: seq<Issue>)
    ensures forall x :: x in r <==> x in issues && x.id in ready
  {
    if issues == [] then []
    else
      var n := |issues| - 1;
      assert issues == issues[..n] + [issues[n]];
      var front := ReadyRows(issues[..n], ready);
      if issues[n].id in ready then front + [issues[n]] else front
  }

  predicate IsClosedStep(rootId: Id, x: Issue) { x.id != rootId && x.status == Closed }

  /** The positions of the closed steps among the first n nodes. */
  function ClosedAt(rootId: Id, issues: seq<Issue>, n: nat): set<int>
    requires n <= |issues|
  {
    set i | 0 <= i < n && IsClosedStep(rootId, issues[i])
  }

  lemma ClosedNext(rootId: Id, issues: seq<Issue>, n: nat)
    requires n < |issues|
    ensures |ClosedAt(rootId, issues, n + 1)| == |ClosedAt(rootId, issues, n)| + if IsClosedStep(rootId, issues[n]) then 1 else 0
  {
    var a, b := ClosedAt(rootId, issues, n), ClosedAt(rootId, issues, n + 1);
    assert b == if IsClosedStep(rootId, issues[n]) then a + {n} else a;
  }

  // ---- what the states mean ----

  /** A step is done when closed, current when in progress, blocked when its
      status says so, ready when it is open and no edge holds it back, and
      pending otherwise. */
  lemma StateMeans(m: Molecule, x: Issue, ready: set<Id>)
    requires x.id in m.status && m.status[x.id] == x.status && forall y :: y in ready <==> Ready(m, y)
    ensures StateOf(x, ready) == Done <==> x.status == Closed
    ensures StateOf(x, ready) == Current <==> x.status == InProgress
    ensures StateOf(x, ready) == BlockedState <==> x.status == Blocked
    ensures StateOf(x, ready) == ReadyState <==> x.status == Open && CanStart(m, x.id)
    ensures StateOf(x, ready) == Pending <==> x.status.Other? || (x.status == Open && !CanStart(m, x.id))
  {
    hide CanStart, OpenBlockers;
    ReadyMeans(m, x.id);
  }

  /** The next step is the first that is ready. */
  lemma {:induction false} NextMeans(steps: seq<Step>, x: Issue)
    ensures FirstReady(steps) == Some(x)
       <==> exists i :: 0 <= i < |steps| && steps[i] == (x, ReadyState) && forall j :: 0 <= j < i ==> steps[j].1 != ReadyState
  {
    if steps != [] && steps[0].1 != ReadyState {
      var rest := steps[1..];
      NextMeans(rest, x);
      if i :| 0 <= i < |rest| && rest[i] == (x, ReadyState) && forall j :: 0 <= j < i ==> rest[j].1 != ReadyState {
        assert steps[i + 1] == rest[i] && forall j :: 0 < j < i + 1 ==> steps[j] == rest[j - 1];
      }
      if i :| 0 <= i < |steps| && steps[i] == (x, ReadyState) && forall j :: 0 <= j < i ==> steps[j].1 != ReadyState {
        assert rest[i - 1] == steps[i] && forall j :: 0 <= j < i - 1 ==> rest[j] == steps[j + 1];
      }
    }
  }

  predicate IsLastCurrent(steps: seq<Step>, x: Issue, i: int) {
    0 <= i < |steps| && steps[i] == (x, Current) && forall j :: i < j < |steps| ==> steps[j].1 != Current
  }

  /** The current step is the last that is in progress. */
  lemma {:induction false} CurrentMeans(steps: seq<Step>, x: Issue)
    ensures LastCurrent(steps) == Some(x) <==> exists i :: IsLastCurrent(steps, x, i)
  {
    if steps != [] {
      var n := |steps| - 1;
      if steps[n].1 == Current {
        assert IsLastCurrent(steps, steps[n].0, n);
      } else {
        CurrentMeans(steps[..n], x);
        forall i ensures IsLastCurrent(steps[..n], x, i) <==> IsLastCurrent(steps, x, i) { StillLast(steps, x, i); }
      }
    }
  }

  lemma StillLast(steps: seq<Step>, x: Issue, i: int)
    requires steps != [] && steps[|steps| - 1].1 != Current
    ensures IsLastCurrent(steps[..|steps| - 1], x, i) <==> IsLastCurrent(steps, x, i)
  {
    var front := steps[..|steps| - 1];
    assert forall j :: 0 <= j < |front| ==> front[j] == steps[j];
  }

  /** Steps keep the molecule's order. */
  lemma {:induction false} StepsInOrder(rootId: Id, a: seq<Issue>, b: seq<Issue>, ready: set<Id>)
    ensures StepStates(rootId, a + b, ready) == StepStates(rootId, a, ready) + StepStates(rootId, b, ready)
    decreases |b|
  {
    NothingViewed(rootId, b, ready);
    hide StateOf, StepStates;
    if b == [] {
      assert a + b == a && b[..0] == b;
    } else {
      var n := |b| - 1;
      StepsInOrder(rootId, a, b[..n], ready);
      StepStatesSnoc(rootId, a + b[..n], b[n], ready);
      StepStatesSnoc(rootId, b[..n], b[n], ready);
      TakeNext(b, n);
      assert b[..n + 1] == b;
      Assoc(a, b[..n], [b[n]]);
    }
  }

  lemma NoRows(ready: set<Id>)
    ensures ReadyRows([], ready) == []
  {
  }

  lemma RowsSnoc(issues: seq<Issue>, x: Issue, ready: set<Id>)
    ensures ReadyRows(issues + [x], ready) == ReadyRows(issues, ready) + if x.id in ready then [x] else []
  {
    Cut(issues, [x]);
    assert ReadyRows(issues, ready) + [] == ReadyRows(issues, ready);
  }

  /** Ready rows keep it too. */
  lemma {:induction false} RowsInOrder(a: seq<Issue>, b: seq<Issue>, ready: set<Id>)
    ensures ReadyRows(a + b, ready) == ReadyRows(a, ready) + ReadyRows(b, ready)
    decreases |b|
  {
    NoRows(ready);
    hide ReadyRows;
    if b == [] {
      assert a + b == a;
    } else {
      var n := |b| - 1;
      var front, x := b[..n], b[n];
      RowsInOrder(a, front, ready);
      RowsSnoc(front, x, ready);
      RowsSnoc(a + front, x, ready);
      Halves(b, n);
      assert b[n..] == [x];
      Assoc(a, front, [x]);
      Assoc(ReadyRows(a, ready), ReadyRows(front, ready), if x.id in ready then [x] else []);
    }
  }

  // ---- completeness ----

  function StepsAt(rootId: Id, issues: seq<Issue>, n: nat): set<int>
    requires n <= |issues|
  {
    set i | 0 <= i < n && issues[i].id != rootId
  }

  /** With distinct ids there is one step fewer than nodes once the root is
      among them. */
  lemma {:induction false} StepCount(rootId: Id, issues: seq<Issue>, r: nat, n: nat)
    requires DistinctIds(issues) && r < |issues| && issues[r].id == rootId && n <= |issues|
    ensures |StepsAt(rootId, issues, n)| == if r < n then n - 1 else n
  {
    if n > 0 {
      hide StepsAt;
      StepCount(rootId, issues, r, n - 1);
      StepsNext(rootId, issues, n - 1);
      assert issues[n - 1].id == rootId <==> n - 1 == r;
    }
  }

  lemma StepsNext(rootId: Id, issues: seq<Issue>, n: nat)
    requires n < |issues|
    ensures |StepsAt(rootId, issues, n + 1)| == |StepsAt(rootId, issues, n)| + if issues[n].id == rootId then 0 else 1
  {
    var a, b := StepsAt(rootId, issues, n), StepsAt(rootId, issues, n + 1);
    assert b == if issues[n].id == rootId then a else a + {n};
  }

  /** The closed steps are as many as the steps exactly when every step is
      closed. */
  lemma CompleteMeans(rootId: Id, issues: seq<Issue>)
    requires DistinctIds(issues) && rootId in Ids(issues)
    ensures |ClosedAt(rootId, issues, |issues|)| >= |issues| - 1
       <==> forall x :: x in issues && x.id != rootId ==> x.status == Closed
  {
    var r :| 0 <= r < |issues| && issues[r].id == rootId;
    var c, t := ClosedAt(rootId, issues, |issues|), StepsAt(rootId, issues, |issues|);
    StepCount(rootId, issues, r, |issues|);
    assert c <= t;
    if c != t { SmallerSize(c, t); }
    if c == t {
      forall x | x in issues && x.id != rootId ensures x.status == Closed {
        var i :| 0 <= i < |issues| && issues[i] == x;
        assert i in t;
      }
    } else {
      assert !(t <= c);
      var i :| i in t && i !in c;
      assert issues[i] in issues;
    }
  }

  lemma SmallerSize(c: set<int>, t: set<int>)
    requires c < t
    ensures |c| < |t|
  {
    assert t == c + (t - c);
  }

  // ---- the order steps are shown in ----

  predicate Counts(d: Dependency, inSteps: set<Id>, x: Id) {
    d.kind == DepBlocks && d.issue == x && x in inSteps && d.dependsOn in inSteps
  }

  /** How many blocking edges between steps x waits on. */
  function WaitCount(deps: seq<Dependency>, inSteps: set<Id>, x: Id): nat {
    if deps == [] then 0
    else WaitCount(deps[..|deps| - 1], inSteps, x) + if Counts(deps[|deps| - 1], inSteps, x) then 1 else 0
  }

  /** The positions of those edges. */
  function WaitsAt(deps: seq<Dependency>, inSteps: set<Id>, x: Id): set<int> {
    set i | 0 <= i < |deps| && deps[i].kind == DepBlocks && deps[i].issue == x && x in inSteps && deps[i].dependsOn in inSteps
  }

  lemma {:induction false} WaitCountMeans(deps: seq<Dependency>, inSteps: set<Id>, x: Id)
    ensures WaitCount(deps, inSteps, x) == |WaitsAt(deps, inSteps, x)|
  {
    if deps != [] {
      var n := |deps| - 1;
      WaitCountMeans(deps[..n], inSteps, x);
      hide WaitsAt;
      WaitsNext(deps, inSteps, x);
    }
  }

  lemma WaitsNext(deps: seq<Dependency>, inSteps: set<Id>, x: Id)
    requires deps != []
    ensures var n := |deps| - 1;
            |WaitsAt(deps, inSteps, x)| == |WaitsAt(deps[..n], inSteps, x)| + if Counts(deps[n], inSteps, x) then 1 else 0
  {
    var n := |deps| - 1;
    var before := WaitsAt(deps[..n], inSteps, x);
    forall i ensures i in WaitsAt(deps, inSteps, x) <==> i in before || (i == n && Counts(deps[n], inSteps, x)) {
      if 0 <= i < n { assert deps[..n][i] == deps[i]; }
    }
    assert WaitsAt(deps, inSteps, x) == if Counts(deps[n], inSteps, x) then before + {n} else before;
  }

  function WaitOf(waits: map<Id, nat>, p: Step): nat { if p.0.id in waits then waits[p.0.id] else 0 }

  method CountWaits(deps: seq<Dependency>, inSteps: set<Id>) returns (waits: map<Id, nat>)
    ensures forall x :: WaitCount(deps, inSteps, x) == if x in waits then waits[x] else 0
  {
    waits := map[];
    for i := 0 to |deps|
      invariant forall x :: WaitCount(deps[..i], inSteps, x) == if x in waits then waits[x] else 0
    {
      var d := deps[i];
      assert deps[..i + 1][..i] == deps[..i] && deps[..i + 1][i] == d;
      if d.kind == DepBlocks && d.issue in inSteps && d.dependsOn in inSteps {
        waits := waits[d.issue := (if d.issue in waits then waits[d.issue] else 0) + 1];
      }
    }
    assert deps[..|deps|] == deps;
  }

  /** Insertion in front of the first step that waits on as much. */
  function Inserted(waits: map<Id, nat>, p: Step, ps: seq<Step>): seq<Step> {
    if ps == [] || WaitOf(waits, p) <= WaitOf(waits, ps[0]) then [p] + ps
    else [ps[0]] + Inserted(waits, p, ps[1..])
  }

  /** The stable order by waiting. */
  function ByWaits(waits: map<Id, nat>, ps: seq<Step>): seq<Step> {
    if ps == [] then [] else Inserted(waits, ps[0], ByWaits(waits, ps[1..]))
  }

  predicate FewestFirst(waits: map<Id, nat>, ps: seq<Step>) {
    forall i, j :: 0 <= i < j < |ps| ==> WaitOf(waits, ps[i]) <= WaitOf(waits, ps[j])
  }

  /** The steps that wait on exactly w, in order. */
  function Having(waits: map<Id, nat>, ps: seq<Step>, w: nat): seq<Step> {
    if ps == [] then []
    else (if WaitOf(waits, ps[0]) == w then [ps[0]] else []) + Having(waits, ps[1..], w)
  }

  lemma {:induction false} InsertedMembers(waits: map<Id, nat>, p: Step, ps: seq<Step>)
    ensures multiset(Inserted(waits, p, ps)) == multiset{p} + multiset(ps)
  {
    hide WaitOf;
    if ps != [] && WaitOf(waits, p) > WaitOf(waits, ps[0]) {
      InsertedMembers(waits, p, ps[1..]);
      assert ps == [ps[0]] + ps[1..];
    }
  }

  lemma {:induction false} InsertedOrder(waits: map<Id, nat>, p: Step, ps: seq<Step>)
    requires FewestFirst(waits, ps)
    ensures FewestFirst(waits, Inserted(waits, p, ps))
  {
    hide WaitOf;
    if ps != [] && WaitOf(waits, p) > WaitOf(waits, ps[0]) {
      var rest := Inserted(waits, p, ps[1..]);
      InsertedOrder(waits, p, ps[1..]);
      forall i | 0 <= i < |rest| ensures WaitOf(waits, ps[0]) <= WaitOf(waits, rest[i]) {
        InsertedAt(waits, p, ps[1..], rest[i]);
      }
    }
  }

  lemma {:induction false} InsertedAt(waits: map<Id, nat>, p: Step, ps: seq<Step>, q: Step)
    requires q in Inserted(waits, p, ps)
    ensures q == p || q in ps
  {
    hide WaitOf;
    if ps != [] && WaitOf(waits, p) > WaitOf(waits, ps[0]) && q != ps[0] { InsertedAt(waits, p, ps[1..], q); }
  }

  lemma HavingCons(waits: map<Id, nat>, p: Step, ps: seq<Step>, w: nat)
    ensures Having(waits, [p] + ps, w) == (if WaitOf(waits, p) == w then [p] else []) + Having(waits, ps, w)
  {
    hide WaitOf;
    ConsTail(p, ps);
  }

  lemma {:induction false} InsertedStable(waits: map<Id, nat>, p: Step, ps: seq<Step>, w: nat)
    ensures Having(waits, Inserted(waits, p, ps), w) == (if WaitOf(waits, p) == w then [p] else []) + Having(waits, ps, w)
  {
    hide WaitOf, Having;
    if ps == [] || WaitOf(waits, p) <= WaitOf(waits, ps[0]) {
      HavingCons(waits, p, ps, w);
    } else {
      InsertedStable(waits, p, ps[1..], w);
      HavingCons(waits, ps[0], Inserted(waits, p, ps[1..]), w);
      HavingCons(waits, ps[0], ps[1..], w);
      HeadTail(ps);
    }
  }

  /** Showing order: the same steps, those that wait on less first, and steps
      that wait on as much in molecule order. */
  lemma {:induction false} ShowingOrder(waits: map<Id, nat>, ps: seq<Step>, w: nat)
    ensures multiset(ByWaits(waits, ps)) == multiset(ps) && FewestFirst(waits, ByWaits(waits, ps))
    ensures Having(waits, ByWaits(waits, ps), w) == Having(waits, ps, w)
  {
    hide WaitOf, Inserted;
    if ps != [] {
      ShowingOrder(waits, ps[1..], w);
      InsertedOrder(waits, ps[0], ByWaits(waits, ps[1..]));
      InsertedMembers(waits, ps[0], ByWaits(waits, ps[1..]));
      InsertedStable(waits, ps[0], ByWaits(waits, ps[1..]), w);
      assert ps == [ps[0]] + ps[1..];
    }
  }

  // ---- the view ----

  datatype View = View(steps: seq<Step>, completed: nat, total: int, current: Option<Issue>, next: Option<Issue>, ready: seq<Issue>)

  /** What a view says of its molecule. */
  ghost predicate Shows(v: View, rootId: Id, issues: seq<Issue>, deps: seq<Dependency>, ready: set<Id>) {
    var steps := StepStates(rootId, issues, ready);
    && v.completed == |ClosedAt(rootId, issues, |issues|)| && v.total == |issues| - 1
    && v.current == LastCurrent(steps) && v.next == FirstReady(steps) && v.ready == ReadyRows(issues, ready)
    && exists waits :: OrderedBy(waits, deps, steps) && v.steps == ByWaits(waits, steps)
  }

  /** The waits are those among the steps. */
  ghost predicate OrderedBy(waits: map<Id, nat>, deps: seq<Dependency>, steps: seq<Step>) {
    forall p :: p in steps ==> WaitOf(waits, p) == WaitCount(deps, StepIdSet(steps), p.0.id)
  }

  function StepIdSet(steps: seq<Step>): set<Id> { set p | p in steps :: p.0.id }

  /** The loop over the nodes. */
  method CollectSteps(rootId: Id, issues: seq<Issue>, ready: set<Id>)
      returns (steps: seq<Step>, completed: nat, current: Option<Issue>, next: Option<Issue>, rows: seq<Issue>)
    ensures steps == StepStates(rootId, issues, ready) && completed == |ClosedAt(rootId, issues, |issues|)|
    ensures current == LastCurrent(steps) && next == FirstReady(steps) && rows == ReadyRows(issues, ready)
  {
    hide StepStates, ClosedAt, ReadyRows, FirstReady, LastCurrent;
    NothingViewed(rootId, issues, ready);
    steps, completed, current, next, rows := [], 0, None, None, [];
    for i := 0 to |issues|
      invariant steps == StepStates(rootId, issues[..i], ready) && completed == |ClosedAt(rootId, issues, i)|
      invariant current == LastCurrent(steps) && next == FirstReady(steps) && rows == ReadyRows(issues[..i], ready)
    {
      var x := issues[i];
      ghost var state := StateOf(x, ready);
      ReadyNext(issues, i, ready);
      StepStatesSnoc(rootId, issues[..i], x, ready);
      assert issues[..i + 1] == issues[..i] + [x];
      ClosedNext(rootId, issues, i);
      FirstReadySnoc(steps, (x, state));
      LastCurrentSnoc(steps, (x, state));
      if x.id in ready {
        rows := rows + [x];
      }
      if x.id != rootId {
        match x.status {
          case Closed =>
            steps, completed := steps + [(x, Done)], completed + 1;
          case InProgress =>
            steps, current := steps + [(x, Current)], Some(x);
          case Blocked =>
            steps := steps + [(x, BlockedState)];
          case _ =>
            if x.id in ready {
              steps := steps + [(x, ReadyState)];
              if next.None? { next := Some(x); }
            } else {
              steps := steps + [(x, Pending)];
            }
        }
      }
    }
    assert issues[..|issues|] == issues;
  }

  lemma NothingViewed(rootId: Id, issues: seq<Issue>, ready: set<Id>)
    ensures StepStates(rootId, issues[..0], ready) == [] && ClosedAt(rootId, issues, 0) == {} && ReadyRows(issues[..0], ready) == []
    ensures LastCurrent([]) == None && FirstReady([]) == None
  {
  }

  lemma ReadyNext(issues: seq<Issue>, i: nat, ready: set<Id>)
    requires i < |issues|
    ensures ReadyRows(issues[..i + 1], ready) ==
            if issues[i].id in ready then ReadyRows(issues[..i], ready) + [issues[i]] else ReadyRows(issues[..i], ready)
  {
    assert issues[..i + 1][..i] == issues[..i] && issues[..i + 1][i] == issues[i];
  }

  method MoleculeViewOf(rootId: Id, issues: seq<Issue>, deps: seq<Dependency>, ready: set<Id>) returns (v: View)
    ensures Shows(v, rootId, issues, deps, ready)
  {
    hide StepStates, ClosedAt, ReadyRows, FirstReady, LastCurrent, ByWaits;
    var steps, completed, current, next, rows := CollectSteps(rootId, issues, ready);
    var inSteps := StepIdSet(steps);
    var waits := CountWaits(deps, inSteps);
    assert OrderedBy(waits, deps, steps);
    v := View(ByWaits(waits, steps), completed, |issues| - 1, current, next, rows);
  }

  /** A status for each node of the index. */
  function StatusMap(index: map<Id, Issue>): map<Id, Status> { map x | x in index :: index[x].status }

  /** Load the molecule, analyse it and view it: ready means ready to the
      analysis, and the view is complete exactly when every step is closed. */
  method ViewMolecule(s: Snapshot, rootId: Id) returns (v: Option<View>)
    requires s.Consistent()
    ensures v.None? <==> rootId !in s.issues
    ensures v.Some? ==> Ids(Steps(s, rootId)) <= StepIds(s)
    ensures v.Some? ==> var m := AsMolecule(s, rootId);
              Shows(v.value, rootId, Loaded(s, rootId), m.deps, set x | x in m.status && Ready(m, x))
    ensures v.Some? ==> (v.value.completed >= v.value.total <==> AllClosed(s, rootId))
  {
    hide AllClosed, Visit, Shows, Parenthood, Steps, StepIds, Ready, OpenBlockers, EdgesWithin;
    var g, deps := LoadMolecule(s, rootId);
    if g == null {
      return None;
    }
    var m := Molecule(rootId, IdList(g.issues), StatusMap(g.index), deps);
    GraphIsMolecule(s, rootId, g.issues, g.index, deps);
    LoadedIsMolecule(s, rootId);
    var _, _, ready, _, _ := AnalyzeMolecule(m);
    assert ready == set x | x in m.status && Ready(m, x) by { OnlyNodes(m, ready); }
    var view := MoleculeViewOf(rootId, g.issues, deps, ready);
    ViewCompletes(s, rootId, view, deps, ready);
    v := Some(view);
  }

  lemma OnlyNodes(m: Molecule, ready: set<Id>)
    requires forall x :: x in ready <==> Ready(m, x)
    ensures ready == set x | x in m.status && Ready(m, x)
  {
  }

  lemma GraphIsMolecule(s: Snapshot, rootId: Id, issues: seq<Issue>, index: map<Id, Issue>, deps: seq<Dependency>)
    requires s.Consistent() && rootId in s.issues && Ids(Steps(s, rootId)) <= StepIds(s)
    requires issues == Loaded(s, rootId) && index.Keys == Ids(issues) && deps == EdgesWithin(s, issues, Ids(issues))
    requires forall x :: x in issues ==> index[x.id] == x
    ensures Molecule(rootId, IdList(issues), StatusMap(index), deps) == AsMolecule(s, rootId)
  {
    hide Loaded, Visit, EdgesWithin, Steps, StepIds;
    LoadedRows(s, rootId);
    forall x | x in index ensures x in s.issues && s.issues[x].status == index[x].status {
      var y :| y in issues && y.id == x;
    }
  }

  lemma ViewCompletes(s: Snapshot, rootId: Id, v: View, deps: seq<Dependency>, ready: set<Id>)
    requires s.Consistent() && rootId in s.issues && Ids(Steps(s, rootId)) <= StepIds(s)
    requires Shows(v, rootId, Loaded(s, rootId), deps, ready)
    ensures v.completed >= v.total <==> AllClosed(s, rootId)
  {
    hide AllClosed, Visit, Parenthood, Steps, StepIds, ByWaits, StepStates, ClosedAt;
    var nodes := Loaded(s, rootId);
    assert nodes[0] == s.issues[rootId] && nodes[0] in nodes;
    LoadedExactly(s, rootId);
    CompleteAgrees(s, rootId);
    CompleteMeans(rootId, nodes);
  }
}
