// internal/deps/engine.go: batch after batch, each batch on goroutines behind a
// semaphore, and the teardown in reverse order. installOne (cache, source and
// wait conditions) is an arbitrary outcome.
module Installer {
  import opened Wrappers
  import opened Sets
  import opened Dependencies
  import opened DependencyGraph
  import opened Dag
  import opened BatchOrder
  import Refs

  type ExportMap = map<string, map<string, string>>

  datatype Plan = Plan(batches: seq<Batch>, slots: nat)

  // Where the goroutine of one dependency of the current batch stands.
  datatype Phase =
    | Queued                          // blocked on the semaphore
    | Installing                      // holds a slot, installOne in progress
    | Written(err: Option<string>)    // errs[depIdx] written, slot still held
    | Left(err: Option<string>)       // slot given back

  datatype Status = Running | Succeeded | Failed(err: string)

  datatype State = State(
    batch: nat,
    phases: seq<Phase>,
    errs: seq<Option<string>>,
    installed: seq<Dependency>,
    exports: ExportMap,
    status: Status)

  datatype Step =
    | Start(b: nat, i: nat)
    | End(b: nat, i: nat, err: Option<string>)
    | Leave(b: nat, i: nat)
    | Advance(b: nat)   // wg.Wait is over: errors are inspected

  // ----------------------------------------------------------------- exports

  function WithExports(exports: ExportMap, dep: Dependency): ExportMap {
    if dep.exports == map[] then exports
    else exports[dep.name := (if dep.name in exports then exports[dep.name] else map[]) + dep.exports]
  }

  function ExportsOf(deps: seq<Dependency>): ExportMap {
    if deps == [] then map[] else WithExports(ExportsOf(deps[..|deps| - 1]), deps[|deps| - 1])
  }

  lemma ExportsGrow(deps: seq<Dependency>, dep: Dependency)
    ensures ExportsOf(deps + [dep]) == WithExports(ExportsOf(deps), dep)
  {
    assert (deps + [dep])[..|deps|] == deps;
  }

  // With distinct names, each dependency that exports anything exports exactly
  // its own entries, and nobody else exports under its name.
  lemma {:induction false} ExportsAreVerbatim(deps: seq<Dependency>, n: string)
    requires DistinctNames(deps)
    ensures n in ExportsOf(deps) <==> exists d :: d in deps && d.name == n && d.exports != map[]
    ensures forall d :: d in deps && d.name == n && d.exports != map[] ==> ExportsOf(deps)[n] == d.exports
  {
    if deps != [] {
      var front, last := deps[..|deps| - 1], deps[|deps| - 1];
      assert deps == front + [last];
      ExportsAreVerbatim(front, n);
      if n == last.name {
        assert forall d :: d in front ==> d.name != n;
        assert map[] + last.exports == last.exports;
      }
    }
  }

  method CollectExports(dep: Dependency, exports0: ExportMap) returns (exports: ExportMap)
    ensures exports == WithExports(exports0, dep)
  {
    exports := exports0;
    var rest := dep.exports.Keys;
    assert dep.exports - rest == map[];
    while rest != {}
      invariant rest <= dep.exports.Keys
      invariant exports == WithExports(exports0, dep.(exports := dep.exports - rest))
      decreases rest
    {
      var key :| key in rest;
      var inner := if dep.name in exports then exports[dep.name] else map[];
      SetOneExport(exports0, dep, rest, key);
      rest := rest - {key};
      exports := exports[dep.name := inner[key := dep.exports[key]]];
    }
    assert dep.exports - {} == dep.exports;
  }

  // One more key moves from rest into the export map.
  lemma SetOneExport(exports0: ExportMap, dep: Dependency, rest: set<string>, key: string)
    requires key in rest && rest <= dep.exports.Keys
    ensures var exports := WithExports(exports0, dep.(exports := dep.exports - rest));
      var inner := if dep.name in exports then exports[dep.name] else map[];
      exports[dep.name := inner[key := dep.exports[key]]] ==
        WithExports(exports0, dep.(exports := dep.exports - (rest - {key})))
  {
    var before, after := dep.exports - rest, dep.exports - (rest - {key});
    var inner0 := if dep.name in exports0 then exports0[dep.name] else map[];
    assert after == before[key := dep.exports[key]] && key in after;
    assert (inner0 + before)[key := dep.exports[key]] == inner0 + after;
    assert before == map[] ==> inner0 + before == inner0;
  }

  // ----------------------------------------------------------------- machine

  predicate Holding(p: Phase) {
    p.Installing? || p.Written?
  }

  ghost function Holders(phases: seq<Phase>): set<nat> {
    set i: nat | i < |phases| && Holding(phases[i])
  }

  ghost function InFlight(phases: seq<Phase>): set<nat> {
    set i: nat | i < |phases| && phases[i].Installing?
  }

  ghost function Enter(plan: Plan, k: nat, installed: seq<Dependency>, exports: ExportMap): State
    requires k <= |plan.batches|
  {
    if k == |plan.batches| then State(k, [], [], installed, exports, Succeeded)
    else
      var n := |plan.batches[k]|;
      State(k, seq(n, _ => Queued), seq(n, _ => None), installed, exports, Running)
  }

  ghost predicate WellFormed(plan: Plan, s: State) {
    && s.batch <= |plan.batches|
    && |s.phases| == |s.errs| == (if s.batch == |plan.batches| then 0 else |plan.batches[s.batch]|)
    && (s.status.Succeeded? <==> s.batch == |plan.batches|)
  }

  ghost predicate AllLeft(s: State) {
    forall i :: 0 <= i < |s.phases| ==> s.phases[i].Left?
  }

  ghost predicate Enabled(plan: Plan, s: State, t: Step) {
    && s.status.Running? && t.b == s.batch
    && match t
       case Start(_, i) => i < |s.phases| && s.phases[i].Queued? && |Holders(s.phases)| < plan.slots
       case End(_, i, _) => i < |s.phases| && s.phases[i].Installing?
       case Leave(_, i) => i < |s.phases| && s.phases[i].Written?
       case Advance(_) => AllLeft(s)
  }

  ghost function Next(plan: Plan, s: State, t: Step): (s': State)
    requires WellFormed(plan, s) && Enabled(plan, s, t)
    ensures WellFormed(plan, s')
  {
    match t
    case Start(_, i) => s.(phases := s.phases[i := Installing])
    case End(_, i, err) => s.(phases := s.phases[i := Written(err)], errs := s.errs[i := err])
    case Leave(_, i) => s.(phases := s.phases[i := Left(s.phases[i].err)])
    case Advance(_) =>
      var failure := FirstSome(s.errs);
      if failure.Some? then s.(status := Failed(failure.value))
      else
        var batch := plan.batches[s.batch];
        Enter(plan, s.batch + 1, s.installed + batch, ExportsOf(s.installed + batch))
  }

  ghost function After(plan: Plan, steps: seq<Step>): (s: Option<State>)
    ensures s.Some? ==> WellFormed(plan, s.value)
  {
    if steps == [] then Some(Enter(plan, 0, [], map[]))
    else
      var before, t := After(plan, steps[..|steps| - 1]), steps[|steps| - 1];
      if before.Some? && Enabled(plan, before.value, t) then Some(Next(plan, before.value, t)) else None
  }

  lemma PrefixRuns(plan: Plan, steps: seq<Step>, k: nat)
    requires After(plan, steps).Some? && k <= |steps|
    ensures After(plan, steps[..k]).Some?
    decreases |steps|
  {
    if k < |steps| {
      PrefixRuns(plan, steps[..|steps| - 1], k);
      assert steps[..|steps| - 1][..k] == steps[..k];
    } else {
      assert steps[..k] == steps;
    }
  }

  // ------------------------------------------------------------------ safety

  lemma {:induction false} SlotsRespected(plan: Plan, steps: seq<Step>)
    requires After(plan, steps).Some?
    ensures var s := After(plan, steps).value; |InFlight(s.phases)| <= |Holders(s.phases)| <= plan.slots
  {
    var s := After(plan, steps).value;
    SubsetIsSmaller(InFlight(s.phases), Holders(s.phases));
    if steps == [] {
      assert Holders(s.phases) == {};
    } else {
      SlotsRespected(plan, steps[..|steps| - 1]);
      HoldersStep(plan, After(plan, steps[..|steps| - 1]).value, steps[|steps| - 1]);
    }
  }

  lemma HoldersStep(plan: Plan, s: State, t: Step)
    requires WellFormed(plan, s) && Enabled(plan, s, t)
    ensures |Holders(Next(plan, s, t).phases)| ==
      |Holders(s.phases)| + (if t.Start? then 1 else if t.Leave? then -1 else 0)
  {
    var before, after := Holders(s.phases), Holders(Next(plan, s, t).phases);
    if t.Start? {
      assert after == before + {t.i};
    } else if t.Leave? {
      assert after == before - {t.i};
    } else {
      assert after == before;
    }
  }

  // Installs in progress, or done with their slot not yet given back.
  ghost predicate AreInside(phases: seq<Phase>, inside: set<nat>) {
    forall j: nat :: j in inside <==> j < |phases| && (phases[j].Installing? || phases[j].Written?)
  }

  // A queued dependency of the current batch may start exactly while a slot is
  // left, and there are never more inside than slots.
  lemma RoomDecides(plan: Plan, steps: seq<Step>, i: nat, inside: set<nat>)
    requires After(plan, steps).Some? && AreInside(After(plan, steps).value.phases, inside)
    ensures |inside| <= plan.slots
    ensures var s := After(plan, steps).value;
      s.status.Running? && i < |s.phases| && s.phases[i].Queued? ==>
        (After(plan, steps + [Start(s.batch, i)]).Some? <==> |inside| < plan.slots)
  {
    var s := After(plan, steps).value;
    assert inside == Holders(s.phases);
    SlotsRespected(plan, steps);
    assert (steps + [Start(s.batch, i)])[..|steps|] == steps;
  }

  // The steps of the i-th dependency of batch b, in schedule order.
  ghost function StepsOf(steps: seq<Step>, b: nat, i: nat): seq<Step> {
    if steps == [] then []
    else
      var t := steps[|steps| - 1];
      StepsOf(steps[..|steps| - 1], b, i) + (if t.b == b && !t.Advance? && t.i == i then [t] else [])
  }

  lemma InStepsOf(steps: seq<Step>, b: nat, i: nat, t: Step)
    requires t in StepsOf(steps, b, i)
    ensures t in steps
  {
  }

  ghost function PhaseHistory(p: Phase, b: nat, i: nat): seq<Step> {
    match p
    case Queued => []
    case Installing => [Start(b, i)]
    case Written(err) => [Start(b, i), End(b, i, err)]
    case Left(err) => [Start(b, i), End(b, i, err), Leave(b, i)]
  }

  // Everything that can have happened to one dependency: all of it, and
  // successfully, in an earlier batch; nothing in a later one.
  ghost function History(s: State, b: nat, i: nat): seq<Step>
    requires b == s.batch ==> i < |s.phases|
  {
    if b < s.batch then PhaseHistory(Left(None), b, i)
    else if b > s.batch then []
    else PhaseHistory(s.phases[i], b, i)
  }

  ghost predicate ErrsMatch(s: State) {
    |s.errs| == |s.phases| &&
    forall i :: 0 <= i < |s.phases| && (s.phases[i].Written? || s.phases[i].Left?) ==> s.errs[i] == s.phases[i].err
  }

  lemma {:induction false} ErrsMatchAlways(plan: Plan, steps: seq<Step>)
    requires After(plan, steps).Some?
    ensures ErrsMatch(After(plan, steps).value)
  {
    if steps != [] {
      ErrsMatchAlways(plan, steps[..|steps| - 1]);
    }
  }

  lemma HistoryStep(plan: Plan, s: State, t: Step, b: nat, i: nat)
    requires WellFormed(plan, s) && Enabled(plan, s, t) && ErrsMatch(s)
    requires b < |plan.batches| && i < |plan.batches[b]|
    ensures History(Next(plan, s, t), b, i) ==
      History(s, b, i) + (if t.b == b && !t.Advance? && t.i == i then [t] else [])
  {
    hide Holders, ExportsOf;
    if t.Advance? && b == s.batch && FirstSome(s.errs).None? {
      assert s.phases[i] == Left(None);
    }
  }

  lemma {:induction false} HistoryOfDependency(plan: Plan, steps: seq<Step>, b: nat, i: nat)
    requires After(plan, steps).Some? && b < |plan.batches| && i < |plan.batches[b]|
    ensures StepsOf(steps, b, i) == History(After(plan, steps).value, b, i)
  {
    if steps != [] {
      hide Next, Enabled, History;
      var front, t := steps[..|steps| - 1], steps[|steps| - 1];
      HistoryOfDependency(plan, front, b, i);
      ErrsMatchAlways(plan, front);
      HistoryStep(plan, After(plan, front).value, t, b, i);
    }
  }

  // A walk leads from a dependency to one in a strictly earlier batch.
  lemma WalkLeadsDown(deps: seq<Dependency>, n: string, m: string, p: seq<string>, k: nat, l: nat)
    requires Walk(deps, p) && |p| >= 2 && p[0] == n && p[|p| - 1] == m
    requires IsRank(deps, n, k) && IsRank(deps, m, l)
    ensures l < k
  {
    var q :| WalkOfLength(deps, m, l, q);
    var r := p + q[1..];
    forall i | 0 <= i < |r| - 1 ensures Edge(deps, r[i], r[i + 1]) {
      if i < |p| - 1 {
        assert Edge(deps, p[i], p[i + 1]);
      } else {
        assert r[i] == q[i - |p| + 1] && r[i + 1] == q[i - |p| + 2];
        assert Edge(deps, q[i - |p| + 1], q[i - |p| + 2]);
      }
    }
    assert Walk(deps, r);
  }

  lemma FindInBatches(deps: seq<Dependency>, batches: seq<Batch>, n: string) returns (b: nat, i: nat)
    requires IsLevelling(deps, batches) && n in Names(deps)
    ensures b < |batches| && i < |batches[b]| && batches[b][i].name == n
  {
    var e :| e in deps && e.name == n;
    assert e in multiset(Concat(batches));
    InConcat(batches, e);
    b :| 0 <= b < |batches| && e in batches[b];
    i :| 0 <= i < |batches[b]| && batches[b][i] == e;
  }

  // Whatever has started by position k, all of every earlier batch ended well
  // before it.
  lemma EarlierBatchesEnded(plan: Plan, steps: seq<Step>, k: nat, b: nat, i: nat)
    requires After(plan, steps).Some? && k < |steps| && steps[k].Start?
    requires b < steps[k].b && b < |plan.batches| && i < |plan.batches[b]|
    ensures End(b, i, None) in steps[..k]
  {
    hide StepsOf;
    StartsInBatch(plan, steps, k);
    HistoryOfDependency(plan, steps[..k], b, i);
    assert PhaseHistory(Left(None), b, i)[1] == End(b, i, None);
    hide After;
    InStepsOf(steps[..k], b, i, End(b, i, None));
  }

  lemma StartsInBatch(plan: Plan, steps: seq<Step>, k: nat)
    requires After(plan, steps).Some? && k < |steps| && steps[k].Start?
    ensures After(plan, steps[..k]).Some? && After(plan, steps[..k]).value.batch == steps[k].b
  {
    PrefixRuns(plan, steps, k + 1);
    assert steps[..k + 1][..k] == steps[..k];
  }

  // A dependency starts only after each of its transitive prerequisites has
  // been installed without error.
  lemma PrerequisitesFirst(deps: seq<Dependency>, plan: Plan, steps: seq<Step>, k: nat, p: seq<string>)
    returns (b: nat, i: nat)
    requires KnownNames(deps) && IsLevelling(deps, plan.batches)
    requires After(plan, steps).Some? && k < |steps| && steps[k].Start?
    requires steps[k].b < |plan.batches| && steps[k].i < |plan.batches[steps[k].b]|
    requires Walk(deps, p) && |p| >= 2 && p[0] == plan.batches[steps[k].b][steps[k].i].name
    ensures b < |plan.batches| && i < |plan.batches[b]| && plan.batches[b][i].name == p[|p| - 1]
    ensures End(b, i, None) in steps[..k]
  {
    hide After, StepsOf, Concat;
    var last := p[|p| - 1];
    assert Edge(deps, p[|p| - 2], last);
    b, i := FindInBatches(deps, plan.batches, last);
    var d := plan.batches[steps[k].b][steps[k].i];
    assert IsRank(deps, d.name, steps[k].b) && IsRank(deps, plan.batches[b][i].name, b);
    WalkLeadsDown(deps, p[0], last, p, steps[k].b, b);
    EarlierBatchesEnded(plan, steps, k, b, i);
  }

  // Once an install has failed, no later batch is started.
  lemma FailureStopsLaterBatches(plan: Plan, steps: seq<Step>, j: nat, k: nat)
    requires After(plan, steps).Some? && j < |steps| && k < |steps|
    requires steps[j].End? && steps[j].err.Some? && steps[k].Start?
    requires steps[j].b < |plan.batches| && steps[j].i < |plan.batches[steps[j].b]|
    ensures steps[k].b <= steps[j].b
  {
    var t := steps[j];
    HistoryOfDependency(plan, steps, t.b, t.i);
    InHistory(steps, j);
    assert t in History(After(plan, steps).value, t.b, t.i);
    StartsInReachedBatch(plan, steps, k);
  }

  lemma InHistory(steps: seq<Step>, j: nat)
    requires j < |steps| && !steps[j].Advance?
    ensures steps[j] in StepsOf(steps, steps[j].b, steps[j].i)
  {
    if j < |steps| - 1 { InHistory(steps[..|steps| - 1], j); }
  }

  lemma StartsInReachedBatch(plan: Plan, steps: seq<Step>, k: nat)
    requires After(plan, steps).Some? && k < |steps|
    ensures steps[k].b <= After(plan, steps).value.batch
  {
  }

  lemma ConcatGrows(batches: seq<Batch>, k: nat)
    requires k < |batches|
    ensures Concat(batches[..k + 1]) == Concat(batches[..k]) + batches[k]
  {
    if k == 0 {
      assert batches[..1] == [batches[0]];
      assert Concat(batches[..1]) == batches[0] + Concat([]);
    } else {
      assert batches[..k + 1][1..] == batches[1..][..k];
      assert batches[..k][1..] == batches[1..][..k - 1];
      ConcatGrows(batches[1..], k - 1);
    }
  }

  // The installed list and the exports are those of the finished batches; a
  // failed run reports the first error of its last batch, all of which ran.
  lemma {:induction false} InstalledSoFar(plan: Plan, steps: seq<Step>)
    requires After(plan, steps).Some?
    ensures var s := After(plan, steps).value;
      && s.installed == Concat(plan.batches[..s.batch])
      && s.exports == ExportsOf(s.installed)
      && (s.status.Failed? ==> AllLeft(s) && FirstSome(s.errs) == Some(s.status.err))
  {
    if steps != [] {
      var front, t := steps[..|steps| - 1], steps[|steps| - 1];
      InstalledSoFar(plan, front);
      if t.Advance? { ConcatGrows(plan.batches, After(plan, front).value.batch); }
    }
  }

  // ---------------------------------------------------------------- liveness

  function StepsLeft(p: Phase): nat {
    match p
    case Queued => 3
    case Installing => 2
    case Written(_) => 1
    case Left(_) => 0
  }

  ghost function PhasesLeft(phases: seq<Phase>): nat {
    if phases == [] then 0 else StepsLeft(phases[0]) + PhasesLeft(phases[1..])
  }

  ghost function BatchesLeft(plan: Plan, k: nat): nat
    decreases |plan.batches| - k
  {
    if k >= |plan.batches| then 0 else 3 * |plan.batches[k]| + 1 + BatchesLeft(plan, k + 1)
  }

  ghost function WorkLeft(plan: Plan, s: State): nat {
    if !s.status.Running? then 0 else PhasesLeft(s.phases) + 1 + BatchesLeft(plan, s.batch + 1)
  }

  lemma PhasesLeftUpdate(phases: seq<Phase>, i: nat, p: Phase)
    requires i < |phases|
    ensures PhasesLeft(phases[i := p]) == PhasesLeft(phases) - StepsLeft(phases[i]) + StepsLeft(p)
  {
    if i == 0 {
      assert phases[i := p][1..] == phases[1..];
    } else {
      PhasesLeftUpdate(phases[1..], i - 1, p);
      assert phases[i := p][1..] == phases[1..][i - 1 := p];
    }
  }

  lemma QueuedLeft(n: nat)
    ensures PhasesLeft(seq(n, _ => Queued)) == 3 * n
  {
    if n > 0 {
      QueuedLeft(n - 1);
      assert seq(n, _ => Queued)[1..] == seq(n - 1, _ => Queued);
    }
  }

  lemma NextDecreases(plan: Plan, s: State, t: Step)
    requires WellFormed(plan, s) && Enabled(plan, s, t)
    ensures WorkLeft(plan, Next(plan, s, t)) < WorkLeft(plan, s)
  {
    if t.Advance? {
      if s.batch + 1 < |plan.batches| { QueuedLeft(|plan.batches[s.batch + 1]|); }
    } else {
      PhasesLeftUpdate(s.phases, t.i, Next(plan, s, t).phases[t.i]);
    }
  }

  // Every schedule is bounded by three steps per dependency and one per batch.
  lemma {:induction false} SchedulesAreBounded(plan: Plan, steps: seq<Step>)
    requires After(plan, steps).Some?
    ensures |steps| + WorkLeft(plan, After(plan, steps).value) <= BatchesLeft(plan, 0)
  {
    if steps == [] {
      if plan.batches != [] { QueuedLeft(|plan.batches[0]|); }
    } else {
      SchedulesAreBounded(plan, steps[..|steps| - 1]);
      NextDecreases(plan, After(plan, steps[..|steps| - 1]).value, steps[|steps| - 1]);
    }
  }

  // A run that is still going can always take a step.
  lemma NoDeadlock(plan: Plan, steps: seq<Step>)
    requires After(plan, steps).Some? && plan.slots > 0
    ensures var s := After(plan, steps).value; s.status.Running? ==> exists t :: Enabled(plan, s, t)
  {
    var s := After(plan, steps).value;
    if s.status.Running? {
      if i: nat :| i < |s.phases| && s.phases[i].Installing? {
        assert Enabled(plan, s, End(s.batch, i, None));
      } else if i: nat :| i < |s.phases| && s.phases[i].Written? {
        assert Enabled(plan, s, Leave(s.batch, i));
      } else if i: nat :| i < |s.phases| && s.phases[i].Queued? {
        assert Holders(s.phases) == {};
        assert Enabled(plan, s, Start(s.batch, i));
      } else {
        assert Enabled(plan, s, Advance(s.batch));
      }
    }
  }

  // -------------------------------------------------------------- operations

  predicate CanMove(p: Phase, inUse: int, slots: nat) {
    if p.Queued? then inUse < slots else !p.Left?
  }

  // installBatch: one goroutine per dependency of the current batch, driven by
  // a scheduler that may pick any goroutine able to move and any outcome.
  method InstallBatch(batch: Batch, slots: nat, ghost plan: Plan, ghost steps0: seq<Step>)
    returns (errs: seq<Option<string>>, ghost steps: seq<Step>)
    requires slots > 0 && plan.slots == slots && After(plan, steps0).Some?
    requires var s := After(plan, steps0).value;
      && s.status.Running? && plan.batches[s.batch] == batch
      && s.phases == seq(|batch|, _ => Queued) && s.errs == seq(|batch|, _ => None)
    ensures After(plan, steps).Some?
    ensures var s0, s := After(plan, steps0).value, After(plan, steps).value;
      AllLeft(s) && s == s0.(phases := s.phases, errs := errs)
  {
    hide After, PhasesLeft, BatchesLeft, StepsOf, Holders;
    var n := |batch|;
    var phases := new Phase[n](_ => Queued);
    var slice := new Option<string>[n](_ => None);
    var inUse := 0;
    steps := steps0;
    ghost var s0 := After(plan, steps0).value;
    ghost var s := s0;
    NobodyHolds(s.phases);
    while exists i :: 0 <= i < n && CanMove(phases[i], inUse, slots)
      invariant After(plan, steps) == Some(s)
      invariant s == s0.(phases := phases[..], errs := slice[..])
      invariant inUse == |Holders(s.phases)|
      decreases WorkLeft(plan, s)
    {
      var i: nat :| i < n && CanMove(phases[i], inUse, slots);
      ghost var before, t := s, Start(s.batch, i);
      match phases[i] {
        case Queued =>
          phases[i], inUse := Installing, inUse + 1;
        case Installing =>
          var err: Option<string> := *;
          t := End(s.batch, i, err);
          slice[i], phases[i] := err, Written(err);
        case Written(err) =>
          t := Leave(s.batch, i);
          phases[i], inUse := Left(err), inUse - 1;
      }
      s := Next(plan, before, t);
      HoldersStep(plan, before, t);
      NextDecreases(plan, before, t);
      OneMoreStep(plan, steps, before, t);
      steps := steps + [t];
    }
    BatchIsOver(plan, s, inUse);
    errs := slice[..];
  }

  lemma NobodyHolds(phases: seq<Phase>)
    requires forall i :: 0 <= i < |phases| ==> phases[i] == Queued
    ensures Holders(phases) == {}
  {
  }

  lemma OneMoreStep(plan: Plan, steps: seq<Step>, s: State, t: Step)
    requires After(plan, steps) == Some(s) && Enabled(plan, s, t)
    ensures After(plan, steps + [t]) == Some(Next(plan, s, t))
  {
    assert (steps + [t])[..|steps|] == steps;
  }

  lemma BatchIsOver(plan: Plan, s: State, inUse: int)
    requires plan.slots > 0 && inUse == |Holders(s.phases)|
    requires forall i :: 0 <= i < |s.phases| ==> !CanMove(s.phases[i], inUse, plan.slots)
    ensures AllLeft(s)
  {
    assert Holders(s.phases) == {};
  }

  datatype InstallState = InstallState(installed: seq<Dependency>, exports: ExportMap)

  datatype InstallError =
    | BadRefs(refs: Refs.RefError)
    | BadGraph(graph: DagError)
    | InstallFailed(dep: string)

  // A finished run over the levelling of deps and what Install returns for it.
  ghost predicate RunsTo(deps: seq<Dependency>, plan: Plan, steps: seq<Step>, r: Result<InstallState, InstallError>) {
    && IsLevelling(deps, plan.batches)
    && After(plan, steps).Some?
    && var s := After(plan, steps).value;
       match s.status
       case Running => false
       case Failed(e) => r == Err(InstallFailed(e))
       case Succeeded => r == Ok(InstallState(s.installed, s.exports)) && multiset(s.installed) == multiset(deps)
  }

  // What Install returns: after a failed install, the lowest-index error of the
  // batch it stopped in, all of whose goroutines have left; otherwise every
  // dependency, once, batch by batch, and their exports.
  lemma OutcomeIs(deps: seq<Dependency>, plan: Plan, steps: seq<Step>, r: Result<InstallState, InstallError>)
    requires RunsTo(deps, plan, steps, r)
    ensures IsLevelling(deps, plan.batches) && After(plan, steps).Some?
    ensures var s := After(plan, steps).value;
      r.Err? ==>
        && r.error.InstallFailed?
        && (forall j :: 0 <= j < |s.phases| ==> s.phases[j] == Left(s.errs[j]))
        && exists i ::
             0 <= i < |s.errs| && s.errs[i] == Some(r.error.dep) && forall j :: 0 <= j < i ==> s.errs[j] == None
    ensures r.Ok? ==>
      && r.value.installed == Concat(plan.batches) && multiset(r.value.installed) == multiset(deps)
      && r.value.exports == ExportsOf(r.value.installed)
    ensures r.Ok? <==> forall k: nat :: k < |steps| && steps[k].End? ==> steps[k].err == None
  {
    hide After, ExportsOf, IsLevelling;
    InstalledSoFar(plan, steps);
    ErrsMatchAlways(plan, steps);
    assert plan.batches[..|plan.batches|] == plan.batches;
    SucceedsIffNoError(plan, steps);
  }

  lemma {:induction false} StepInRange(plan: Plan, steps: seq<Step>, k: nat)
    requires After(plan, steps).Some? && k < |steps| && !steps[k].Advance?
    ensures steps[k].b < |plan.batches| && steps[k].i < |plan.batches[steps[k].b]|
  {
    if k < |steps| - 1 { StepInRange(plan, steps[..|steps| - 1], k); }
  }

  // A finished run is a success exactly when no install in it ended in an error.
  lemma SucceedsIffNoError(plan: Plan, steps: seq<Step>)
    requires After(plan, steps).Some? && !After(plan, steps).value.status.Running?
    ensures After(plan, steps).value.status.Succeeded? <==>
      forall k: nat :: k < |steps| && steps[k].End? ==> steps[k].err == None
  {
    var s := After(plan, steps).value;
    if s.status.Succeeded? {
      forall k: nat | k < |steps| && steps[k].End? ensures steps[k].err == None {
        StepInRange(plan, steps, k);
        HistoryOfDependency(plan, steps, steps[k].b, steps[k].i);
        InHistory(steps, k);
      }
    } else {
      InstalledSoFar(plan, steps);
      ErrsMatchAlways(plan, steps);
      var i :| 0 <= i < |s.errs| && s.errs[i] == FirstSome(s.errs);
      SomeErrorEnded(plan, steps, i);
    }
  }

  lemma SomeErrorEnded(plan: Plan, steps: seq<Step>, i: nat)
    requires After(plan, steps).Some?
    requires var s := After(plan, steps).value;
      s.status.Failed? && i < |s.errs| && s.errs[i].Some? && i < |s.phases| && s.phases[i] == Left(s.errs[i])
    ensures exists k: nat :: k < |steps| && steps[k].End? && steps[k].err != None
  {
    var s := After(plan, steps).value;
    assert s.batch < |plan.batches|;
    HistoryOfDependency(plan, steps, s.batch, i);
    var t := End(s.batch, i, s.errs[i]);
    assert PhaseHistory(Left(s.errs[i]), s.batch, i)[1] == t;
    InStepsOf(steps, s.batch, i, t);
    var k: nat :| k < |steps| && steps[k] == t;
  }

  // Install: refs, then batches, then one batch after another until one fails.
  // cpus stands for runtime.NumCPU().
  method Install(fs: Refs.FileSystem, deps: seq<Dependency>, parallelism: int, cpus: nat)
    returns (r: Result<InstallState, InstallError>)
    requires cpus > 0
    ensures deps == [] ==> r == Ok(InstallState([], map[]))
    ensures deps != [] ==>
      match Refs.Resolve(fs, deps, 0)
      case Err(e) => r == Err(BadRefs(e))
      case Ok(resolved) =>
        if !(KnownNames(resolved) && DistinctNames(resolved) && Acyclic(resolved)) then
          r.Err? && r.error.BadGraph? && IsReport(resolved, r.error.graph)
        else
          exists plan: Plan, steps ::
            plan.slots == (if parallelism <= 0 then cpus else parallelism) && RunsTo(resolved, plan, steps, r)
  {
    if |deps| == 0 {
      return Ok(InstallState([], map[]));
    }
    var resolved := Refs.ResolveRefs(fs, deps);
    if resolved.Err? {
      return Err(BadRefs(resolved.error));
    }
    var built := BuildBatches(resolved.value);
    if built.Err? {
      return Err(BadGraph(built.error));
    }
    var slots: nat := if parallelism <= 0 then cpus else parallelism;
    var batches := built.value;
    ghost var plan := Plan(batches, slots);
    var installed, exports, failure;
    ghost var steps;
    installed, exports, failure, steps := InstallBatches(batches, slots, plan);
    InstalledSoFar(plan, steps);
    if failure.Some? {
      assert RunsTo(resolved.value, plan, steps, Err(InstallFailed(failure.value)));
      return Err(InstallFailed(failure.value));
    }
    assert batches[..|batches|] == batches;
    r := Ok(InstallState(installed, exports));
    assert RunsTo(resolved.value, plan, steps, r);
  }

  // The loop of Install over the batches.
  method InstallBatches(batches: seq<Batch>, slots: nat, ghost plan: Plan)
    returns (installed: seq<Dependency>, exports: ExportMap, failure: Option<string>, ghost steps: seq<Step>)
    requires slots > 0 && plan == Plan(batches, slots)
    ensures After(plan, steps).Some?
    ensures var s := After(plan, steps).value;
      if failure.Some? then s.status == Failed(failure.value)
      else s.status.Succeeded? && s.installed == installed && s.exports == exports
  {
    hide After, ExportsOf, WithExports, Next, Enabled, StepsOf, History, Holders, FirstSome;
    installed, exports, failure, steps := [], map[], None, [];
    StartOfInstall(plan);
    for k := 0 to |batches|
      invariant exports == ExportsOf(installed)
      invariant After(plan, steps) == Some(Enter(plan, k, installed, exports))
    {
      var batch := batches[k];
      var errs;
      errs, steps := InstallBatch(batch, slots, plan, steps);
      ghost var s := After(plan, steps).value;
      for j := 0 to |errs|
        invariant forall l :: 0 <= l < j ==> errs[l].None?
      {
        if errs[j].Some? {
          AdvanceFails(plan, steps, s);
          return installed, exports, errs[j], steps + [Advance(s.batch)];
        }
      }
      ghost var before := installed;
      installed := installed + batch;
      exports := CollectBatch(batch, exports, before);
      AdvanceSucceeds(plan, steps, s);
      steps := steps + [Advance(s.batch)];
    }
  }

  lemma StartOfInstall(plan: Plan)
    ensures After(plan, []) == Some(Enter(plan, 0, [], map[])) && ExportsOf([]) == map[]
  {
  }

  lemma AdvanceFails(plan: Plan, steps: seq<Step>, s: State)
    requires After(plan, steps) == Some(s) && s.status.Running? && AllLeft(s) && FirstSome(s.errs).Some?
    ensures After(plan, steps + [Advance(s.batch)]) == Some(s.(status := Failed(FirstSome(s.errs).value)))
  {
    OneMoreStep(plan, steps, s, Advance(s.batch));
  }

  lemma AdvanceSucceeds(plan: Plan, steps: seq<Step>, s: State)
    requires After(plan, steps) == Some(s) && s.status.Running? && AllLeft(s) && FirstSome(s.errs).None?
    ensures s.batch < |plan.batches|
    ensures var installed := s.installed + plan.batches[s.batch];
      After(plan, steps + [Advance(s.batch)]) == Some(Enter(plan, s.batch + 1, installed, ExportsOf(installed)))
  {
    hide ExportsOf, After;
    OneMoreStep(plan, steps, s, Advance(s.batch));
  }

  method CollectBatch(batch: Batch, exports0: ExportMap, ghost installed: seq<Dependency>) returns (exports: ExportMap)
    requires exports0 == ExportsOf(installed)
    ensures exports == ExportsOf(installed + batch)
  {
    hide WithExports;
    exports := exports0;
    assert installed + batch[..0] == installed;
    for j := 0 to |batch|
      invariant exports == ExportsOf(installed + batch[..j])
    {
      var dep := batch[j];
      exports := CollectExports(dep, exports);
      ExportsGrow(installed + batch[..j], dep);
      assert installed + batch[..j + 1] == installed + batch[..j] + [dep];
    }
    assert batch[..|batch|] == batch;
  }

  // ---------------------------------------------------------------- teardown

  ghost function Reversed(deps: seq<Dependency>): (r: seq<Dependency>)
    ensures |r| == |deps| && forall i :: 0 <= i < |deps| ==> r[i] == deps[|deps| - 1 - i]
  {
    seq(|deps|, i requires 0 <= i < |deps| => deps[|deps| - 1 - i])
  }

  // reverseDeps: a fresh slice filled by index.
  method ReverseDeps(deps: seq<Dependency>) returns (reversed: seq<Dependency>)
    ensures reversed == Reversed(deps)
  {
    if deps == [] { return []; }
    var slice := new Dependency[|deps|](_ => deps[0]);
    for i := 0 to |deps|
      invariant forall k :: 0 <= k < i ==> slice[|deps| - 1 - k] == deps[k]
    {
      slice[|deps| - 1 - i] := deps[i];
    }
    return slice[..];
  }

  function Failures(outcomes: seq<Option<string>>): seq<string> {
    if outcomes == [] then []
    else
      var last := outcomes[|outcomes| - 1];
      Failures(outcomes[..|outcomes| - 1]) + (if last.Some? then [last.value] else [])
  }

  // The joined errors are those of the failed teardowns, in order; none at all
  // exactly when every teardown went well.
  lemma {:induction false} FailuresAre(a: seq<Option<string>>, b: seq<Option<string>>)
    ensures Failures(a + b) == Failures(a) + Failures(b)
    decreases |b|
  {
    if b == [] {
      assert a + b == a;
    } else {
      FailuresAre(a, b[..|b| - 1]);
      assert (a + b)[..|a + b| - 1] == a + b[..|b| - 1];
    }
  }

  lemma OneFailure(outcome: Option<string>)
    ensures Failures([outcome]) == match outcome case Some(e) => [e] case None => []
  {
    assert [outcome][..0] == [];
  }

  lemma {:induction false} NoFailures(outcomes: seq<Option<string>>)
    ensures Failures(outcomes) == [] <==> forall i :: 0 <= i < |outcomes| ==> outcomes[i] == None
  {
    if outcomes != [] {
      var front, last := outcomes[..|outcomes| - 1], outcomes[|outcomes| - 1];
      NoFailures(front);
      assert forall i :: 0 <= i < |front| ==> front[i] == outcomes[i];
    }
  }

  // Teardown visits every installed dependency once, whatever the individual
  // teardowns answer, and joins all their errors.
  method Teardown(state: Option<InstallState>)
    returns (visited: seq<Dependency>, outcomes: seq<Option<string>>, errs: seq<string>)
    ensures visited == if state.Some? then Reversed(state.value.installed) else []
    ensures |outcomes| == |visited| && errs == Failures(outcomes)
  {
    visited, outcomes, errs := [], [], [];
    if state.None? || |state.value.installed| == 0 {
      return;
    }
    var reversed := ReverseDeps(state.value.installed);
    for i := 0 to |reversed|
      invariant visited == reversed[..i]
      invariant |outcomes| == i && errs == Failures(outcomes)
    {
      var outcome: Option<string> := *;
      visited := visited + [reversed[i]];
      assert (outcomes + [outcome])[..i] == outcomes;
      outcomes := outcomes + [outcome];
      if outcome.Some? {
        errs := errs + [outcome.value];
      }
    }
  }

  ghost function BatchOf(batches: seq<Batch>, i: nat): nat
    requires i < |Concat(batches)|
  {
    if i < |batches[0]| then 0 else 1 + BatchOf(batches[1..], i - |batches[0]|)
  }

  lemma InBatchOf(batches: seq<Batch>, i: nat)
    requires i < |Concat(batches)|
    ensures BatchOf(batches, i) < |batches| && Concat(batches)[i] in batches[BatchOf(batches, i)]
  {
    if i >= |batches[0]| { InBatchOf(batches[1..], i - |batches[0]|); }
  }

  lemma BatchesInOrder(batches: seq<Batch>, i: nat, j: nat)
    requires i <= j < |Concat(batches)|
    ensures BatchOf(batches, i) <= BatchOf(batches, j)
  {
    if i >= |batches[0]| { BatchesInOrder(batches[1..], i - |batches[0]|, j - |batches[0]|); }
  }

  // Teardown takes down each dependent before everything it depends on.
  lemma DependentsFirst(deps: seq<Dependency>, batches: seq<Batch>, i: nat, j: nat, p: seq<string>)
    requires IsLevelling(deps, batches)
    requires var visited := Reversed(Concat(batches));
      && i < |visited| && j < |visited|
      && Walk(deps, p) && |p| >= 2 && p[0] == visited[i].name && p[|p| - 1] == visited[j].name
    ensures i < j
  {
    var all := Concat(batches);
    var a, b := |all| - 1 - i, |all| - 1 - j;
    InBatchOf(batches, a);
    InBatchOf(batches, b);
    WalkLeadsDown(deps, all[a].name, all[b].name, p, BatchOf(batches, a), BatchOf(batches, b));
    if a <= b { BatchesInOrder(batches, a, b); }
  }
}
