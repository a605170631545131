// internal/runner/apply.go: what one test file acquires, and how its deferred
// releases run on every way out.
module Lifecycle {
  import opened Wrappers

  // What a release is owed for. A hook phase that succeeded owes its closing
  // hooks.
  datatype Resource =
    | SuiteDeps
    | AfterAllHooks
    | Namespace(test: nat)
    | TestDeps(test: nat)
    | TeardownHooks(test: nat)

  datatype Event = Acquire(r: Resource) | Release(r: Resource)

  // How each fallible step of one test turns out. selected: the name matches
  // --match and the tier gate lets it through; live: neither skipped nor a
  // helper test.
  datatype TestOutcome = TestOutcome(selected: bool, live: bool, namespaceOk: bool, depsOk: bool, setupOk: bool)

  // started: the file parsed, expanded and loaded its chart, and its
  // integration features are available; clusterOk: cluster-scoped deps.
  datatype FileOutcome =
    FileOutcome(started: bool, clusterOk: bool, suiteOk: bool, beforeAllOk: bool, tests: seq<TestOutcome>)

  // ---------------------------------------------------------- specification

  function Acquires(held: seq<Resource>): seq<Event> {
    seq(|held|, i requires 0 <= i < |held| => Acquire(held[i]))
  }

  function Releases(held: seq<Resource>): seq<Event> {
    seq(|held|, i requires 0 <= i < |held| => Release(held[|held| - 1 - i]))
  }

  // Acquire in order, do something, release in reverse.
  function Bracket(held: seq<Resource>, inner: seq<Event>): seq<Event> {
    Acquires(held) + inner + Releases(held)
  }

  // What a test gets hold of: each step needs the ones before it.
  function HeldByTest(t: nat, o: TestOutcome): seq<Resource> {
    if !o.selected || !o.live || !o.namespaceOk then []
    else if !o.depsOk then [Namespace(t)]
    else if !o.setupOk then [Namespace(t), TestDeps(t)]
    else [Namespace(t), TestDeps(t), TeardownHooks(t)]
  }

  function TestsTrace(tests: seq<TestOutcome>, n: nat): seq<Event>
    requires n <= |tests|
  {
    if n == 0 then [] else TestsTrace(tests, n - 1) + Bracket(HeldByTest(n - 1, tests[n - 1]), [])
  }

  function HeldByFile(o: FileOutcome): seq<Resource> {
    if !o.started || !o.clusterOk || !o.suiteOk then []
    else if !o.beforeAllOk then [SuiteDeps]
    else [SuiteDeps, AfterAllHooks]
  }

  function FileTrace(o: FileOutcome): seq<Event> {
    var held := HeldByFile(o);
    Bracket(held, if AfterAllHooks in held then TestsTrace(o.tests, |o.tests|) else [])
  }

  // --keep-cluster holds on to deps and namespaces; hooks still run.
  predicate Preserved(e: Event) {
    e.Release? && (e.r.SuiteDeps? || e.r.Namespace? || e.r.TestDeps?)
  }

  function Kept(keepCluster: bool, events: seq<Event>): seq<Event> {
    if events == [] then []
    else
      var last := events[|events| - 1];
      Kept(keepCluster, events[..|events| - 1]) + (if keepCluster && Preserved(last) then [] else [last])
  }

  // ------------------------------------------------------------- operations

  class Runner {
    const keepCluster: bool
    var trace: seq<Event>

    constructor (keepCluster: bool)
      ensures this.keepCluster == keepCluster && trace == []
    {
      this.keepCluster, trace := keepCluster, [];
    }

    // The deferred functions of a Go call, last one first.
    method RunDeferred(defers: seq<Resource>)
      modifies this`trace
      ensures trace == old(trace) + Kept(keepCluster, Releases(defers))
    {
      var i := |defers|;
      ghost var all := Releases(defers);
      while i > 0
        invariant 0 <= i <= |defers|
        invariant trace == old(trace) + Kept(keepCluster, all[..|defers| - i])
      {
        i := i - 1;
        ghost var k := |defers| - i;
        assert all[..k][..k - 1] == all[..k - 1] && all[..k][k - 1] == Release(defers[i]);
        if !(keepCluster && Preserved(Release(defers[i]))) {
          trace := trace + [Release(defers[i])];
        }
      }
      assert all[..|defers|] == all;
    }

    // runTest: an early return still runs what was deferred up to there.
    method RunTest(t: nat, o: TestOutcome)
      requires o.selected
      modifies this`trace
      ensures trace == old(trace) + Kept(keepCluster, Bracket(HeldByTest(t, o), []))
    {
      hide Kept, Acquires, Releases, Bracket, HeldByTest;
      NothingHeld(keepCluster);
      HeldStepByStep(t, o);
      if !o.live || !o.namespaceOk {
        return;
      }
      var defers: seq<Resource> := [];
      defers := Hold(old(trace), defers, Namespace(t));
      if o.depsOk {
        defers := Hold(old(trace), defers, TestDeps(t));
        if o.setupOk {
          defers := Hold(old(trace), defers, TeardownHooks(t));
        }
      }
      assert defers == HeldByTest(t, o);
      KeptNothingInside(keepCluster, defers);
      RunDeferred(defers);
    }

    // A step that succeeds and defers its release; base is the trace before
    // the function that defers.
    method Hold(ghost base: seq<Event>, defers0: seq<Resource>, r: Resource) returns (defers: seq<Resource>)
      requires trace == base + Acquires(defers0)
      modifies this`trace
      ensures defers == defers0 + [r]
      ensures trace == base + Acquires(defers)
    {
      trace := trace + [Acquire(r)];
      defers := defers0 + [r];
      assert Acquires(defers) == Acquires(defers0) + [Acquire(r)];
    }

    method RunFile(o: FileOutcome)
      modifies this`trace
      ensures trace == old(trace) + Kept(keepCluster, FileTrace(o))
    {
      hide Kept, Acquires, Releases, Bracket, FileTrace, TestsTrace;
      NothingHeld(keepCluster);
      FileTraceIs(o);
      if !o.started || !o.clusterOk || !o.suiteOk {
        return;
      }
      var defers: seq<Resource> := [];
      defers := Hold(old(trace), defers, SuiteDeps);
      if !o.beforeAllOk {
        assert defers == [SuiteDeps];
        KeptNothingInside(keepCluster, defers);
        RunDeferred(defers);
        return;
      }
      defers := Hold(old(trace), defers, AfterAllHooks);
      assert defers == [SuiteDeps, AfterAllHooks];
      RunTests(o.tests);
      KeptBracket(keepCluster, defers, TestsTrace(o.tests, |o.tests|));
      RunDeferred(defers);
    }

    // The loop of runFile over the expanded tests.
    method RunTests(tests: seq<TestOutcome>)
      modifies this`trace
      ensures trace == old(trace) + Kept(keepCluster, TestsTrace(tests, |tests|))
    {
      hide Kept, Bracket, HeldByTest;
      KeptEmpty(keepCluster);
      for n := 0 to |tests|
        invariant trace == old(trace) + Kept(keepCluster, TestsTrace(tests, n))
      {
        KeptConcat(keepCluster, TestsTrace(tests, n), Bracket(HeldByTest(n, tests[n]), []));
        if tests[n].selected {
          RunTest(n, tests[n]);
        } else {
          UnselectedHoldsNothing(keepCluster, n, tests[n]);
        }
      }
    }
  }

  lemma HeldStepByStep(t: nat, o: TestOutcome)
    ensures HeldByTest(t, o) ==
      if !o.selected || !o.live || !o.namespaceOk then []
      else if !o.depsOk then [] + [Namespace(t)]
      else if !o.setupOk then [] + [Namespace(t)] + [TestDeps(t)]
      else [] + [Namespace(t)] + [TestDeps(t)] + [TeardownHooks(t)]
  {
  }

  lemma FileTraceIs(o: FileOutcome)
    ensures FileTrace(o) ==
      if !o.started || !o.clusterOk || !o.suiteOk then []
      else if !o.beforeAllOk then Bracket([SuiteDeps], [])
      else Bracket([SuiteDeps, AfterAllHooks], TestsTrace(o.tests, |o.tests|))
  {
    hide Acquires, Releases, TestsTrace, Bracket;
    NothingHeld(true);
    assert [SuiteDeps, AfterAllHooks][1] == AfterAllHooks;
  }

  lemma UnselectedHoldsNothing(keepCluster: bool, t: nat, o: TestOutcome)
    requires !o.selected
    ensures Kept(keepCluster, Bracket(HeldByTest(t, o), [])) == []
  {
  }

  lemma NothingHeld(keepCluster: bool)
    ensures Acquires([]) == [] && Bracket([], []) == [] && Kept(keepCluster, []) == []
  {
  }

  lemma {:induction false} KeptConcat(keepCluster: bool, a: seq<Event>, b: seq<Event>)
    ensures Kept(keepCluster, a + b) == Kept(keepCluster, a) + Kept(keepCluster, b)
    decreases |b|
  {
    if b == [] {
      assert a + b == a;
    } else {
      assert (a + b)[..|a + b| - 1] == a + b[..|b| - 1];
      KeptConcat(keepCluster, a, b[..|b| - 1]);
    }
  }

  // Acquisitions are never suppressed.
  lemma {:induction false} KeptAcquires(keepCluster: bool, held: seq<Resource>)
    ensures Kept(keepCluster, Acquires(held)) == Acquires(held)
    decreases |held|
  {
    if held != [] {
      KeptAcquires(keepCluster, held[..|held| - 1]);
      assert Acquires(held)[..|held| - 1] == Acquires(held[..|held| - 1]);
    }
  }

  lemma KeptBracket(keepCluster: bool, held: seq<Resource>, inner: seq<Event>)
    ensures Kept(keepCluster, Bracket(held, inner)) ==
      Acquires(held) + Kept(keepCluster, inner) + Kept(keepCluster, Releases(held))
  {
    KeptConcat(keepCluster, Acquires(held) + inner, Releases(held));
    KeptConcat(keepCluster, Acquires(held), inner);
    KeptAcquires(keepCluster, held);
  }

  lemma KeptNothingInside(keepCluster: bool, held: seq<Resource>)
    ensures Kept(keepCluster, Bracket(held, [])) == Acquires(held) + Kept(keepCluster, Releases(held))
  {
    KeptBracket(keepCluster, held, []);
    assert Acquires(held) + [] == Acquires(held);
  }

  // -------------------------------------------------------------- properties

  // What is held after some events, a stack; None when something is released
  // that is not on top.
  ghost function Replay(events: seq<Event>, stack: seq<Resource>): Option<seq<Resource>> {
    if events == [] then Some(stack)
    else match events[0]
      case Acquire(r) => Replay(events[1..], stack + [r])
      case Release(r) =>
        if stack != [] && stack[|stack| - 1] == r then Replay(events[1..], stack[..|stack| - 1]) else None
  }

  lemma {:induction false} ReplayConcat(a: seq<Event>, b: seq<Event>, stack: seq<Resource>)
    ensures Replay(a + b, stack) == if Replay(a, stack).Some? then Replay(b, Replay(a, stack).value) else None
    decreases |a|
  {
    if a == [] {
      assert a + b == b;
    } else {
      assert (a + b)[1..] == a[1..] + b;
      match a[0]
      case Acquire(r) => ReplayConcat(a[1..], b, stack + [r]);
      case Release(r) => if stack != [] { ReplayConcat(a[1..], b, stack[..|stack| - 1]); }
    }
  }

  lemma {:induction false} ReplayAcquires(held: seq<Resource>, stack: seq<Resource>)
    ensures Replay(Acquires(held), stack) == Some(stack + held)
    decreases |held|
  {
    if held == [] {
      assert stack + held == stack;
    } else {
      assert Acquires(held)[1..] == Acquires(held[1..]);
      ReplayAcquires(held[1..], stack + [held[0]]);
      assert stack + [held[0]] + held[1..] == stack + held;
    }
  }

  lemma {:induction false} ReplayReleases(held: seq<Resource>, stack: seq<Resource>)
    ensures Replay(Releases(held), stack + held) == Some(stack)
    decreases |held|
  {
    if held == [] {
      assert stack + held == stack;
    } else {
      var front := held[..|held| - 1];
      assert Releases(held)[1..] == Releases(front);
      assert (stack + held)[..|stack + held| - 1] == stack + front;
      ReplayReleases(front, stack);
    }
  }

  lemma NothingReplayed(stack: seq<Resource>)
    ensures Replay([], stack) == Some(stack)
  {
  }

  lemma ReplayBracket(held: seq<Resource>, inner: seq<Event>, stack: seq<Resource>)
    requires Replay(inner, stack + held) == Some(stack + held)
    ensures Replay(Bracket(held, inner), stack) == Some(stack)
  {
    ReplayAcquires(held, stack);
    ReplayReleases(held, stack);
    ReplayConcat(Acquires(held), inner, stack);
    ReplayConcat(Acquires(held) + inner, Releases(held), stack);
  }

  lemma NoTestsNoTrace(tests: seq<TestOutcome>)
    ensures TestsTrace(tests, 0) == []
  {
  }

  lemma TestsTraceStep(tests: seq<TestOutcome>, n: nat)
    requires 0 < n <= |tests|
    ensures TestsTrace(tests, n) == TestsTrace(tests, n - 1) + Bracket(HeldByTest(n - 1, tests[n - 1]), [])
  {
  }

  lemma {:induction false} ReplayTests(tests: seq<TestOutcome>, n: nat, stack: seq<Resource>)
    requires n <= |tests|
    ensures Replay(TestsTrace(tests, n), stack) == Some(stack)
    decreases n
  {
    hide *;
    if n == 0 {
      NothingReplayed(stack);
      NoTestsNoTrace(tests);
    } else {
      var held := HeldByTest(n - 1, tests[n - 1]);
      TestsTraceStep(tests, n);
      NothingReplayed(stack + held);
      ReplayTests(tests, n - 1, stack);
      ReplayBracket(held, [], stack);
      ReplayConcat(TestsTrace(tests, n - 1), Bracket(held, []), stack);
    }
  }

  // However the steps turn out, every release takes back the latest
  // acquisition still held, and nothing is held at the end.
  lemma ReleasesMirrorAcquisitions(o: FileOutcome)
    ensures Replay(FileTrace(o), []) == Some([])
  {
    var held := HeldByFile(o);
    ReplayTests(o.tests, |o.tests|, [] + held);
    ReplayBracket(held, if AfterAllHooks in held then TestsTrace(o.tests, |o.tests|) else [], []);
  }

  // A moment within a bracket: the acquisitions so far, or a moment of what is
  // inside.
  lemma BracketMoment(held: seq<Resource>, inner: seq<Event>, stack: seq<Resource>, n: nat)
    returns (inside: bool, k: nat)
    requires Replay(inner, stack + held) == Some(stack + held) && n <= |Bracket(held, inner)|
    ensures if inside then k <= |inner| && Replay(Bracket(held, inner)[..n], stack) == Replay(inner[..k], stack + held)
            else k <= |held| && Replay(Bracket(held, inner)[..n], stack) == Some(stack + held[..k])
  {
    var events, size := Bracket(held, inner), |held|;
    if n <= size {
      inside, k := false, n;
      assert events[..n] == Acquires(held[..n]);
      ReplayAcquires(held[..n], stack);
    } else if n <= size + |inner| {
      inside, k := true, n - size;
      assert events[..n] == Acquires(held) + inner[..k];
      ReplayAcquires(held, stack);
      ReplayConcat(Acquires(held), inner[..k], stack);
    } else {
      inside, k := false, 2 * size + |inner| - n;
      ReplayAcquires(held, stack);
      ReplayConcat(Acquires(held), inner, stack);
      ReplayConcat(Acquires(held) + inner, Releases(held[k..]), stack);
      assert events[..n] == Acquires(held) + inner + Releases(held[k..]);
      assert stack + held == (stack + held[..k]) + held[k..];
      ReplayReleases(held[k..], stack + held[..k]);
    }
  }

  // A moment within the tests: some test, holding what it got so far.
  lemma {:induction false} TestsMoment(tests: seq<TestOutcome>, count: nat, n: nat, stack: seq<Resource>)
    returns (t: nat, k: nat)
    requires count <= |tests| && n <= |TestsTrace(tests, count)|
    ensures k <= 3
    ensures Replay(TestsTrace(tests, count)[..n], stack) ==
      Some(stack + [Namespace(t), TestDeps(t), TeardownHooks(t)][..k])
    decreases count
  {
    hide Bracket, Replay, HeldByTest, TestsTrace;
    if count == 0 {
      NoTestsNoTrace(tests);
      NothingReplayed(stack);
      t, k := 0, 0;
      assert [Namespace(t), TestDeps(t), TeardownHooks(t)][..0] == [] && stack + [] == stack;
    } else {
      var before, held := TestsTrace(tests, count - 1), HeldByTest(count - 1, tests[count - 1]);
      TestsTraceStep(tests, count);
      if n <= |before| {
        t, k := TestsMoment(tests, count - 1, n, stack);
        assert TestsTrace(tests, count)[..n] == before[..n];
      } else {
        var m := n - |before|;
        assert TestsTrace(tests, count)[..n] == before + Bracket(held, [])[..m];
        ReplayTests(tests, count - 1, stack);
        ReplayConcat(before, Bracket(held, [])[..m], stack);
        t := count - 1;
        k := TestMoment(t, tests[t], m, stack);
      }
    }
  }

  lemma TestMoment(t: nat, o: TestOutcome, m: nat, stack: seq<Resource>) returns (k: nat)
    requires m <= |Bracket(HeldByTest(t, o), [])|
    ensures k <= 3
    ensures Replay(Bracket(HeldByTest(t, o), [])[..m], stack) ==
      Some(stack + [Namespace(t), TestDeps(t), TeardownHooks(t)][..k])
  {
    var held, all := HeldByTest(t, o), [Namespace(t), TestDeps(t), TeardownHooks(t)];
    assert held == all[..|held|];
    hide HeldByTest, Bracket, Replay;
    NothingReplayed(stack + held);
    var inside;
    inside, k := BracketMoment(held, [], stack, m);
    if inside {
      var nothing: seq<Event> := [];
      assert nothing[..k] == [];
      k := |held|;
    } else {
      assert all[..k] == held[..k];
    }
  }

  // At every moment what is held is an initial part of: suite dependencies,
  // afterAll hooks, and one test's namespace, dependencies and teardown hooks,
  // acquired in this order. No two tests ever hold anything together.
  lemma HeldAtAnyMoment(o: FileOutcome, n: nat) returns (t: nat, k: nat)
    requires n <= |FileTrace(o)|
    ensures k <= 5
    ensures Replay(FileTrace(o)[..n], []) ==
      Some([SuiteDeps, AfterAllHooks, Namespace(t), TestDeps(t), TeardownHooks(t)][..k])
  {
    hide Bracket, Replay, TestsTrace;
    FileTraceIs(o);
    NothingHeld(true);
    NothingReplayed([]);
    t, k := 0, 0;
    if o.started && o.clusterOk && o.suiteOk {
      var held := if o.beforeAllOk then [SuiteDeps, AfterAllHooks] else [SuiteDeps];
      var inner := if o.beforeAllOk then TestsTrace(o.tests, |o.tests|) else [];
      assert [] + held == held;
      NothingReplayed(held);
      ReplayTests(o.tests, |o.tests|, held);
      var inside;
      inside, k := BracketMoment(held, inner, [], n);
      if inside && o.beforeAllOk {
        var part;
        t, part := TestsMoment(o.tests, |o.tests|, k, held);
        k := part + 2;
        assert held + [Namespace(t), TestDeps(t), TeardownHooks(t)][..part]
            == [SuiteDeps, AfterAllHooks, Namespace(t), TestDeps(t), TeardownHooks(t)][..k];
      } else if inside {
        assert inner[..k] == [];
        k := 1;
        assert held == [SuiteDeps, AfterAllHooks, Namespace(t), TestDeps(t), TeardownHooks(t)][..1];
      } else {
        assert [] + held[..k] == [SuiteDeps, AfterAllHooks, Namespace(t), TestDeps(t), TeardownHooks(t)][..k];
      }
    }
  }

  // The steps a resource depends on all succeeded.
  predicate Owns(o: FileOutcome, r: Resource) {
    && o.started && o.clusterOk && o.suiteOk
    && match r
       case SuiteDeps => true
       case AfterAllHooks => o.beforeAllOk
       case Namespace(t) => o.beforeAllOk && t < |o.tests| && TestReaches(o.tests[t])
       case TestDeps(t) => o.beforeAllOk && t < |o.tests| && TestReaches(o.tests[t]) && o.tests[t].depsOk
       case TeardownHooks(t) =>
         o.beforeAllOk && t < |o.tests| && TestReaches(o.tests[t]) && o.tests[t].depsOk && o.tests[t].setupOk
  }

  predicate TestReaches(o: TestOutcome) {
    o.selected && o.live && o.namespaceOk
  }

  ghost function Count(held: seq<Resource>, r: Resource): nat {
    multiset(held)[r]
  }

  lemma {:induction false} AcquiresCount(held: seq<Resource>, r: Resource)
    ensures multiset(Acquires(held))[Acquire(r)] == Count(held, r) && multiset(Acquires(held))[Release(r)] == 0
    decreases |held|
  {
    if held != [] {
      var front, last := held[..|held| - 1], held[|held| - 1];
      AcquiresCount(front, r);
      assert held == front + [last] && Acquires(held) == Acquires(front) + [Acquire(last)];
    }
  }

  lemma {:induction false} ReleasesCount(held: seq<Resource>, r: Resource)
    ensures multiset(Releases(held))[Release(r)] == Count(held, r) && multiset(Releases(held))[Acquire(r)] == 0
    decreases |held|
  {
    if held != [] {
      var front, last := held[..|held| - 1], held[|held| - 1];
      ReleasesCount(front, r);
      assert held == front + [last] && Releases(held) == [Release(last)] + Releases(front);
    }
  }

  lemma BracketCount(held: seq<Resource>, inner: seq<Event>, r: Resource)
    ensures multiset(Bracket(held, inner))[Acquire(r)] == Count(held, r) + multiset(inner)[Acquire(r)]
    ensures multiset(Bracket(held, inner))[Release(r)] == Count(held, r) + multiset(inner)[Release(r)]
  {
    AcquiresCount(held, r);
    ReleasesCount(held, r);
  }

  ghost predicate HeldInTests(tests: seq<TestOutcome>, n: nat, r: Resource)
    requires n <= |tests|
  {
    exists t :: 0 <= t < n && r in HeldByTest(t, tests[t])
  }

  lemma HeldByTestOnce(t: nat, o: TestOutcome, r: Resource)
    ensures Count(HeldByTest(t, o), r) == if r in HeldByTest(t, o) then 1 else 0
    ensures r in HeldByTest(t, o) <==>
      && TestReaches(o)
      && (r == Namespace(t) || (o.depsOk && r == TestDeps(t)) || (o.depsOk && o.setupOk && r == TeardownHooks(t)))
  {
    var held := HeldByTest(t, o);
    assert TestReaches(o) ==> held[0] == Namespace(t);
    assert TestReaches(o) && o.depsOk ==> held[1] == TestDeps(t);
    assert TestReaches(o) && o.depsOk && o.setupOk ==> held[2] == TeardownHooks(t);
  }

  lemma HeldByFileOnce(o: FileOutcome, r: Resource)
    ensures Count(HeldByFile(o), r) == if r in HeldByFile(o) then 1 else 0
    ensures r in HeldByFile(o) <==>
      o.started && o.clusterOk && o.suiteOk && (r == SuiteDeps || (r == AfterAllHooks && o.beforeAllOk))
  {
    var held := HeldByFile(o);
    assert o.started && o.clusterOk && o.suiteOk ==> held[0] == SuiteDeps;
    assert o.started && o.clusterOk && o.suiteOk && o.beforeAllOk ==> held[1] == AfterAllHooks;
  }

  lemma NotInNoTests(tests: seq<TestOutcome>, r: Resource)
    ensures !HeldInTests(tests, 0, r)
  {
  }

  lemma HeldInTestsStep(tests: seq<TestOutcome>, n: nat, r: Resource)
    requires 0 < n <= |tests|
    ensures var before, now := HeldInTests(tests, n - 1, r), r in HeldByTest(n - 1, tests[n - 1]);
      (HeldInTests(tests, n, r) <==> before || now) && !(before && now)
  {
    hide HeldByTest;
    forall t | 0 <= t < n { HeldByTestOnce(t, tests[t], r); }
  }

  lemma {:induction false} TestsCount(tests: seq<TestOutcome>, n: nat, r: Resource)
    requires n <= |tests|
    ensures var c := if HeldInTests(tests, n, r) then 1 else 0;
      multiset(TestsTrace(tests, n))[Acquire(r)] == c && multiset(TestsTrace(tests, n))[Release(r)] == c
    decreases n
  {
    hide HeldByTest, HeldInTests, Count, Bracket, TestsTrace;
    if n == 0 {
      NoTestsNoTrace(tests);
      NotInNoTests(tests, r);
    } else {
      var held := HeldByTest(n - 1, tests[n - 1]);
      TestsTraceStep(tests, n);
      HeldInTestsStep(tests, n, r);
      TestsCount(tests, n - 1, r);
      BracketCount(held, [], r);
      HeldByTestOnce(n - 1, tests[n - 1], r);
    }
  }

  // Exactly the owned resources are acquired, once each, and each is released
  // once.
  lemma OwnedOnce(o: FileOutcome, r: Resource)
    ensures var c := if Owns(o, r) then 1 else 0;
      multiset(FileTrace(o))[Acquire(r)] == c && multiset(FileTrace(o))[Release(r)] == c
    ensures Owns(o, r) <==>
      && o.started && o.clusterOk && o.suiteOk
      && (r.SuiteDeps? || o.beforeAllOk)
      && (r.Namespace? || r.TestDeps? || r.TeardownHooks? ==>
            && r.test < |o.tests|
            && o.tests[r.test].selected && o.tests[r.test].live && o.tests[r.test].namespaceOk
            && (r.Namespace? || o.tests[r.test].depsOk)
            && (r.TeardownHooks? ==> o.tests[r.test].setupOk))
  {
    hide HeldByTest, HeldByFile, Count, Bracket, TestsTrace;
    var held := HeldByFile(o);
    HeldByFileOnce(o, r);
    HeldByFileOnce(o, AfterAllHooks);
    TestsCount(o.tests, |o.tests|, r);
    BracketCount(held, if AfterAllHooks in held then TestsTrace(o.tests, |o.tests|) else [], r);
    forall t | 0 <= t < |o.tests|
      ensures r in HeldByTest(t, o.tests[t]) <==>
        && TestReaches(o.tests[t])
        && (|| r == Namespace(t)
            || (o.tests[t].depsOk && r == TestDeps(t))
            || (o.tests[t].depsOk && o.tests[t].setupOk && r == TeardownHooks(t)))
    {
      HeldByTestOnce(t, o.tests[t], r);
    }
  }

  lemma KeptEmpty(keepCluster: bool)
    ensures Kept(keepCluster, []) == []
  {
  }

  lemma KeptStep(keepCluster: bool, events: seq<Event>)
    requires events != []
    ensures var last := events[|events| - 1];
      Kept(keepCluster, events) ==
        Kept(keepCluster, events[..|events| - 1]) + (if keepCluster && Preserved(last) then [] else [last])
  {
  }

  // --keep-cluster drops the preserved releases and nothing else.
  lemma {:induction false} KeepClusterDropsOnlyPreserved(events: seq<Event>, e: Event)
    ensures multiset(Kept(true, events))[e] ==
      if e.Release? && (e.r.SuiteDeps? || e.r.Namespace? || e.r.TestDeps?) then 0 else multiset(events)[e]
    decreases |events|
  {
    hide Kept;
    if events == [] {
      KeptEmpty(true);
    } else {
      var front, last := events[..|events| - 1], events[|events| - 1];
      KeepClusterDropsOnlyPreserved(front, e);
      KeptStep(true, events);
      assert events == front + [last];
    }
  }

  lemma {:induction false} WithoutKeepClusterNothingIsDropped(events: seq<Event>)
    ensures Kept(false, events) == events
    decreases |events|
  {
    if events != [] {
      WithoutKeepClusterNothingIsDropped(events[..|events| - 1]);
    }
  }
}
