// internal/runner/parallel.go and the fail-fast closure of internal/runner/
// runner.go as one machine: each goroutine takes the steps below, in any
// interleaving the scheduler picks.
module WorkerPool {
  import opened Wrappers
  import opened Sets

  datatype TestResult = TestResult(pass: bool, skipped: bool)

  datatype SuiteResult = SuiteResult(file: string, results: seq<TestResult>)

  // What one call of the work closure returns; ran is false when the closure
  // found the run cancelled and never opened the file.
  datatype Outcome = Outcome(ran: bool, suite: SuiteResult, err: Option<string>)

  datatype Config = Config(files: seq<string>, parallelism: int, failFast: bool)

  // Where one goroutine stands.
  datatype Phase =
    | Queued                  // blocked on the semaphore
    | Entered                 // holds a slot, about to look at the cancel flag
    | Working                 // runFile in progress
    | Judged(o: Outcome)      // runFile returned, cancel not yet signalled
    | Returned(o: Outcome)    // the closure returned
    | Stored(o: Outcome)      // results[idx] and errs[idx] written
    | Exited(o: Outcome)      // slot given back

  datatype State = State(
    phases: seq<Phase>,
    results: seq<SuiteResult>,
    errs: seq<Option<string>>,
    cancelled: bool)

  datatype Step =
    | Acquire(i: nat)
    | Check(i: nat)
    | Finish(i: nat, o: Outcome)
    | Signal(i: nat)
    | Store(i: nat)
    | Release(i: nat)

  ghost predicate HasFailure(suite: SuiteResult) {
    exists t :: t in suite.results && !t.pass && !t.skipped
  }

  // SuiteHasFailure: any non-skipped failing test.
  method SuiteHasFailure(suite: SuiteResult) returns (failed: bool)
    ensures failed <==> exists t :: t in suite.results && !t.pass && !t.skipped
  {
    for k := 0 to |suite.results|
      invariant forall t :: t in suite.results[..k] ==> t.pass || t.skipped
    {
      if !suite.results[k].pass && !suite.results[k].skipped {
        assert suite.results[k] in suite.results;
        return true;
      }
    }
    return false;
  }

  method AnyFailed(suites: seq<SuiteResult>) returns (failed: bool)
    ensures failed <==> exists suite, t :: suite in suites && t in suite.results && !t.pass && !t.skipped
  {
    for k := 0 to |suites|
      invariant forall suite, t :: suite in suites[..k] && t in suite.results ==> t.pass || t.skipped
    {
      assert suites[..k + 1] == suites[..k] + [suites[k]];
      var f := SuiteHasFailure(suites[k]);
      if f {
        assert suites[k] in suites;
        return true;
      }
    }
    assert suites[..|suites|] == suites;
    return false;
  }

  // ---------------------------------------------------------------- machine

  function Slots(c: Config): (cap: int) {
    if c.parallelism <= 0 then 1 else c.parallelism
  }

  const NO_SUITE := SuiteResult("", [])

  ghost function Init(c: Config): State {
    State(seq(|c.files|, _ => Queued), seq(|c.files|, _ => NO_SUITE), seq(|c.files|, _ => None), false)
  }

  predicate Holding(p: Phase) {
    !p.Queued? && !p.Exited?
  }

  ghost function Holders(phases: seq<Phase>): set<nat> {
    set i: nat | i < |phases| && Holding(phases[i])
  }

  ghost predicate Trips(c: Config, o: Outcome) {
    c.failFast && o.ran && o.err.None? && HasFailure(o.suite)
  }

  ghost predicate Enabled(c: Config, s: State, t: Step) {
    && t.i < |s.phases|
    && match t
       case Acquire(i) => s.phases[i].Queued? && |Holders(s.phases)| < Slots(c)
       case Check(i) => s.phases[i].Entered?
       case Finish(i, o) => s.phases[i].Working? && o.ran
       case Signal(i) => s.phases[i].Judged?
       case Store(i) => s.phases[i].Returned?
       case Release(i) => s.phases[i].Stored?
  }

  ghost predicate WellFormed(c: Config, s: State) {
    |s.phases| == |s.results| == |s.errs| == |c.files|
  }

  ghost function Next(c: Config, s: State, t: Step): (s': State)
    requires WellFormed(c, s) && Enabled(c, s, t)
    ensures WellFormed(c, s')
  {
    match t
    case Acquire(i) => s.(phases := s.phases[i := Entered])
    case Check(i) =>
      if s.cancelled then s.(phases := s.phases[i := Returned(Outcome(false, SuiteResult(c.files[i], []), None))])
      else s.(phases := s.phases[i := Working])
    case Finish(i, o) => s.(phases := s.phases[i := Judged(o)])
    case Signal(i) =>
      var o := s.phases[i].o;
      s.(phases := s.phases[i := Returned(o)], cancelled := s.cancelled || Trips(c, o))
    case Store(i) =>
      var o := s.phases[i].o;
      s.(phases := s.phases[i := Stored(o)], results := s.results[i := o.suite], errs := s.errs[i := o.err])
    case Release(i) => s.(phases := s.phases[i := Exited(s.phases[i].o)])
  }

  // The state a schedule leads to, if every step of it was enabled.
  ghost function After(c: Config, steps: seq<Step>): (s: Option<State>)
    ensures s.Some? ==> WellFormed(c, s.value)
  {
    if steps == [] then Some(Init(c))
    else
      var before, t := After(c, steps[..|steps| - 1]), steps[|steps| - 1];
      if before.Some? && Enabled(c, before.value, t) then Some(Next(c, before.value, t)) else None
  }

  ghost predicate Done(s: State) {
    forall i :: 0 <= i < |s.phases| ==> s.phases[i].Exited?
  }

  // -------------------------------------------------------------- invariants

  // The goroutines between acquiring a slot and giving it back.
  ghost predicate AreInside(phases: seq<Phase>, inside: set<nat>) {
    forall j: nat :: j in inside <==> j < |phases| && !phases[j].Queued? && !phases[j].Exited?
  }

  // A queued goroutine may take a slot exactly while fewer than
  // max(1, parallelism) others are inside.
  lemma RoomDecides(c: Config, steps: seq<Step>, i: nat, inside: set<nat>)
    requires After(c, steps).Some? && AreInside(After(c, steps).value.phases, inside)
    requires i < |c.files| && After(c, steps).value.phases[i].Queued?
    ensures var room := |inside| < if c.parallelism <= 0 then 1 else c.parallelism;
      After(c, steps + [Acquire(i)]).Some? <==> room
  {
    assert inside == Holders(After(c, steps).value.phases);
    assert (steps + [Acquire(i)])[..|steps|] == steps;
  }

  // At most max(1, parallelism) goroutines are ever inside.
  lemma SlotsRespected(c: Config, steps: seq<Step>, inside: set<nat>)
    requires After(c, steps).Some? && AreInside(After(c, steps).value.phases, inside)
    ensures |inside| <= if c.parallelism <= 0 then 1 else c.parallelism
  {
    HoldersFitSlots(c, steps);
    assert inside == Holders(After(c, steps).value.phases);
  }

  // The slots are never overcommitted.
  lemma {:induction false} HoldersFitSlots(c: Config, steps: seq<Step>)
    requires After(c, steps).Some?
    ensures |Holders(After(c, steps).value.phases)| <= Slots(c)
  {
    if steps == [] {
      assert Holders(Init(c).phases) == {};
    } else {
      HoldersFitSlots(c, steps[..|steps| - 1]);
      HoldersStep(c, After(c, steps[..|steps| - 1]).value, steps[|steps| - 1]);
    }
  }

  // The steps of one goroutine, in schedule order.
  ghost function StepsOf(steps: seq<Step>, i: nat): seq<Step> {
    if steps == [] then []
    else
      var t := steps[|steps| - 1];
      StepsOf(steps[..|steps| - 1], i) + (if t.i == i then [t] else [])
  }

  // The only history a goroutine can have when it stands at a phase: work is
  // called once, and what it returned is what gets stored.
  ghost function History(p: Phase, i: nat): seq<Step> {
    match p
    case Queued => []
    case Entered => [Acquire(i)]
    case Working => [Acquire(i), Check(i)]
    case Judged(o) => [Acquire(i), Check(i), Finish(i, o)]
    case Returned(o) => WorkHistory(o, i)
    case Stored(o) => WorkHistory(o, i) + [Store(i)]
    case Exited(o) => WorkHistory(o, i) + [Store(i), Release(i)]
  }

  ghost function WorkHistory(o: Outcome, i: nat): seq<Step> {
    [Acquire(i), Check(i)] + if o.ran then [Finish(i, o), Signal(i)] else []
  }

  lemma HistoryStep(c: Config, s: State, t: Step, i: nat)
    requires WellFormed(c, s) && Enabled(c, s, t) && i < |c.files|
    requires s.phases[i].Judged? ==> s.phases[i].o.ran
    ensures var p := Next(c, s, t).phases[i];
      && History(p, i) == History(s.phases[i], i) + (if t.i == i then [t] else [])
      && (p.Judged? ==> p.o.ran)
  {
  }

  lemma {:induction false} HistoryOfWorker(c: Config, steps: seq<Step>, i: nat)
    requires After(c, steps).Some? && i < |c.files|
    ensures StepsOf(steps, i) == History(After(c, steps).value.phases[i], i)
    ensures var p := After(c, steps).value.phases[i]; p.Judged? ==> p.o.ran
  {
    if steps != [] {
      hide Next, Enabled, History;
      var before, t := After(c, steps[..|steps| - 1]).value, steps[|steps| - 1];
      HistoryOfWorker(c, steps[..|steps| - 1], i);
      HistoryStep(c, before, t, i);
    } else {
      assert Init(c).phases[i] == Queued;
    }
  }

  // What a goroutine past its work has left in the shared slices, and why a
  // file was left unrun.
  ghost predicate Recorded(c: Config, s: State, i: nat)
    requires WellFormed(c, s) && i < |c.files|
  {
    var p := s.phases[i];
    && (p.Stored? || p.Exited? ==> s.results[i] == p.o.suite && s.errs[i] == p.o.err)
    && (p.Returned? || p.Stored? || p.Exited? ==>
          !p.o.ran ==> s.cancelled && p.o == Outcome(false, SuiteResult(c.files[i], []), None))
  }

  lemma {:induction false} RecordedAlways(c: Config, steps: seq<Step>, i: nat)
    requires After(c, steps).Some? && i < |c.files|
    ensures Recorded(c, After(c, steps).value, i)
  {
    if steps != [] {
      hide StepsOf, History, Next, Enabled, Recorded;
      var front, t := steps[..|steps| - 1], steps[|steps| - 1];
      RecordedAlways(c, front, i);
      HistoryOfWorker(c, front, i);
      RecordedStep(c, After(c, front).value, t, i);
    }
  }

  lemma RecordedStep(c: Config, s: State, t: Step, i: nat)
    requires WellFormed(c, s) && Enabled(c, s, t) && i < |c.files| && Recorded(c, s, i)
    requires s.phases[i].Judged? ==> s.phases[i].o.ran
    ensures Recorded(c, Next(c, s, t), i)
  {
  }

  // A goroutine that signalled a failure (or will find the flag already set).
  predicate Signalled(p: Phase) {
    p.Returned? || p.Stored? || p.Exited?
  }

  // The run is cancelled exactly when fail-fast is on and some goroutine has
  // come back from a file that ran without an error and failed a test.
  lemma CancelledExactlyOnFailure(c: Config, steps: seq<Step>)
    requires After(c, steps).Some?
    ensures var s := After(c, steps).value;
      s.cancelled <==> c.failFast && exists i, t ::
        && 0 <= i < |s.phases| && (s.phases[i].Returned? || s.phases[i].Stored? || s.phases[i].Exited?)
        && s.phases[i].o.ran && s.phases[i].o.err.None?
        && t in s.phases[i].o.suite.results && !t.pass && !t.skipped
  {
    CancelledBySome(c, steps);
  }

  // Once the run is cancelled a goroutine that looks leaves its file alone, and
  // only then.
  lemma CheckDecides(c: Config, steps: seq<Step>, i: nat)
    requires After(c, steps + [Check(i)]).Some? && i < |c.files|
    ensures After(c, steps).Some?
    ensures After(c, steps + [Check(i)]).value.phases[i] ==
      if After(c, steps).value.cancelled then Returned(Outcome(false, SuiteResult(c.files[i], []), None)) else Working
  {
    assert (steps + [Check(i)])[..|steps|] == steps;
  }

  // The cancel flag is up exactly when a signalled outcome trips it.
  lemma {:induction false} CancelledBySome(c: Config, steps: seq<Step>)
    requires After(c, steps).Some?
    ensures var s := After(c, steps).value;
      s.cancelled <==> exists i :: 0 <= i < |s.phases| && Signalled(s.phases[i]) && Trips(c, s.phases[i].o)
  {
    if steps != [] {
      var before, t := After(c, steps[..|steps| - 1]).value, steps[|steps| - 1];
      CancelledBySome(c, steps[..|steps| - 1]);
      var after := Next(c, before, t);
      forall i | 0 <= i < |before.phases| && Signalled(before.phases[i]) && Trips(c, before.phases[i].o)
        ensures Signalled(after.phases[i]) && Trips(c, after.phases[i].o) {}
      assert after.phases[t.i] == after.phases[t.i];
    }
  }

  // Files that failed, or still may.
  ghost function Risky(c: Config, s: State): set<nat> {
    set i: nat | i < |s.phases| &&
      (s.phases[i].Working? ||
       ((s.phases[i].Judged? || Signalled(s.phases[i])) && Trips(c, s.phases[i].o)))
  }

  lemma {:induction false} RiskyFitSlots(c: Config, steps: seq<Step>)
    requires After(c, steps).Some? && c.failFast
    ensures |Risky(c, After(c, steps).value)| <= Slots(c)
  {
    var s := After(c, steps).value;
    if !s.cancelled {
      CancelledBySome(c, steps);
      HoldersFitSlots(c, steps);
      SubsetIsSmaller(Risky(c, s), Holders(s.phases));
    } else if steps != [] {
      RiskyFitSlots(c, steps[..|steps| - 1]);
      SubsetIsSmaller(Risky(c, s), Risky(c, After(c, steps[..|steps| - 1]).value));
    }
  }

  // --------------------------------------------------------------- liveness

  function StepsLeft(p: Phase): nat {
    match p
    case Queued => 6
    case Entered => 5
    case Working => 4
    case Judged(_) => 3
    case Returned(_) => 2
    case Stored(_) => 1
    case Exited(_) => 0
  }

  ghost function TotalLeft(phases: seq<Phase>): nat {
    if phases == [] then 0 else StepsLeft(phases[0]) + TotalLeft(phases[1..])
  }

  lemma TotalLeftUpdate(phases: seq<Phase>, i: nat, p: Phase)
    requires i < |phases|
    ensures TotalLeft(phases[i := p]) == TotalLeft(phases) - StepsLeft(phases[i]) + StepsLeft(p)
  {
    if i == 0 {
      assert phases[i := p][1..] == phases[1..];
    } else {
      TotalLeftUpdate(phases[1..], i - 1, p);
      assert phases[i := p][1..] == phases[1..][i - 1 := p];
    }
  }

  lemma NextDecreases(c: Config, s: State, t: Step)
    requires WellFormed(c, s) && Enabled(c, s, t)
    ensures TotalLeft(Next(c, s, t).phases) < TotalLeft(s.phases)
  {
    TotalLeftUpdate(s.phases, t.i, Next(c, s, t).phases[t.i]);
  }

  lemma InitiallyLeft(n: nat)
    ensures TotalLeft(seq(n, _ => Queued)) == 6 * n
  {
    if n > 0 {
      InitiallyLeft(n - 1);
      assert seq(n, _ => Queued)[1..] == seq(n - 1, _ => Queued);
    }
  }

  // No schedule is longer than six steps per file, so every one ends...
  lemma {:induction false} SchedulesAreBounded(c: Config, steps: seq<Step>)
    requires After(c, steps).Some?
    ensures |steps| + TotalLeft(After(c, steps).value.phases) <= 6 * |c.files|
  {
    if steps == [] {
      InitiallyLeft(|c.files|);
    } else {
      SchedulesAreBounded(c, steps[..|steps| - 1]);
      NextDecreases(c, After(c, steps[..|steps| - 1]).value, steps[|steps| - 1]);
    }
  }

  // ...and it can only end with every goroutine gone.
  lemma NoDeadlock(c: Config, steps: seq<Step>)
    requires After(c, steps).Some?
    ensures var s := After(c, steps).value; !Done(s) ==> exists t :: Enabled(c, s, t)
  {
    var s := After(c, steps).value;
    if i: nat :| i < |s.phases| && Holding(s.phases[i]) {
      var o := Outcome(true, NO_SUITE, None);
      var t := match s.phases[i] {
        case Entered => Check(i)
        case Working => Finish(i, o)
        case Judged(_) => Signal(i)
        case Returned(_) => Store(i)
        case _ => Release(i)
      };
      assert Enabled(c, s, t);
    } else if i: nat :| i < |s.phases| && !s.phases[i].Exited? {
      assert Holders(s.phases) == {};
      assert Enabled(c, s, Acquire(i));
    }
  }

  // -------------------------------------------------------------- end of run

  // What the finished run says about file i: the closure was called once, its
  // result sits at the file's own index, and a file never opened reports an
  // empty suite under its own name.
  ghost predicate Accounted(c: Config, steps: seq<Step>, s: State, i: nat, o: Outcome)
    requires WellFormed(c, s) && i < |c.files|
  {
    && StepsOf(steps, i) == WorkHistory(o, i) + [Store(i), Release(i)]
    && s.results[i] == o.suite && s.errs[i] == o.err
    && (!o.ran ==> o == Outcome(false, SuiteResult(c.files[i], []), None))
  }

  lemma EveryFileAccounted(c: Config, steps: seq<Step>, i: nat) returns (o: Outcome)
    requires After(c, steps).Some? && Done(After(c, steps).value) && i < |c.files|
    ensures Accounted(c, steps, After(c, steps).value, i, o)
    ensures StepsOf(steps, i) ==
      [Acquire(i), Check(i)] + (if o.ran then [Finish(i, o), Signal(i)] else []) + [Store(i), Release(i)]
    ensures var s := After(c, steps).value;
      s.results[i] == o.suite && s.errs[i] == o.err
    ensures !o.ran ==> o.suite == SuiteResult(c.files[i], []) && o.err == None
  {
    HistoryOfWorker(c, steps, i);
    RecordedAlways(c, steps, i);
    o := After(c, steps).value.phases[i].o;
  }

  // A green result cannot hide a file that fail-fast kept from running.
  lemma UnrunMeansFailed(c: Config, steps: seq<Step>, i: nat, o: Outcome)
    requires After(c, steps).Some? && Done(After(c, steps).value) && i < |c.files|
    requires Accounted(c, steps, After(c, steps).value, i, o) && !o.ran
    ensures c.failFast
    ensures exists suite, t :: suite in After(c, steps).value.results && t in suite.results && !t.pass && !t.skipped
  {
    var s := After(c, steps).value;
    HistoryOfWorker(c, steps, i);
    RecordedAlways(c, steps, i);
    assert |StepsOf(steps, i)| == 4 && !s.phases[i].o.ran;
    CancelledBySome(c, steps);
    var j :| 0 <= j < |s.phases| && Signalled(s.phases[j]) && Trips(c, s.phases[j].o);
    RecordedAlways(c, steps, j);
    assert HasFailure(s.results[j]) && s.results[j] in s.results;
  }

  // Fail-fast lets at most one failing file per slot through.
  lemma FailuresFitSlots(c: Config, steps: seq<Step>, failing: set<nat>)
    requires After(c, steps).Some? && Done(After(c, steps).value) && c.failFast
    requires forall i :: i in failing ==>
      && i < |c.files| && After(c, steps).value.errs[i].None?
      && exists t :: t in After(c, steps).value.results[i].results && !t.pass && !t.skipped
    ensures |failing| <= if c.parallelism <= 0 then 1 else c.parallelism
  {
    var s := After(c, steps).value;
    forall i | i in failing ensures i in Risky(c, s) {
      assert HasFailure(s.results[i]);
      RecordedAlways(c, steps, i);
    }
    RiskyFitSlots(c, steps);
    SubsetIsSmaller(failing, Risky(c, s));
  }

  // A goroutine past its work stays past it.
  lemma {:induction false} FinishedStays(c: Config, steps: seq<Step>, j: nat)
    requires After(c, steps).Some? && j < |steps| && steps[j].Finish?
    ensures steps[j].i < |c.files|
    ensures var p := After(c, steps).value.phases[steps[j].i]; !p.Queued? && !p.Entered? && !p.Working?
  {
    if j < |steps| - 1 { FinishedStays(c, steps[..|steps| - 1], j); }
  }

  // Whatever the interleaving, no file is worked on twice.
  lemma {:induction false} WorkedOnce(c: Config, steps: seq<Step>, j: nat, k: nat)
    requires After(c, steps).Some? && j < k < |steps|
    requires steps[j].Finish? && steps[k].Finish?
    ensures steps[j].i != steps[k].i
  {
    var front := steps[..|steps| - 1];
    if k < |steps| - 1 {
      WorkedOnce(c, front, j, k);
    } else {
      FinishedStays(c, front, j);
    }
  }

  // ------------------------------------------------------------- runParallel

  // The next action of goroutine i, on the shared slices. runFile may return
  // anything.
  method Move(c: Config, i: nat, phases: array<Phase>, suites: array<SuiteResult>,
              errs: array<Option<string>>, cancelled0: bool, inUse0: int, ghost s: State)
    returns (cancelled: bool, inUse: int, ghost t: Step)
    requires phases.Length == suites.Length == errs.Length == |c.files| && i < |c.files|
    requires s == State(phases[..], suites[..], errs[..], cancelled0)
    requires inUse0 == |Holders(s.phases)| && CanMove(c, phases[i], inUse0)
    requires s.phases[i].Judged? ==> s.phases[i].o.ran
    modifies phases, suites, errs
    ensures t.i == i && Enabled(c, s, t)
    ensures Next(c, s, t) == State(phases[..], suites[..], errs[..], cancelled)
    ensures inUse == |Holders(phases[..])|
  {
    hide Holders;
    cancelled, inUse := cancelled0, inUse0;
    match phases[i] {
      case Queued =>
        t := Acquire(i);
        phases[i], inUse := Entered, inUse + 1;
      case Entered =>
        t := Check(i);
        phases[i] := if cancelled then Returned(Outcome(false, SuiteResult(c.files[i], []), None)) else Working;
      case Working =>
        var suite: SuiteResult, err: Option<string> := *, *;
        t := Finish(i, Outcome(true, suite, err));
        phases[i] := Judged(Outcome(true, suite, err));
      case Judged(o) =>
        t := Signal(i);
        var failed := SuiteHasFailure(o.suite);
        if c.failFast && o.err.None? && failed { cancelled := true; }
        phases[i] := Returned(o);
      case Returned(o) =>
        t := Store(i);
        suites[i], errs[i], phases[i] := o.suite, o.err, Stored(o);
      case Stored(o) =>
        t := Release(i);
        phases[i], inUse := Exited(o), inUse - 1;
    }
    HoldersStep(c, s, t);
  }

  // The goroutines of Run over the shared slices, driven by a scheduler that
  // may pick any goroutine able to move.
  method RunParallel(c: Config) returns (results: seq<SuiteResult>, err: Option<string>)
    ensures exists steps ::
      && After(c, steps).Some?
      && var s := After(c, steps).value;
         && (forall i :: 0 <= i < |s.phases| ==> s.phases[i].Exited?)
         && results == s.results && |results| == |c.files|
         && (err.None? <==> forall i :: 0 <= i < |s.errs| ==> s.errs[i].None?)
         && (err.Some? ==>
              exists i :: 0 <= i < |s.errs| && s.errs[i] == err && forall j :: 0 <= j < i ==> s.errs[j].None?)
  {
    hide After, TotalLeft, StepsOf, History, Holders, HasFailure, Next, Enabled;
    var n := |c.files|;
    var phases := new Phase[n](_ => Queued);
    var suites := new SuiteResult[n](_ => NO_SUITE);
    var errs := new Option<string>[n](_ => None);
    var cancelled, inUse := false, 0;
    ghost var steps, s := [], Init(c);
    StartOfRun(c);
    while exists i :: 0 <= i < n && CanMove(c, phases[i], inUse)
      invariant After(c, steps) == Some(s)
      invariant s == State(phases[..], suites[..], errs[..], cancelled)
      invariant inUse == |Holders(s.phases)|
      decreases TotalLeft(s.phases)
    {
      var i: nat :| i < n && CanMove(c, phases[i], inUse);
      HistoryOfWorker(c, steps, i);
      ghost var t;
      cancelled, inUse, t := Move(c, i, phases, suites, errs, cancelled, inUse, s);
      NextDecreases(c, s, t);
      OneMoreStep(c, steps, s, t);
      s, steps := Next(c, s, t), steps + [t];
    }
    AllGone(c, steps, phases[..], inUse);
    results := suites[..];
    for i := 0 to n
      invariant forall j :: 0 <= j < i ==> errs[j].None?
    {
      if errs[i].Some? {
        assert s.errs[i] == errs[i] && forall j :: 0 <= j < i ==> s.errs[j].None?;
        return results, errs[i];
      }
    }
    err := None;
  }

  predicate CanMove(c: Config, p: Phase, inUse: int) {
    if p.Queued? then inUse < Slots(c) else !p.Exited?
  }

  lemma HoldersStep(c: Config, s: State, t: Step)
    requires WellFormed(c, s) && Enabled(c, s, t)
    ensures |Holders(Next(c, s, t).phases)| ==
      |Holders(s.phases)| + (if t.Acquire? then 1 else if t.Release? then -1 else 0)
  {
    hide Holders;
    HoldersUpdate(s.phases, t.i, Next(c, s, t).phases[t.i]);
  }

  lemma HoldersUpdate(phases: seq<Phase>, i: nat, p: Phase)
    requires i < |phases|
    ensures |Holders(phases[i := p])| ==
      |Holders(phases)| - (if Holding(phases[i]) then 1 else 0) + (if Holding(p) then 1 else 0)
  {
    hide Holders;
    assert phases[i := phases[i]] == phases;
    HoldersWith(phases, i, phases[i]);
    HoldersWith(phases, i, p);
  }

  lemma HoldersWith(phases: seq<Phase>, i: nat, p: Phase)
    requires i < |phases|
    ensures Holders(phases[i := p]) == (Holders(phases) - {i}) + (if Holding(p) then {i} else {})
  {
  }

  lemma StartOfRun(c: Config)
    ensures After(c, []) == Some(Init(c)) && Holders(Init(c).phases) == {}
  {
  }

  lemma OneMoreStep(c: Config, steps: seq<Step>, s: State, t: Step)
    requires After(c, steps) == Some(s) && Enabled(c, s, t)
    ensures After(c, steps + [t]) == Some(Next(c, s, t))
  {
    assert (steps + [t])[..|steps|] == steps;
  }

  lemma AllGone(c: Config, steps: seq<Step>, phases: seq<Phase>, inUse: int)
    requires After(c, steps).Some? && phases == After(c, steps).value.phases && inUse == |Holders(phases)|
    requires forall i :: 0 <= i < |phases| ==> !CanMove(c, phases[i], inUse)
    ensures Done(After(c, steps).value)
  {
    NoDeadlock(c, steps);
    assert Holders(phases) == {};
  }
}
