// internal/deps/dag.go: name validation, Kahn's algorithm, the cycle report and
// longest-chain batches.
module Dag {
  import opened Wrappers
  import opened Sets
  import opened Dependencies
  import opened DependencyGraph

  datatype DagError =
    | UnknownRef(dep: string, ref: string)
    | Cycle(names: seq<string>)

  // ---------------------------------------------------------- validateNames

  // The i-th dependency's j-th dependsOn entry is the first one, in declaration
  // order, that names nothing declared.
  ghost predicate FirstUnknown(deps: seq<Dependency>, i: nat, j: nat) {
    && i < |deps| && j < |deps[i].dependsOn|
    && deps[i].dependsOn[j] !in Names(deps)
    && (forall ref :: ref in deps[i].dependsOn[..j] ==> ref in Names(deps))
    && forall d, ref :: d in deps[..i] && ref in d.dependsOn ==> ref in Names(deps)
  }

  lemma FirstUnknownIs(deps: seq<Dependency>, i: nat, j: nat)
    requires FirstUnknown(deps, i, j)
    ensures i < |deps| && j < |deps[i].dependsOn|
    ensures forall d :: d in deps ==> d.name != deps[i].dependsOn[j]
    ensures forall k: nat, l: nat :: k < |deps| && l < |deps[k].dependsOn| && (k < i || (k == i && l < j)) ==>
      exists d :: d in deps && d.name == deps[k].dependsOn[l]
  {
    forall k: nat, l: nat | k < |deps| && l < |deps[k].dependsOn| && (k < i || (k == i && l < j))
      ensures exists d :: d in deps && d.name == deps[k].dependsOn[l]
    {
      var ref := deps[k].dependsOn[l];
      if k < i {
        assert deps[..i][k] in deps[..i] && ref in deps[k].dependsOn;
      } else {
        assert deps[i].dependsOn[..j][l] == ref;
      }
      assert ref in Names(deps);
    }
  }

  method ValidateNames(deps: seq<Dependency>) returns (err: Option<DagError>)
    ensures err.None? <==> KnownNames(deps)
    ensures err.Some? ==> exists i: nat, j: nat ::
      FirstUnknown(deps, i, j) && err.value == UnknownRef(deps[i].name, deps[i].dependsOn[j])
  {
    var known: set<string> := {};
    for i := 0 to |deps|
      invariant known == Names(deps[..i])
    {
      assert deps[..i + 1] == deps[..i] + [deps[i]];
      known := known + {deps[i].name};
    }
    assert deps[..|deps|] == deps;
    for i := 0 to |deps|
      invariant forall d, ref :: d in deps[..i] && ref in d.dependsOn ==> ref in known
    {
      var reqs := deps[i].dependsOn;
      for j := 0 to |reqs|
        invariant forall ref :: ref in reqs[..j] ==> ref in known
      {
        if reqs[j] !in known {
          assert deps[i] in deps && reqs[j] in deps[i].dependsOn;
          assert FirstUnknown(deps, i, j);
          return Some(UnknownRef(deps[i].name, reqs[j]));
        }
      }
    }
    return None;
  }

  // --------------------------------------------------------------- topoSort

  // dependents[p], empty when p was never a key.
  function Waiting(dependents: map<string, seq<string>>, p: string): seq<string> {
    if p in dependents then dependents[p] else []
  }

  // dependents[p] lists n once for every declared edge n -> p.
  ghost predicate CountsEdges(deps: seq<Dependency>, dependents: map<string, seq<string>>) {
    forall n, p :: multiset(Waiting(dependents, p))[n] == EdgeCount(deps, n, p)
  }

  // What the two set-up loops of topoSort leave behind.
  ghost predicate Counted(deps: seq<Dependency>, inDegree: map<string, int>,
                          byName: map<string, Dependency>, dependents: map<string, seq<string>>)
  {
    && inDegree.Keys == byName.Keys == Names(deps)
    && (forall n :: n in Names(deps) ==>
          byName[n] == LastNamed(deps, n) && inDegree[n] == |LastNamed(deps, n).dependsOn|)
    && CountsEdges(deps, dependents)
  }

  method CountEdges(deps: seq<Dependency>)
    returns (inDegree: map<string, int>, byName: map<string, Dependency>, dependents: map<string, seq<string>>)
    ensures Counted(deps, inDegree, byName, dependents)
  {
    inDegree, byName := CountPrerequisites(deps);
    dependents := CollectDependents(deps);
  }

  method CountPrerequisites(deps: seq<Dependency>) returns (inDegree: map<string, int>, byName: map<string, Dependency>)
    ensures inDegree.Keys == byName.Keys == Names(deps)
    ensures forall n :: n in Names(deps) ==>
      byName[n] == LastNamed(deps, n) && inDegree[n] == |LastNamed(deps, n).dependsOn|
  {
    inDegree, byName := map[], map[];
    for i := 0 to |deps|
      invariant inDegree.Keys == byName.Keys == Names(deps[..i])
      invariant forall n :: n in Names(deps[..i]) ==>
        byName[n] == LastNamed(deps[..i], n) && inDegree[n] == |LastNamed(deps[..i], n).dependsOn|
    {
      assert deps[..i + 1][..i] == deps[..i];
      assert deps[..i + 1] == deps[..i] + [deps[i]];
      inDegree := inDegree[deps[i].name := |deps[i].dependsOn|];
      byName := byName[deps[i].name := deps[i]];
    }
    assert deps[..|deps|] == deps;
  }

  // The dependents lists hold the edges counted so far plus a partial row: the
  // first entries of reqs, for name.
  ghost predicate Collected(deps: seq<Dependency>, dependents: map<string, seq<string>>,
                            name: string, reqs: seq<string>)
  {
    forall n, p :: (multiset(Waiting(dependents, p))[n] ==
      EdgeCount(deps, n, p) + (if n == name then multiset(reqs)[p] else 0))
  }

  lemma CollectedStep(deps: seq<Dependency>, dependents: map<string, seq<string>>,
                      name: string, reqs: seq<string>, req: string)
    requires Collected(deps, dependents, name, reqs)
    ensures Collected(deps, dependents[req := Waiting(dependents, req) + [name]], name, reqs + [req])
  {
    hide EdgeCount;
    var next := dependents[req := Waiting(dependents, req) + [name]];
    forall n, p ensures multiset(Waiting(next, p))[n] ==
      EdgeCount(deps, n, p) + (if n == name then multiset(reqs + [req])[p] else 0)
    {
      assert multiset(Waiting(next, p))[n] ==
        multiset(Waiting(dependents, p))[n] + if n == name && p == req then 1 else 0;
    }
  }

  method CollectDependents(deps: seq<Dependency>) returns (dependents: map<string, seq<string>>)
    ensures CountsEdges(deps, dependents)
  {
    hide CountsEdges, EdgeCount;
    dependents := map[];
    CollectedStart(deps);
    for i := 0 to |deps|
      invariant CountsEdges(deps[..i], dependents)
    {
      var reqs, name := deps[i].dependsOn, deps[i].name;
      assert CountsEdges(deps[..i], dependents);
      CollectedNoRow(deps[..i], dependents, name);
      assert reqs[..0] == [];
      for j := 0 to |reqs|
        invariant Collected(deps[..i], dependents, name, reqs[..j])
      {
        hide Collected;
        assert reqs[..j + 1] == reqs[..j] + [reqs[j]];
        CollectedStep(deps[..i], dependents, name, reqs[..j], reqs[j]);
        dependents := dependents[reqs[j] := Waiting(dependents, reqs[j]) + [name]];
      }
      assert reqs[..|reqs|] == reqs;
      CollectedRow(deps, i, dependents);
    }
    assert deps[..|deps|] == deps;
  }

  lemma CollectedStart(deps: seq<Dependency>)
    ensures CountsEdges(deps[..0], map[])
  {
  }

  lemma CollectedNoRow(deps: seq<Dependency>, dependents: map<string, seq<string>>, name: string)
    requires CountsEdges(deps, dependents)
    ensures Collected(deps, dependents, name, [])
  {
  }

  lemma CollectedRow(deps: seq<Dependency>, i: nat, dependents: map<string, seq<string>>)
    requires i < |deps| && Collected(deps[..i], dependents, deps[i].name, deps[i].dependsOn)
    ensures CountsEdges(deps[..i + 1], dependents)
  {
    assert deps[..i + 1][..i] == deps[..i];
    forall n, p ensures EdgeCount(deps[..i + 1], n, p) ==
      EdgeCount(deps[..i], n, p) + (if n == deps[i].name then multiset(deps[i].dependsOn)[p] else 0) {}
  }

  ghost predicate NoRepeats(s: seq<string>) {
    forall i, j :: 0 <= i < j < |s| ==> s[i] != s[j]
  }

  // Go ranges over inDegree in an unspecified order: any name may come next.
  method Roots(inDegree: map<string, int>) returns (queue: seq<string>)
    ensures NoRepeats(queue)
    ensures forall n :: n in queue <==> n in inDegree && inDegree[n] == 0
  {
    queue := [];
    var rest := inDegree.Keys;
    while rest != {}
      invariant rest <= inDegree.Keys
      invariant NoRepeats(queue)
      invariant forall n :: n in queue <==> n in inDegree.Keys - rest && inDegree[n] == 0
      decreases rest
    {
      var name :| name in rest;
      rest := rest - {name};
      if inDegree[name] == 0 {
        queue := queue + [name];
      }
    }
  }

  // The inner loop of topoSort. A count passes through zero at most once, so a
  // name joins the queue exactly when this release takes its count to zero or
  // below, however often it is listed.
  method Release(waiting: seq<string>, inDegree0: map<string, int>, queue0: seq<string>)
    returns (inDegree: map<string, int>, queue: seq<string>)
    requires forall n :: n in waiting ==> n in inDegree0
    ensures inDegree.Keys == inDegree0.Keys
    ensures forall n :: n in inDegree0 ==> inDegree[n] == inDegree0[n] - multiset(waiting)[n]
    ensures queue0 <= queue && NoRepeats(queue[|queue0|..])
    ensures forall n :: n in queue[|queue0|..] <==> n in inDegree0 && inDegree[n] <= 0 < inDegree0[n]
  {
    inDegree, queue := inDegree0, queue0;
    ghost var ready: seq<string> := [];
    for j := 0 to |waiting|
      invariant inDegree.Keys == inDegree0.Keys
      invariant forall n :: n in inDegree0 ==> inDegree[n] == inDegree0[n] - multiset(waiting[..j])[n]
      invariant queue == queue0 + ready && NoRepeats(ready)
      invariant forall n :: n in ready <==> n in inDegree0 && inDegree[n] <= 0 < inDegree0[n]
    {
      assert waiting[..j + 1] == waiting[..j] + [waiting[j]];
      var dependent := waiting[j];
      inDegree := inDegree[dependent := inDegree[dependent] - 1];
      if inDegree[dependent] == 0 {
        queue := queue + [dependent];
        ready := ready + [dependent];
      }
    }
    assert waiting[..|waiting|] == waiting;
    assert queue[|queue0|..] == ready;
  }

  // Each dependency is preceded by everything it depends on.
  ghost predicate Topological(sorted: seq<Dependency>) {
    forall i, ref :: 0 <= i < |sorted| && ref in sorted[i].dependsOn ==> ref in Names(sorted[..i])
  }

  // The loop state of topoSort, with pushed the names consumed so far followed
  // by the queue: a name has been pushed exactly when its count is spent.
  ghost predicate Pushed(deps: seq<Dependency>, inDegree: map<string, int>, pushed: seq<string>) {
    && inDegree.Keys == Names(deps)
    && NoRepeats(pushed)
    && forall n :: n in pushed <==> n in Names(deps) && inDegree[n] <= 0
  }

  ghost predicate CountsUnmet(deps: seq<Dependency>, inDegree: map<string, int>, done: set<string>)
    requires Names(deps) <= inDegree.Keys
  {
    forall n :: n in Names(deps) ==> inDegree[n] == Unmet(LastNamed(deps, n).dependsOn, done)
  }

  lemma ReleaseCounts(deps: seq<Dependency>, dependents: map<string, seq<string>>, name: string,
                      before: map<string, int>, after: map<string, int>, done: set<string>)
    requires DistinctNames(deps)
    requires CountsEdges(deps, dependents)
    requires before.Keys == after.Keys == Names(deps)
    requires forall n :: n in before ==> after[n] == before[n] - multiset(Waiting(dependents, name))[n]
    requires CountsUnmet(deps, before, done) && name !in done
    ensures CountsUnmet(deps, after, done + {name})
  {
    forall n | n in Names(deps)
      ensures after[n] == Unmet(LastNamed(deps, n).dependsOn, done + {name})
    {
      EdgeCountDistinct(deps, n, name);
      UnmetStep(LastNamed(deps, n).dependsOn, done, name);
    }
  }

  lemma WaitingDeclared(deps: seq<Dependency>, dependents: map<string, seq<string>>, p: string, n: string)
    requires CountsEdges(deps, dependents)
    requires n in Waiting(dependents, p)
    ensures n in Names(deps)
  {
    if n !in Names(deps) {
      EdgeCountAbsent(deps, n, p);
    }
  }

  lemma PushedStep(deps: seq<Dependency>, before: map<string, int>, after: map<string, int>,
                   pushed: seq<string>, ready: seq<string>)
    requires Pushed(deps, before, pushed)
    requires after.Keys == before.Keys && forall n :: n in before ==> after[n] <= before[n]
    requires NoRepeats(ready)
    requires forall n :: n in ready <==> n in before && after[n] <= 0 < before[n]
    ensures Pushed(deps, after, pushed + ready)
  {
    var all := pushed + ready;
    forall i, j | 0 <= i < j < |all| ensures all[i] != all[j] {
      if i < |pushed| <= j {
        assert all[i] in pushed && all[j] in ready;
      }
    }
  }

  // result is the dependencies of the names consumed so far, in order.
  ghost predicate Consumed(deps: seq<Dependency>, result: seq<Dependency>, done: seq<string>) {
    && |result| == |done|
    && forall i :: 0 <= i < |done| ==>
         done[i] in Names(deps) && result[i].name == done[i] && result[i] == LastNamed(deps, done[i])
  }

  lemma ConsumedNames(deps: seq<Dependency>, result: seq<Dependency>, done: seq<string>)
    requires Consumed(deps, result, done)
    ensures Names(result) == set n | n in done
  {
    forall n | n in done ensures n in Names(result) {
      var i :| 0 <= i < |done| && done[i] == n;
      assert result[i] in result;
    }
  }

  // The next name in the queue has every prerequisite among the consumed ones.
  lemma ConsumeNext(deps: seq<Dependency>, inDegree: map<string, int>, name: string,
                    result: seq<Dependency>, done: seq<string>)
    requires DistinctNames(deps) && Consumed(deps, result, done) && Topological(result)
    requires inDegree.Keys == Names(deps) && name in Names(deps) && inDegree[name] <= 0
    requires CountsUnmet(deps, inDegree, set n | n in done)
    ensures Topological(result + [LastNamed(deps, name)])
  {
    ConsumedNames(deps, result, done);
    UnmetZero(LastNamed(deps, name).dependsOn, set n | n in done);
    var next := result + [LastNamed(deps, name)];
    forall i, ref | 0 <= i < |next| && ref in next[i].dependsOn ensures ref in Names(next[..i]) {
      if i < |result| {
        assert next[..i] == result[..i];
      } else {
        assert next[..i] == result;
      }
    }
  }

  // Once the queue is empty, whatever is left waits for something left.
  lemma LeftoversBlocked(deps: seq<Dependency>, inDegree: map<string, int>,
                         result: seq<Dependency>, done: seq<string>, d: Dependency)
    requires DistinctNames(deps) && Consumed(deps, result, done)
    requires Pushed(deps, inDegree, done) && CountsUnmet(deps, inDegree, set n | n in done)
    requires d in deps && d !in result
    ensures exists ref :: ref in d.dependsOn && ref !in Names(result)
  {
    ConsumedNames(deps, result, done);
    LastNamedDistinct(deps, d);
    forall i | 0 <= i < |done| ensures done[i] != d.name {
      assert result[i] in result;
    }
    UnmetZero(d.dependsOn, set n | n in done);
  }

  // The invariant of the main loop of topoSort.
  ghost predicate Draining(deps: seq<Dependency>, inDegree: map<string, int>, queue: seq<string>,
                           result: seq<Dependency>, done: seq<string>)
  {
    && Consumed(deps, result, done)
    && Pushed(deps, inDegree, done + queue)
    && (DistinctNames(deps) ==> CountsUnmet(deps, inDegree, set n | n in done) && Topological(result))
  }

  lemma DrainStarts(deps: seq<Dependency>, inDegree: map<string, int>, queue: seq<string>)
    requires inDegree.Keys == Names(deps)
    requires forall n :: n in Names(deps) ==> inDegree[n] == |LastNamed(deps, n).dependsOn|
    requires NoRepeats(queue) && forall n :: n in queue <==> n in inDegree && inDegree[n] == 0
    ensures Draining(deps, inDegree, queue, [], [])
  {
    assert [] + queue == queue;
    var done: seq<string> := [];
    forall n | n in Names(deps)
      ensures inDegree[n] == Unmet(LastNamed(deps, n).dependsOn, set m | m in done)
    {
      UnmetNone(LastNamed(deps, n).dependsOn);
      assert (set m | m in done) == {};
    }
  }

  lemma HeadIsFresh(done: seq<string>, name: string, rest: seq<string>)
    requires NoRepeats(done + ([name] + rest))
    ensures name !in done
  {
    var pushed := done + ([name] + rest);
    forall i | 0 <= i < |done| ensures done[i] != name {
      assert pushed[i] != pushed[|done|];
    }
  }

  // What the loop reads off its invariant when it takes the head of the queue.
  lemma DrainHead(deps: seq<Dependency>, inDegree: map<string, int>, name: string, rest: seq<string>,
                  result: seq<Dependency>, done: seq<string>)
    requires Draining(deps, inDegree, [name] + rest, result, done)
    ensures inDegree.Keys == Names(deps) && name in Names(deps) && inDegree[name] <= 0 && name !in done
  {
    assert (done + ([name] + rest))[|done|] == name;
    HeadIsFresh(done, name, rest);
  }

  lemma ConsumedGrows(deps: seq<Dependency>, result: seq<Dependency>, done: seq<string>, name: string)
    requires Consumed(deps, result, done) && name in Names(deps)
    ensures Consumed(deps, result + [LastNamed(deps, name)], done + [name])
  {
  }

  lemma DrainSteps(deps: seq<Dependency>, dependents: map<string, seq<string>>,
                   before: map<string, int>, after: map<string, int>, name: string, rest: seq<string>,
                   ready: seq<string>, result: seq<Dependency>, done: seq<string>)
    requires Draining(deps, before, [name] + rest, result, done) && name in Names(deps)
    requires before[name] <= 0
    requires CountsEdges(deps, dependents)
    requires after.Keys == before.Keys
    requires forall n :: n in before ==> after[n] == before[n] - multiset(Waiting(dependents, name))[n]
    requires NoRepeats(ready)
    requires forall n :: n in ready <==> n in before && after[n] <= 0 < before[n]
    ensures Draining(deps, after, rest + ready, result + [LastNamed(deps, name)], done + [name])
  {
    hide CountsEdges, EdgeCount, LastNamed, Unmet, Consumed, Topological, CountsUnmet;
    var pushed := done + ([name] + rest);
    PushedStep(deps, before, after, pushed, ready);
    assert done + [name] + (rest + ready) == pushed + ready;
    ConsumedGrows(deps, result, done, name);
    if DistinctNames(deps) {
      ConsumeNext(deps, before, name, result, done);
      HeadIsFresh(done, name, rest);
      ReleaseCounts(deps, dependents, name, before, after, set n | n in done);
      assert (set n | n in done + [name]) == (set n | n in done) + {name};
    }
  }

  // ---------------------------------------------------------- repeated names

  // The declared edges, over all dependencies named n, to names in done.
  ghost function Released(deps: seq<Dependency>, n: string, done: seq<string>): nat {
    if done == [] then 0
    else Released(deps, n, done[..|done| - 1]) + EdgeCount(deps, n, done[|done| - 1])
  }

  // done releases fewer edges of n than its last declaration lists.
  ghost predicate Waits(deps: seq<Dependency>, n: string, done: seq<string>)
    requires n in Names(deps)
  {
    Released(deps, n, done) < |LastNamed(deps, n).dependsOn|
  }

  // Each name comes once what precedes it releases it.
  ghost predicate Justified(deps: seq<Dependency>, done: seq<string>) {
    forall i :: 0 <= i < |done| ==> done[i] in Names(deps) && !Waits(deps, done[i], done[..i])
  }

  // An order in which names can be consumed until nothing more is released.
  ghost predicate Settles(deps: seq<Dependency>, order: seq<string>) {
    && NoRepeats(order) && Justified(deps, order)
    && forall n :: n in Names(deps) && n !in order ==> Waits(deps, n, order)
  }

  ghost predicate Tallied(deps: seq<Dependency>, inDegree: map<string, int>, done: seq<string>) {
    && inDegree.Keys == Names(deps)
    && Justified(deps, done)
    && forall n :: n in Names(deps) ==> inDegree[n] == |LastNamed(deps, n).dependsOn| - Released(deps, n, done)
  }

  lemma TallyStarts(deps: seq<Dependency>, inDegree: map<string, int>)
    requires inDegree.Keys == Names(deps)
    requires forall n :: n in Names(deps) ==> inDegree[n] == |LastNamed(deps, n).dependsOn|
    ensures Tallied(deps, inDegree, [])
  {
  }

  lemma TallySteps(deps: seq<Dependency>, dependents: map<string, seq<string>>,
                   before: map<string, int>, after: map<string, int>, name: string, done: seq<string>)
    requires Tallied(deps, before, done) && name in Names(deps) && before[name] <= 0
    requires CountsEdges(deps, dependents) && after.Keys == before.Keys
    requires forall n :: n in before ==> after[n] == before[n] - multiset(Waiting(dependents, name))[n]
    ensures Tallied(deps, after, done + [name])
  {
    hide LastNamed, EdgeCount, Justified, Released;
    JustifiedGrows(deps, before, name, done);
    forall n | n in Names(deps)
      ensures after[n] == |LastNamed(deps, n).dependsOn| - Released(deps, n, done + [name])
    {
      ReleasedNext(deps, n, done, name);
    }
  }

  lemma ReleasedNext(deps: seq<Dependency>, n: string, done: seq<string>, name: string)
    ensures Released(deps, n, done + [name]) == Released(deps, n, done) + EdgeCount(deps, n, name)
  {
    assert (done + [name])[..|done|] == done;
  }

  lemma JustifiedGrows(deps: seq<Dependency>, inDegree: map<string, int>, name: string, done: seq<string>)
    requires Tallied(deps, inDegree, done) && name in Names(deps) && inDegree[name] <= 0
    ensures Justified(deps, done + [name])
  {
    hide LastNamed, EdgeCount, Released;
    var next := done + [name];
    assert next[..|done|] == done;
    forall i | 0 <= i < |next| ensures next[i] in Names(deps) && !Waits(deps, next[i], next[..i]) {
      if i < |done| { assert next[..i] == done[..i]; }
    }
  }

  lemma TallySettles(deps: seq<Dependency>, inDegree: map<string, int>, done: seq<string>)
    requires Tallied(deps, inDegree, done) && Pushed(deps, inDegree, done)
    ensures Settles(deps, done)
  {
  }

  lemma ReleasedWithout(deps: seq<Dependency>, n: string, s: seq<string>, i: nat)
    requires i < |s|
    ensures Released(deps, n, s) == Released(deps, n, s[..i] + s[i + 1..]) + EdgeCount(deps, n, s[i])
  {
    if i == |s| - 1 {
      assert s[..i] + s[i + 1..] == s[..|s| - 1];
    } else {
      var rest := s[..i] + s[i + 1..];
      ReleasedWithout(deps, n, s[..|s| - 1], i);
      assert rest[..|rest| - 1] == s[..|s| - 1][..i] + s[..|s| - 1][i + 1..];
    }
  }

  // More names release more edges.
  lemma {:induction false} ReleasedGrows(deps: seq<Dependency>, n: string, s: seq<string>, t: seq<string>)
    requires NoRepeats(s) && forall m :: m in s ==> m in t
    ensures Released(deps, n, s) <= Released(deps, n, t)
    decreases |s|
  {
    if s != [] {
      var front, last := s[..|s| - 1], s[|s| - 1];
      assert last in s;
      var i :| 0 <= i < |t| && t[i] == last;
      var rest := t[..i] + t[i + 1..];
      forall m | m in front ensures m in rest {
        var k :| 0 <= k < |front| && front[k] == m;
        assert s[k] == m && s[k] in s;
        var j :| 0 <= j < |t| && t[j] == m;
        assert m != last;
        assert rest[if j < i then j else j - 1] == m;
      }
      ReleasedGrows(deps, n, front, rest);
      ReleasedWithout(deps, n, t, i);
    }
  }

  // Whatever order the queue takes, the same names are consumed in the end.
  lemma {:induction false} SettledIsContained(deps: seq<Dependency>, a: seq<string>, b: seq<string>, i: nat)
    requires Settles(deps, a) && Settles(deps, b) && i <= |a|
    ensures forall n :: n in a[..i] ==> n in b
  {
    hide *;
    if i > 0 {
      SettledIsContained(deps, a, b, i - 1);
      SettledStep(deps, a, b, i - 1);
      assert a[..i] == a[..i - 1] + [a[i - 1]];
    }
  }

  lemma SettledStep(deps: seq<Dependency>, a: seq<string>, b: seq<string>, i: nat)
    requires Settles(deps, a) && Settles(deps, b) && i < |a|
    requires forall n :: n in a[..i] ==> n in b
    ensures a[i] in b
  {
    hide Released, LastNamed, EdgeCount;
    ReleasedGrows(deps, a[i], a[..i], b);
  }

  lemma SettledIsUnique(deps: seq<Dependency>, a: seq<string>, b: seq<string>)
    requires Settles(deps, a) && Settles(deps, b)
    ensures forall n :: n in a <==> n in b
  {
    SettledIsContained(deps, a, b, |a|);
    SettledIsContained(deps, b, a, |b|);
    assert a[..|a|] == a && b[..|b|] == b;
  }

  // Two dependencies of one name and no edges: nothing is left over, so the
  // cycle error names nothing.
  lemma RepeatedNameIsNotListed(d: Dependency, order: seq<string>)
    requires d.dependsOn == [] && Settles([d, d], order)
    ensures !DistinctNames([d, d]) && NotInstalled([d, d], set n | n in order) == []
  {
    var deps := [d, d];
    assert deps[0] in deps;
    assert LastNamed(deps, d.name) == d && !Waits(deps, d.name, order);
    var installed := set n | n in order;
    assert d.name in installed && deps[1..] == [d] && [d][1..] == [];
    assert NotInstalled([d], installed) == [];
    assert !DistinctNames(deps) by { assert deps[0].name == deps[1].name; }
  }

  // The main loop of topoSort.
  method Drain(deps: seq<Dependency>, inDegree0: map<string, int>, byName: map<string, Dependency>,
               dependents: map<string, seq<string>>, queue0: seq<string>)
    returns (result: seq<Dependency>, ghost inDegree1: map<string, int>, ghost done: seq<string>)
    requires Counted(deps, inDegree0, byName, dependents)
    requires NoRepeats(queue0) && forall n :: n in queue0 <==> n in inDegree0 && inDegree0[n] == 0
    ensures Draining(deps, inDegree1, [], result, done)
    ensures Tallied(deps, inDegree1, done)
  {
    hide CountsEdges, EdgeCount, LastNamed, Draining, Tallied;
    result, done := [], [];
    var inDegree, queue := inDegree0, queue0;
    DrainStarts(deps, inDegree, queue);
    TallyStarts(deps, inDegree);
    while queue != []
      invariant Draining(deps, inDegree, queue, result, done)
      invariant Tallied(deps, inDegree, done)
      decreases Names(deps) - set n | n in done
    {
      var name, rest := queue[0], queue[1..];
      assert queue == [name] + rest;
      DrainHead(deps, inDegree, name, rest, result, done);
      forall n | n in Waiting(dependents, name) ensures n in inDegree {
        WaitingDeclared(deps, dependents, name, n);
      }
      ghost var before := inDegree;
      inDegree, queue := Release(Waiting(dependents, name), inDegree, rest);
      DrainSteps(deps, dependents, before, inDegree, name, rest, queue[|rest|..], result, done);
      TallySteps(deps, dependents, before, inDegree, name, done);
      result := result + [byName[name]];
      assert (set n | n in done + [name]) == (set n | n in done) + {name};
      done := done + [name];
      assert rest + queue[|rest|..] == queue;
    }
    inDegree1 := inDegree;
  }

  // ------------------------------------------------------------- cycle report

  method BuildCycleError(all: seq<Dependency>, installed: seq<Dependency>) returns (err: DagError)
    ensures err == Cycle(NotInstalled(all, Names(installed)))
  {
    var installedNames: set<string> := {};
    for i := 0 to |installed|
      invariant installedNames == Names(installed[..i])
    {
      assert installed[..i + 1] == installed[..i] + [installed[i]];
      installedNames := installedNames + {installed[i].name};
    }
    assert installed[..|installed|] == installed;
    var cyclic := [];
    for i := 0 to |all|
      invariant cyclic + NotInstalled(all[i..], installedNames) == NotInstalled(all, installedNames)
    {
      if all[i].name !in installedNames {
        cyclic := cyclic + [all[i].name];
      }
    }
    return Cycle(cyclic);
  }

  function NotInstalled(all: seq<Dependency>, installed: set<string>): seq<string> {
    if all == [] then []
    else (if all[0].name !in installed then [all[0].name] else []) + NotInstalled(all[1..], installed)
  }

  // What the main loop guarantees about the names it consumed: each precedes
  // its dependents, and nothing that could still be installed is left behind.
  ghost predicate Sorted(deps: seq<Dependency>, result: seq<Dependency>) {
    && DistinctNames(result)
    && (forall d :: d in result ==> d in deps)
    && (DistinctNames(deps) ==>
          && Topological(result)
          && forall d :: d in deps && d !in result ==> exists ref :: ref in d.dependsOn && ref !in Names(result))
  }

  // Following dependsOn from the k-th consumed name only ever leads to
  // earlier ones.
  lemma WalksDescend(deps: seq<Dependency>, result: seq<Dependency>, k: nat, p: seq<string>)
    requires DistinctNames(deps) && Topological(result) && forall d :: d in result ==> d in deps
    requires k < |result| && Walk(deps, p) && p[0] == result[k].name && |p| >= 2
    ensures p[|p| - 1] in Names(result[..k])
    decreases |p|
  {
    assert Edge(deps, p[0], p[1]);
    EdgeOfDistinct(deps, result[k], p[1]);
    assert p[1] in Names(result[..k]);
    if |p| > 2 {
      var m :| 0 <= m < k && result[m].name == p[1];
      WalkSuffix(deps, p, 1);
      WalksDescend(deps, result, m, p[1..]);
      assert result[..m] <= result[..k];
    }
  }

  // So no walk from a consumed name comes back to one of its own nodes.
  lemma NoRevisit(deps: seq<Dependency>, result: seq<Dependency>, p: seq<string>, i: nat)
    requires DistinctNames(deps) && DistinctNames(result) && Topological(result)
    requires forall d :: d in result ==> d in deps
    requires Walk(deps, p) && p[0] in Names(result) && i < |p| - 1
    ensures p[i] != p[|p| - 1]
  {
    if i > 0 {
      var k :| 0 <= k < |result| && result[k].name == p[0];
      WalksDescend(deps, result, k, p[..i + 1]);
      assert p[i] in Names(result);
    }
    var m :| 0 <= m < |result| && result[m].name == p[i];
    WalkSuffix(deps, p, i);
    WalksDescend(deps, result, m, p[i..]);
    forall l | 0 <= l < m ensures result[l].name != result[m].name {}
  }

  lemma InstalledReachNoCycle(deps: seq<Dependency>, result: seq<Dependency>, n: string)
    requires DistinctNames(deps) && Sorted(deps, result) && n in Names(result)
    ensures !ReachesCycle(deps, n)
  {
    forall p | Walk(deps, p) && p[0] == n ensures p[|p| - 1] !in p[..|p| - 1] {
      forall i | 0 <= i < |p| - 1 ensures p[i] != p[|p| - 1] {
        NoRevisit(deps, result, p, i);
      }
    }
  }

  // A name left behind waits for another name left behind.
  lemma NextBlocked(deps: seq<Dependency>, result: seq<Dependency>, n: string) returns (ref: string)
    requires DistinctNames(deps) && KnownNames(deps) && Sorted(deps, result)
    requires n in Names(deps) - Names(result)
    ensures Edge(deps, n, ref) && ref in Names(deps) - Names(result)
  {
    var d :| d in deps && d.name == n;
    assert d !in result by {
      assert forall e :: e in result ==> e.name in Names(result);
    }
    ref :| ref in d.dependsOn && ref !in Names(result);
  }

  // A walk among such names can always be prolonged, so it must repeat.
  lemma {:induction false} BlockedReachCycle(deps: seq<Dependency>, result: seq<Dependency>, p: seq<string>)
    requires DistinctNames(deps) && KnownNames(deps) && Sorted(deps, result)
    requires Walk(deps, p) && NoRepeats(p) && forall n :: n in p ==> n in Names(deps) - Names(result)
    ensures ReachesCycle(deps, p[0])
    decreases Names(deps) - set n | n in p
  {
    hide Sorted, DistinctNames, KnownNames, Walk;
    assert p != [] by { WalkIsNonempty(deps, p); }
    var last := p[|p| - 1];
    assert last in p;
    var ref := NextBlocked(deps, result, last);
    var q := p + [ref];
    WalkExtends(deps, p, ref);
    if ref in p {
      assert q[..|q| - 1] == p;
      assert Lasso(deps, p[0], q);
    } else {
      assert (set n | n in q) == (set n | n in p) + {ref};
      BlockedReachCycle(deps, result, q);
    }
  }

  lemma BlockedNameReachesCycle(deps: seq<Dependency>, result: seq<Dependency>, n: string)
    requires DistinctNames(deps) && KnownNames(deps) && Sorted(deps, result)
    requires n in Names(deps) - Names(result)
    ensures ReachesCycle(deps, n)
  {
    BlockedReachCycle(deps, result, [n]);
  }

  // With distinct, known names the leftovers are exactly the dependencies that
  // can reach a cycle.
  lemma LeftoversReachCycles(deps: seq<Dependency>, result: seq<Dependency>, rest: seq<Dependency>)
    requires DistinctNames(deps) && KnownNames(deps) && Sorted(deps, result)
    requires forall d :: d in rest ==> d in deps
    ensures NotInstalled(rest, Names(result)) == CyclicNames(deps, rest)
  {
    if rest != [] {
      LeftoversReachCycles(deps, result, rest[1..]);
      var n := rest[0].name;
      if n in Names(result) {
        InstalledReachNoCycle(deps, result, n);
      } else {
        BlockedNameReachesCycle(deps, result, n);
      }
    }
  }

  // names are those no run of the queue consumes, in declaration order.
  ghost predicate ListsUnsettled(deps: seq<Dependency>, names: seq<string>) {
    exists order :: Settles(deps, order) && names == NotInstalled(deps, set n | n in order)
  }

  lemma LeftoversUnsettled(deps: seq<Dependency>, inDegree: map<string, int>, result: seq<Dependency>,
                           done: seq<string>)
    requires Draining(deps, inDegree, [], result, done) && Tallied(deps, inDegree, done)
    ensures ListsUnsettled(deps, NotInstalled(deps, Names(result)))
  {
    assert done + [] == done;
    TallySettles(deps, inDegree, done);
    ConsumedNames(deps, result, done);
  }

  method TopoSort(deps: seq<Dependency>) returns (r: Result<seq<Dependency>, DagError>)
    requires KnownNames(deps)
    ensures r.Ok? <==> DistinctNames(deps) && Acyclic(deps)
    ensures r.Ok? ==> multiset(r.value) == multiset(deps) && Topological(r.value)
    ensures r.Err? ==> r.error.Cycle? && ListsUnsettled(deps, r.error.names)
    ensures r.Err? && DistinctNames(deps) ==> r.error.names == CyclicNames(deps, deps)
  {
    hide Counted, Draining, Tallied, Settles, ListsUnsettled, Sorted;
    hide Acyclic, DistinctNames, Topological, CyclicNames, LastNamed, EdgeCount;
    var inDegree, byName, dependents := CountEdges(deps);
    var queue := Roots(inDegree);
    var result, inDegree1, done := Drain(deps, inDegree, byName, dependents, queue);
    DrainEnds(deps, inDegree1, result, done);
    if |result| != |deps| {
      ShortMeansCycle(deps, result);
      LeftoversUnsettled(deps, inDegree1, result, done);
      var err := BuildCycleError(deps, result);
      return Err(err);
    }
    FullMeansAcyclic(deps, result);
    return Ok(result);
  }

  lemma NotAcyclic(deps: seq<Dependency>, result: seq<Dependency>)
    requires DistinctNames(deps) && KnownNames(deps) && Sorted(deps, result) && |result| != |deps|
    ensures !Acyclic(deps)
  {
    hide ReachesCycle, Acyclic;
    AcyclicIffNoneReaches(deps);
    var n := SomeLeftover(deps, result);
    BlockedNameReachesCycle(deps, result, n);
  }

  lemma ShortMeansCycle(deps: seq<Dependency>, result: seq<Dependency>)
    requires KnownNames(deps) && Sorted(deps, result) && |result| != |deps|
    ensures !(DistinctNames(deps) && Acyclic(deps))
    ensures DistinctNames(deps) ==> NotInstalled(deps, Names(result)) == CyclicNames(deps, deps)
  {
    if DistinctNames(deps) {
      LeftoversReachCycles(deps, result, deps);
      NotAcyclic(deps, result);
    }
  }

  lemma FullMeansAcyclic(deps: seq<Dependency>, result: seq<Dependency>)
    requires Sorted(deps, result) && |result| == |deps|
    ensures DistinctNames(deps) && Acyclic(deps) && multiset(result) == multiset(deps) && Topological(result)
  {
    AllInstalled(deps, result);
    AcyclicIffNoneReaches(deps);
    forall n | n in Names(deps) ensures !ReachesCycle(deps, n) {
      InstalledReachNoCycle(deps, result, n);
    }
  }

  lemma DrainEnds(deps: seq<Dependency>, inDegree: map<string, int>, result: seq<Dependency>, done: seq<string>)
    requires Draining(deps, inDegree, [], result, done)
    ensures Sorted(deps, result)
  {
    assert done + [] == done;
    forall d | DistinctNames(deps) && d in deps && d !in result
      ensures exists ref :: ref in d.dependsOn && ref !in Names(result)
    {
      LeftoversBlocked(deps, inDegree, result, done, d);
    }
  }

  // Pairwise distinct names are as many as the entries, and conversely.
  lemma NamesCount(deps: seq<Dependency>)
    ensures |Names(deps)| <= |deps|
    ensures |Names(deps)| == |deps| <==> DistinctNames(deps)
  {
    if deps != [] {
      var front, last := deps[..|deps| - 1], deps[|deps| - 1];
      NamesCount(front);
      assert deps == front + [last];
      assert Names(deps) == Names(front) + {last.name};
      DistinctLast(deps);
    } else {
      assert Names(deps) == {};
    }
  }

  lemma DistinctLast(deps: seq<Dependency>)
    requires deps != []
    ensures var front, last := deps[..|deps| - 1], deps[|deps| - 1];
      DistinctNames(deps) <==> DistinctNames(front) && last.name !in Names(front)
  {
    var front, last := deps[..|deps| - 1], deps[|deps| - 1];
    forall i | 0 <= i < |front| ensures deps[i].name in Names(front) {
      assert deps[i] in front;
    }
  }

  lemma DistinctOccurOnce(deps: seq<Dependency>, d: Dependency)
    requires DistinctNames(deps)
    ensures multiset(deps)[d] == if d in deps then 1 else 0
  {
    if d in deps {
      var i :| 0 <= i < |deps| && deps[i] == d;
      assert deps == deps[..i] + [d] + deps[i + 1..];
      assert d !in deps[..i] && d !in deps[i + 1..];
    }
  }

  lemma AllInstalled(deps: seq<Dependency>, result: seq<Dependency>)
    requires DistinctNames(result) && |result| == |deps| && forall d :: d in result ==> d in deps
    ensures DistinctNames(deps) && Names(result) == Names(deps) && multiset(result) == multiset(deps)
  {
    NamesCount(deps);
    NamesCount(result);
    assert Names(result) <= Names(deps);
    assert |Names(deps)| >= |Names(result)| by { SubsetIsSmaller(Names(result), Names(deps)); }
    SubsetOfSameSize(Names(result), Names(deps));
    forall d ensures multiset(result)[d] == multiset(deps)[d] {
      DistinctOccurOnce(deps, d);
      DistinctOccurOnce(result, d);
      if d in deps {
        assert d.name in Names(result);
        var e :| e in result && e.name == d.name;
        LastNamedDistinct(deps, d);
        LastNamedDistinct(deps, e);
      }
    }
  }

  lemma SomeLeftover(deps: seq<Dependency>, result: seq<Dependency>) returns (n: string)
    requires DistinctNames(deps) && DistinctNames(result) && |result| != |deps|
    requires forall d :: d in result ==> d in deps
    ensures n in Names(deps) - Names(result)
  {
    NamesCount(deps);
    NamesCount(result);
    assert Names(deps) != Names(result) && Names(result) <= Names(deps);
    assert !(Names(deps) <= Names(result));
    n :| n in Names(deps) && n !in Names(result);
  }

  // --------------------------------------------------------- level batches

  type Batch = seq<Dependency>

  function Concat(batches: seq<Batch>): seq<Dependency> {
    if batches == [] then [] else batches[0] + Concat(batches[1..])
  }

  // Every dependency sits in exactly one batch, the one numbered by the length
  // of its longest prerequisite chain, and no batch is empty.
  ghost predicate IsLevelling(deps: seq<Dependency>, batches: seq<Batch>) {
    && multiset(Concat(batches)) == multiset(deps)
    && (forall k, d :: 0 <= k < |batches| && d in batches[k] ==> IsRank(deps, d.name, k))
    && (forall k :: 0 <= k < |batches| ==> batches[k] != [])
  }

  lemma RankFromPrerequisites(deps: seq<Dependency>, d: Dependency, level: map<string, nat>, k: nat)
    requires DistinctNames(deps) && d in deps
    requires forall ref :: ref in d.dependsOn ==> ref in level && IsRank(deps, ref, level[ref]) && level[ref] < k
    requires k == 0 || exists ref :: ref in d.dependsOn && level[ref] + 1 == k
    ensures IsRank(deps, d.name, k)
  {
    forall p | Walk(deps, p) && p[0] == d.name ensures |p| <= k + 1 {
      if |p| >= 2 {
        EdgeOfDistinct(deps, d, p[1]);
        if |p| > 2 {
          WalkNodes(deps, p, 1);
          WalkSuffix(deps, p, 1);
          assert |p[1..]| <= level[p[1]] + 1;
        }
      }
    }
    if k == 0 {
      assert WalkOfLength(deps, d.name, 0, [d.name]);
    } else {
      var ref :| ref in d.dependsOn && level[ref] + 1 == k;
      var p :| WalkOfLength(deps, ref, level[ref], p);
      var q := [d.name] + p;
      assert Edge(deps, d.name, ref);
      forall i | 0 <= i < |q| - 1 ensures Edge(deps, q[i], q[i + 1]) {
        if i > 0 { assert Edge(deps, p[i - 1], p[i]); }
      }
      assert WalkOfLength(deps, d.name, k, q);
    }
  }

  ghost predicate Inhabited(level: map<string, nat>, k: nat) {
    exists n :: n in level && level[n] == k
  }

  ghost predicate Levelled(sorted: seq<Dependency>, upTo: nat, level: map<string, nat>, maxLevel: nat)
    requires upTo <= |sorted|
  {
    && level.Keys == Names(sorted[..upTo])
    && (forall n :: n in level ==> IsRank(sorted, n, level[n]) && level[n] <= maxLevel)
    && (upTo > 0 ==> forall k: nat :: k <= maxLevel ==> Inhabited(level, k))
  }

  lemma LevelledStep(sorted: seq<Dependency>, i: nat, level: map<string, nat>, maxLevel: nat, depLevel: nat)
    requires DistinctNames(sorted) && i < |sorted| && Levelled(sorted, i, level, maxLevel)
    requires IsRank(sorted, sorted[i].name, depLevel) && depLevel <= maxLevel + 1
    requires i == 0 ==> depLevel == maxLevel == 0
    ensures var top := if depLevel > maxLevel then depLevel else maxLevel;
      Levelled(sorted, i + 1, level[sorted[i].name := depLevel], top)
  {
    hide IsRank;
    assert sorted[..i + 1] == sorted[..i] + [sorted[i]];
    var name := sorted[i].name;
    assert name !in level by {
      forall j | 0 <= j < i ensures sorted[..i][j].name != name {}
    }
    var level' := level[name := depLevel];
    assert level'[name] == depLevel;
    var top := if depLevel > maxLevel then depLevel else maxLevel;
    forall k: nat | k <= top ensures Inhabited(level', k) {
      if i > 0 && k <= maxLevel {
        assert Inhabited(level, k);
        var n :| n in level && level[n] == k;
        assert n in level' && level'[n] == k;
      } else {
        assert name in level' && level'[name] == k;
      }
    }
  }

  // level[n] is one more than the highest level among n's prerequisites.
  method AssignLevels(sorted: seq<Dependency>) returns (level: map<string, nat>, maxLevel: nat)
    requires DistinctNames(sorted) && Topological(sorted)
    ensures Levelled(sorted, |sorted|, level, maxLevel)
  {
    level, maxLevel := map[], 0;
    for i := 0 to |sorted|
      invariant Levelled(sorted, i, level, maxLevel)
      invariant i == 0 ==> maxLevel == 0
    {
      var depLevel: nat := 0;
      var reqs := sorted[i].dependsOn;
      for j := 0 to |reqs|
        invariant forall ref :: ref in reqs[..j] ==> level[ref] < depLevel
        invariant depLevel == 0 || exists ref :: ref in reqs[..j] && level[ref] + 1 == depLevel
        invariant depLevel <= maxLevel + 1 && (i == 0 ==> depLevel == 0)
      {
        assert reqs[..j + 1] == reqs[..j] + [reqs[j]];
        assert reqs[j] in reqs[..j + 1] && reqs[j] in level;
        if level[reqs[j]] + 1 > depLevel {
          depLevel := level[reqs[j]] + 1;
        }
      }
      assert reqs[..|reqs|] == reqs;
      RankFromPrerequisites(sorted, sorted[i], level, depLevel);
      LevelledStep(sorted, i, level, maxLevel, depLevel);
      level := level[sorted[i].name := depLevel];
      if depLevel > maxLevel {
        maxLevel := depLevel;
      }
    }
  }

  lemma ConcatAppend(batches: seq<Batch>, k: nat, d: Dependency)
    requires k < |batches|
    ensures multiset(Concat(batches[k := batches[k] + [d]])) == multiset(Concat(batches)) + multiset{d}
  {
    var next := batches[k := batches[k] + [d]];
    if k > 0 {
      ConcatAppend(batches[1..], k - 1, d);
      assert next[1..] == batches[1..][k - 1 := batches[k] + [d]];
    } else {
      assert next[1..] == batches[1..];
    }
  }

  lemma ConcatEmpty(batches: seq<Batch>)
    requires forall k :: 0 <= k < |batches| ==> batches[k] == []
    ensures Concat(batches) == []
  {
    if batches != [] { ConcatEmpty(batches[1..]); }
  }

  method BuildLevelBatches(sorted: seq<Dependency>) returns (result: seq<Batch>)
    requires sorted != [] && DistinctNames(sorted) && Topological(sorted)
    ensures IsLevelling(sorted, result)
  {
    var level, maxLevel := AssignLevels(sorted);
    assert sorted[..|sorted|] == sorted;
    var batches := new Batch[maxLevel + 1](_ => []);
    ConcatEmpty(batches[..]);
    for i := 0 to |sorted|
      invariant Filled(sorted, i, level, batches[..])
    {
      assert sorted[i] in sorted[..|sorted|];
      var lvl := level[sorted[i].name];
      ghost var before := batches[..];
      FilledStep(sorted, i, level, before);
      batches[lvl] := batches[lvl] + [sorted[i]];
      assert batches[..] == before[lvl := before[lvl] + [sorted[i]]];
    }
    FilledLevelling(sorted, level, maxLevel, batches[..]);
    return batches[..];
  }

  ghost predicate Filled(sorted: seq<Dependency>, upTo: nat, level: map<string, nat>, batches: seq<Batch>)
    requires upTo <= |sorted|
  {
    && multiset(Concat(batches)) == multiset(sorted[..upTo])
    && (forall k, d :: 0 <= k < |batches| && d in batches[k] ==> d.name in level && level[d.name] == k)
    && (forall d :: d in sorted[..upTo] ==>
          d.name in level && level[d.name] < |batches| && d in batches[level[d.name]])
  }

  lemma FilledStep(sorted: seq<Dependency>, i: nat, level: map<string, nat>, batches: seq<Batch>)
    requires i < |sorted| && Filled(sorted, i, level, batches)
    requires sorted[i].name in level && level[sorted[i].name] < |batches|
    ensures var k := level[sorted[i].name];
      Filled(sorted, i + 1, level, batches[k := batches[k] + [sorted[i]]])
  {
    hide Concat;
    assert sorted[..i + 1] == sorted[..i] + [sorted[i]];
    var lvl := level[sorted[i].name];
    ConcatAppend(batches, lvl, sorted[i]);
    var next := batches[lvl := batches[lvl] + [sorted[i]]];
    forall d | d in sorted[..i + 1]
      ensures d.name in level && level[d.name] < |next| && d in next[level[d.name]]
    {
      if d in sorted[..i] {
        assert d in batches[level[d.name]];
      }
    }
  }

  lemma FilledLevelling(sorted: seq<Dependency>, level: map<string, nat>, maxLevel: nat, batches: seq<Batch>)
    requires sorted != [] && Levelled(sorted, |sorted|, level, maxLevel)
    requires |batches| == maxLevel + 1 && Filled(sorted, |sorted|, level, batches)
    ensures IsLevelling(sorted, batches)
  {
    assert sorted[..|sorted|] == sorted;
    forall k | 0 <= k < |batches| ensures batches[k] != [] {
      assert Inhabited(level, k);
      var n :| n in level && level[n] == k;
      var d :| d in sorted && d.name == n;
      assert d in batches[k];
    }
  }

  // Ranks only look at the dependencies as a set.
  lemma RankOfPermutation(deps: seq<Dependency>, sorted: seq<Dependency>, n: string, k: nat)
    requires multiset(deps) == multiset(sorted) && IsRank(sorted, n, k)
    ensures IsRank(deps, n, k)
  {
    WalkOfPermutation(deps, sorted);
    var p :| WalkOfLength(sorted, n, k, p);
    assert WalkOfLength(deps, n, k, p);
  }

  lemma WalkOfPermutation(deps: seq<Dependency>, sorted: seq<Dependency>)
    requires multiset(deps) == multiset(sorted)
    ensures Names(deps) == Names(sorted)
    ensures forall p :: Walk(deps, p) <==> Walk(sorted, p)
  {
    forall d ensures d in deps <==> d in sorted {
      assert d in deps <==> d in multiset(deps);
      assert d in sorted <==> d in multiset(sorted);
    }
    forall a, b ensures Edge(deps, a, b) <==> Edge(sorted, a, b) {}
    assert Names(deps) == Names(sorted);
  }

  // ------------------------------------------------------------ BuildBatches

  // What the error says: the first unknown name if there is one, otherwise the
  // names never released; among distinct names, what can reach a cycle.
  ghost predicate IsReport(deps: seq<Dependency>, err: DagError) {
    if !KnownNames(deps) then
      exists i: nat, j: nat :: FirstUnknown(deps, i, j) && err == UnknownRef(deps[i].name, deps[i].dependsOn[j])
    else
      && err.Cycle? && ListsUnsettled(deps, err.names)
      && (DistinctNames(deps) ==> err.names == CyclicNames(deps, deps))
  }

  lemma ReportMeans(deps: seq<Dependency>, err: DagError)
    requires IsReport(deps, err)
    ensures !KnownNames(deps) ==> exists i: nat, j: nat ::
      FirstUnknown(deps, i, j) && err == UnknownRef(deps[i].name, deps[i].dependsOn[j])
    ensures KnownNames(deps) ==>
      err.Cycle? && exists order :: Settles(deps, order) && err.names == NotInstalled(deps, set n | n in order)
    ensures KnownNames(deps) && DistinctNames(deps) ==> err == Cycle(CyclicNames(deps, deps))
  {
  }

  method BuildBatches(deps: seq<Dependency>) returns (r: Result<seq<Batch>, DagError>)
    ensures r.Ok? <==> KnownNames(deps) && DistinctNames(deps) && Acyclic(deps)
    ensures r.Ok? ==> IsLevelling(deps, r.value)
    ensures r.Err? ==> IsReport(deps, r.error)
  {
    if |deps| == 0 {
      assert forall p :: !Walk(deps, p);
      return Ok([]);
    }
    var unknown := ValidateNames(deps);
    if unknown.Some? {
      return Err(unknown.value);
    }
    var sorted := TopoSort(deps);
    if sorted.Err? {
      return Err(sorted.error);
    }
    DistinctOfPermutation(deps, sorted.value);
    var batches := BuildLevelBatches(sorted.value);
    forall k, d: Dependency | 0 <= k < |batches| && d in batches[k] ensures IsRank(deps, d.name, k) {
      RankOfPermutation(deps, sorted.value, d.name, k);
    }
    return Ok(batches);
  }

  lemma DistinctOfPermutation(deps: seq<Dependency>, sorted: seq<Dependency>)
    requires multiset(deps) == multiset(sorted) && DistinctNames(deps)
    ensures DistinctNames(sorted)
  {
    WalkOfPermutation(deps, sorted);
    assert |multiset(deps)| == |deps| && |multiset(sorted)| == |sorted|;
    NamesCount(deps);
    NamesCount(sorted);
  }
}
