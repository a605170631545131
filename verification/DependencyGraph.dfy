// The graph that dependsOn draws over a list of dependencies: walks, cycles and
// longest chains, and the counting facts Kahn's algorithm rests on.
module DependencyGraph {
  import opened Dependencies

  // ---------------------------------------------------------------- graph

  // a lists b in dependsOn.
  ghost predicate Edge(deps: seq<Dependency>, a: string, b: string) {
    exists d :: d in deps && d.name == a && b in d.dependsOn
  }

  // p starts at a declared name and follows dependsOn at each step.
  ghost predicate Walk(deps: seq<Dependency>, p: seq<string>) {
    && p != []
    && p[0] in Names(deps)
    && forall i :: 0 <= i < |p| - 1 ==> Edge(deps, p[i], p[i + 1])
  }

  // No dependency leads back to itself (a self-reference is a walk of two).
  ghost predicate Acyclic(deps: seq<Dependency>) {
    forall p :: Walk(deps, p) && |p| >= 2 ==> p[0] != p[|p| - 1]
  }

  ghost predicate Lasso(deps: seq<Dependency>, n: string, p: seq<string>) {
    Walk(deps, p) && p[0] == n && p[|p| - 1] in p[..|p| - 1]
  }

  // n can follow dependsOn into a cycle.
  ghost predicate ReachesCycle(deps: seq<Dependency>, n: string) {
    exists p :: Lasso(deps, n, p)
  }

  ghost predicate WalkOfLength(deps: seq<Dependency>, n: string, k: nat, p: seq<string>) {
    Walk(deps, p) && p[0] == n && |p| == k + 1
  }

  // k is the number of edges of the longest prerequisite chain of n.
  ghost predicate IsRank(deps: seq<Dependency>, n: string, k: nat) {
    && (exists p :: WalkOfLength(deps, n, k, p))
    && (forall p :: Walk(deps, p) && p[0] == n ==> |p| <= k + 1)
  }

  // The names BuildBatches must blame, in declaration order.
  ghost function CyclicNames(all: seq<Dependency>, deps: seq<Dependency>): seq<string> {
    if deps == [] then []
    else (if ReachesCycle(all, deps[0].name) then [deps[0].name] else []) + CyclicNames(all, deps[1..])
  }

  lemma AcyclicIffNoneReaches(deps: seq<Dependency>)
    ensures Acyclic(deps) <==> forall n :: n in Names(deps) ==> !ReachesCycle(deps, n)
  {
    if !Acyclic(deps) {
      var p :| Walk(deps, p) && |p| >= 2 && p[0] == p[|p| - 1];
      assert p[..|p| - 1][0] == p[|p| - 1];
      assert Lasso(deps, p[0], p);
    }
    if n :| n in Names(deps) && ReachesCycle(deps, n) {
      var p :| Lasso(deps, n, p);
      var i :| 0 <= i < |p| - 1 && p[i] == p[|p| - 1];
      WalkSuffix(deps, p, i);
      assert p[i..][0] == p[i..][|p| - i - 1];
    }
  }

  // A dependency that lists itself is a cycle, and reaches one.
  lemma SelfReferenceIsCycle(deps: seq<Dependency>, d: Dependency)
    requires d in deps && d.name in d.dependsOn
    ensures !Acyclic(deps) && ReachesCycle(deps, d.name)
  {
    var p := [d.name, d.name];
    assert Edge(deps, d.name, d.name) && Walk(deps, p);
    assert p[..1][0] == d.name;
    assert Lasso(deps, d.name, p);
  }

  // What the cycle report lists, entry by entry.
  lemma {:induction false} CyclicNamesAre(all: seq<Dependency>, a: seq<Dependency>, b: seq<Dependency>)
    ensures CyclicNames(all, a + b) == CyclicNames(all, a) + CyclicNames(all, b)
    decreases |a|
  {
    hide ReachesCycle;
    if a == [] {
      assert a + b == b;
    } else {
      assert (a + b)[1..] == a[1..] + b;
      CyclicNamesAre(all, a[1..], b);
    }
  }

  // A name is listed when some walk along dependsOn from it comes back to a name
  // it has been at.
  lemma OneCyclicName(all: seq<Dependency>, d: Dependency)
    ensures CyclicNames(all, [d]) == if ReachesCycle(all, d.name) then [d.name] else []
    ensures ReachesCycle(all, d.name) <==> exists p, i ::
      Walk(all, p) && p[0] == d.name && 0 <= i < |p| - 1 && p[i] == p[|p| - 1]
  {
    assert [d][1..] == [];
    if ReachesCycle(all, d.name) {
      var p :| Lasso(all, d.name, p);
      var i :| 0 <= i < |p| - 1 && p[..|p| - 1][i] == p[|p| - 1];
      assert p[i] == p[|p| - 1];
    }
    if p, i :| Walk(all, p) && p[0] == d.name && 0 <= i < |p| - 1 && p[i] == p[|p| - 1] {
      assert p[..|p| - 1][i] == p[|p| - 1];
      assert Lasso(all, d.name, p);
    }
  }

  // Every node of a walk but the last is declared (it has an outgoing edge).
  lemma WalkNodes(deps: seq<Dependency>, p: seq<string>, i: nat)
    requires Walk(deps, p) && i < |p| - 1
    ensures p[i] in Names(deps)
  {
    assert Edge(deps, p[i], p[i + 1]);
  }

  lemma WalkIsNonempty(deps: seq<Dependency>, p: seq<string>)
    requires Walk(deps, p)
    ensures p != []
  {
  }

  lemma WalkExtends(deps: seq<Dependency>, p: seq<string>, ref: string)
    requires p != [] && Walk(deps, p) && Edge(deps, p[|p| - 1], ref)
    ensures Walk(deps, p + [ref])
  {
    var q := p + [ref];
    forall i | 0 <= i < |q| - 1 ensures Edge(deps, q[i], q[i + 1]) {
      if i < |p| - 1 { assert Edge(deps, p[i], p[i + 1]); }
    }
  }

  lemma WalkSuffix(deps: seq<Dependency>, p: seq<string>, i: nat)
    requires Walk(deps, p) && i < |p| - 1
    ensures Walk(deps, p[i..])
  {
    WalkNodes(deps, p, i);
    var q := p[i..];
    forall j | 0 <= j < |q| - 1 ensures Edge(deps, q[j], q[j + 1]) {
      assert Edge(deps, p[i + j], p[i + j + 1]);
    }
  }

  // ------------------------------------------------- last dependency by name

  // Map assignment in a loop keeps the last dependency of each name.
  ghost function LastNamed(deps: seq<Dependency>, n: string): (d: Dependency)
    requires n in Names(deps)
    ensures d in deps && d.name == n
  {
    var last := deps[|deps| - 1];
    if last.name == n then last else LastNamed(deps[..|deps| - 1], n)
  }

  lemma LastNamedDistinct(deps: seq<Dependency>, d: Dependency)
    requires DistinctNames(deps) && d in deps
    ensures LastNamed(deps, d.name) == d
  {
    var e := LastNamed(deps, d.name);
    var i :| 0 <= i < |deps| && deps[i] == d;
    var j :| 0 <= j < |deps| && deps[j] == e;
    assert i == j;
  }

  lemma EdgeOfDistinct(deps: seq<Dependency>, d: Dependency, ref: string)
    requires DistinctNames(deps) && d in deps && Edge(deps, d.name, ref)
    ensures ref in d.dependsOn
  {
    var e :| e in deps && e.name == d.name && ref in e.dependsOn;
    LastNamedDistinct(deps, d);
    LastNamedDistinct(deps, e);
  }

  // How many of the edges n -> p are declared, over all dependencies named n.
  ghost function EdgeCount(deps: seq<Dependency>, n: string, p: string): nat {
    if deps == [] then 0
    else
      var last := deps[|deps| - 1];
      EdgeCount(deps[..|deps| - 1], n, p) + (if last.name == n then multiset(last.dependsOn)[p] else 0)
  }

  lemma EdgeCountAbsent(deps: seq<Dependency>, n: string, p: string)
    requires n !in Names(deps)
    ensures EdgeCount(deps, n, p) == 0
  {
    if deps != [] {
      assert deps[|deps| - 1] in deps;
      EdgeCountAbsent(deps[..|deps| - 1], n, p);
    }
  }

  lemma EdgeCountDistinct(deps: seq<Dependency>, n: string, p: string)
    requires DistinctNames(deps) && n in Names(deps)
    ensures EdgeCount(deps, n, p) == multiset(LastNamed(deps, n).dependsOn)[p]
  {
    var front, last := deps[..|deps| - 1], deps[|deps| - 1];
    if last.name == n {
      assert n !in Names(front);
      EdgeCountAbsent(front, n, p);
    } else {
      EdgeCountDistinct(front, n, p);
    }
  }

  // ------------------------------------------------------ unmet prerequisites

  // Entries of reqs (with repetitions) not yet installed.
  ghost function Unmet(reqs: seq<string>, done: set<string>): nat {
    if reqs == [] then 0
    else Unmet(reqs[..|reqs| - 1], done) + (if reqs[|reqs| - 1] in done then 0 else 1)
  }

  lemma UnmetNone(reqs: seq<string>)
    ensures Unmet(reqs, {}) == |reqs|
  {
    if reqs != [] { UnmetNone(reqs[..|reqs| - 1]); }
  }

  lemma UnmetZero(reqs: seq<string>, done: set<string>)
    ensures Unmet(reqs, done) == 0 <==> forall r :: r in reqs ==> r in done
  {
    if reqs != [] {
      var front, last := reqs[..|reqs| - 1], reqs[|reqs| - 1];
      assert reqs == front + [last];
      UnmetZero(front, done);
    }
  }

  lemma UnmetStep(reqs: seq<string>, done: set<string>, x: string)
    requires x !in done
    ensures Unmet(reqs, done + {x}) == Unmet(reqs, done) - multiset(reqs)[x]
  {
    if reqs != [] {
      var front, last := reqs[..|reqs| - 1], reqs[|reqs| - 1];
      assert reqs == front + [last];
      UnmetStep(front, done, x);
    }
  }
}
