// What the batches of BuildBatches mean to an installer: they are a valid
// install order, the shortest one, and the only one of their kind.
module BatchOrder {
  import opened Dependencies
  import opened DependencyGraph
  import opened Dag

  // Any way to cut the dependencies into consecutive rounds such that
  // everything a dependency needs is installed in an earlier round.
  ghost predicate IsInstallOrder(deps: seq<Dependency>, rounds: seq<Batch>) {
    && multiset(Concat(rounds)) == multiset(deps)
    && forall i, d, ref :: 0 <= i < |rounds| && d in rounds[i] && ref in d.dependsOn ==>
      ref in Names(Concat(rounds[..i]))
  }

  lemma InConcat(rounds: seq<Batch>, d: Dependency)
    ensures d in Concat(rounds) <==> exists i :: 0 <= i < |rounds| && d in rounds[i]
  {
    if rounds != [] {
      InConcat(rounds[1..], d);
      if d in rounds[0] {
      } else if i :| 0 <= i < |rounds[1..]| && d in rounds[1..][i] {
        assert d in rounds[i + 1];
      }
    }
  }

  lemma InConcatPrefix(rounds: seq<Batch>, i: nat, n: string)
    requires i <= |rounds|
    ensures n in Names(Concat(rounds[..i])) <==> exists j, d :: 0 <= j < i && d in rounds[j] && d.name == n
  {
    forall d ensures d in Concat(rounds[..i]) <==> exists j :: 0 <= j < |rounds[..i]| && d in rounds[..i][j] {
      InConcat(rounds[..i], d);
    }
    if j, d :| 0 <= j < i && d in rounds[j] && d.name == n {
      assert d in rounds[..i][j];
      assert d in Concat(rounds[..i]);
    }
  }

  // A dependency whose longest chain has k edges cannot be installed before
  // round k, in any install order.
  lemma {:induction false} WalksFitInstallOrder(deps: seq<Dependency>, rounds: seq<Batch>, i: nat, d: Dependency,
                                                p: seq<string>)
    requires DistinctNames(deps) && IsInstallOrder(deps, rounds)
    requires i < |rounds| && d in rounds[i] && Walk(deps, p) && p[0] == d.name
    ensures |p| <= i + 1
    decreases |p|
  {
    if |p| >= 2 {
      InstalledIsDeclared(deps, rounds, i, d);
      EdgeOfDistinct(deps, d, p[1]);
      InConcatPrefix(rounds, i, p[1]);
      var j, e :| 0 <= j < i && e in rounds[j] && e.name == p[1];
      InstalledIsDeclared(deps, rounds, j, e);
      assert Walk(deps, p[1..]) by {
        forall k | 0 <= k < |p[1..]| - 1 ensures Edge(deps, p[1..][k], p[1..][k + 1]) {
          assert Edge(deps, p[k + 1], p[k + 2]);
        }
      }
      WalksFitInstallOrder(deps, rounds, j, e, p[1..]);
    }
  }

  lemma InstalledIsDeclared(deps: seq<Dependency>, rounds: seq<Batch>, i: nat, d: Dependency)
    requires multiset(Concat(rounds)) == multiset(deps) && i < |rounds| && d in rounds[i]
    ensures d in deps
  {
    InConcat(rounds, d);
    assert d in multiset(Concat(rounds));
  }

  // No install order has fewer rounds than BuildBatches, and none installs a
  // dependency in an earlier round.
  lemma BatchesAreMinimal(deps: seq<Dependency>, batches: seq<Batch>, rounds: seq<Batch>)
    requires DistinctNames(deps) && IsLevelling(deps, batches) && IsInstallOrder(deps, rounds)
    ensures |batches| <= |rounds|
    ensures forall k, i, d :: 0 <= k < |batches| && d in batches[k] && 0 <= i < |rounds| && d in rounds[i] ==> k <= i
  {
    forall k, i, d | 0 <= k < |batches| && d in batches[k] && 0 <= i < |rounds| && d in rounds[i] ensures k <= i {
      var p :| WalkOfLength(deps, d.name, k, p);
      WalksFitInstallOrder(deps, rounds, i, d, p);
    }
    if batches != [] {
      var k := |batches| - 1;
      var d := batches[k][0];
      InstalledIsDeclared(deps, batches, k, d);
      assert d in multiset(Concat(rounds));
      InConcat(rounds, d);
    }
  }

  // The rank drops along every edge.
  lemma RankDrops(deps: seq<Dependency>, a: string, b: string, k: nat, l: nat)
    requires a in Names(deps) && Edge(deps, a, b) && IsRank(deps, a, k) && IsRank(deps, b, l)
    ensures l < k
  {
    var p :| WalkOfLength(deps, b, l, p);
    var q := [a] + p;
    forall i | 0 <= i < |q| - 1 ensures Edge(deps, q[i], q[i + 1]) {
      if i > 0 { assert Edge(deps, p[i - 1], p[i]); }
    }
    assert Walk(deps, q);
  }

  // The batches themselves are an install order.
  lemma BatchesAreInstallOrder(deps: seq<Dependency>, batches: seq<Batch>)
    requires KnownNames(deps) && IsLevelling(deps, batches)
    ensures IsInstallOrder(deps, batches)
  {
    forall i, d, ref | 0 <= i < |batches| && d in batches[i] && ref in d.dependsOn
      ensures ref in Names(Concat(batches[..i]))
    {
      InstalledIsDeclared(deps, batches, i, d);
      assert ref in Names(deps);
      var e :| e in deps && e.name == ref;
      assert e in multiset(Concat(batches));
      InConcat(batches, e);
      var j :| 0 <= j < |batches| && e in batches[j];
      RankDrops(deps, d.name, ref, i, j);
      InConcatPrefix(batches, i, ref);
    }
  }

  // Whatever order Go ranges over the roots, the k-th batch holds the same
  // dependencies.
  lemma BatchesAreUnique(deps: seq<Dependency>, b1: seq<Batch>, b2: seq<Batch>)
    requires DistinctNames(deps) && KnownNames(deps) && IsLevelling(deps, b1) && IsLevelling(deps, b2)
    ensures |b1| == |b2|
    ensures forall k :: 0 <= k < |b1| ==> multiset(b1[k]) == multiset(b2[k])
  {
    BatchesAreInstallOrder(deps, b1);
    BatchesAreInstallOrder(deps, b2);
    BatchesAreMinimal(deps, b1, b2);
    BatchesAreMinimal(deps, b2, b1);
    forall k | 0 <= k < |b1| ensures multiset(b1[k]) == multiset(b2[k]) {
      forall d ensures multiset(b1[k])[d] == multiset(b2[k])[d] {
        BatchCount(deps, b1, b2, k, d);
        BatchCount(deps, b2, b1, k, d);
      }
    }
  }

  lemma BatchCount(deps: seq<Dependency>, b1: seq<Batch>, b2: seq<Batch>, k: nat, d: Dependency)
    requires DistinctNames(deps) && IsLevelling(deps, b1) && IsLevelling(deps, b2)
    requires k < |b1| == |b2|
    ensures multiset(b1[k])[d] <= multiset(b2[k])[d]
  {
    DistinctOccurOnce(deps, d);
    CountInConcat(b1, k, d);
    if d in b1[k] {
      InstalledIsDeclared(deps, b1, k, d);
      assert d in multiset(Concat(b2));
      InConcat(b2, d);
      var j :| 0 <= j < |b2| && d in b2[j];
    }
  }

  lemma {:induction false} CountInConcat(rounds: seq<Batch>, k: nat, d: Dependency)
    requires k < |rounds|
    ensures multiset(rounds[k])[d] <= multiset(Concat(rounds))[d]
  {
    var rest := Concat(rounds[1..]);
    assert multiset(rounds[0] + rest)[d] == multiset(rounds[0])[d] + multiset(rest)[d];
    if k > 0 {
      CountInConcat(rounds[1..], k - 1, d);
      assert rounds[1..][k - 1] == rounds[k];
    }
  }
}
