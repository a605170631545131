// internal/dsl/capability.go: the tier ladder, what each rung provides and
// which backends reach it.
module Capabilities {
  datatype Capability =
    | RenderedManifests
    | APIServerAdmission
    | LiveReads
    | Reconciliation
    | RunningPods
    | PodLogs
    | NetworkEgress

  const TEMPLATE := "template"
  const API_SERVER := "apiserver"
  const SIMULATED := "simulated"
  const E2E := "e2e"

  const ALL_TIERS: seq<string> := [TEMPLATE, API_SERVER, SIMULATED, E2E]

  // What each tier adds to the one below it.
  function Adds(tier: string): seq<Capability> {
    if tier == TEMPLATE then [RenderedManifests]
    else if tier == API_SERVER then [APIServerAdmission, LiveReads]
    else if tier == SIMULATED then [Reconciliation]
    else if tier == E2E then [RunningPods, PodLogs, NetworkEgress]
    else []
  }

  // The backends `--cluster` accepts, in the order hints list them, and the
  // tier each runs at.
  const BACKENDS: seq<string> := ["envtest", "kind", "k3d", "kubeconfig"]

  const BACKEND_TIERS: map<string, string> :=
    map["envtest" := API_SERVER, "kind" := E2E, "k3d" := E2E, "kubeconfig" := E2E]

  // ---------------------------------------------------------- specification

  // The rung a tier stands on; unknown tiers stand below the ladder.
  function Rank(tier: string): int {
    if tier == TEMPLATE then 0
    else if tier == API_SERVER then 1
    else if tier == SIMULATED then 2
    else if tier == E2E then 3
    else -1
  }

  // The rung from which a capability is available.
  function Level(c: Capability): nat {
    match c
    case RenderedManifests => 0
    case APIServerAdmission => 1
    case LiveReads => 1
    case Reconciliation => 2
    case RunningPods => 3
    case PodLogs => 3
    case NetworkEgress => 3
  }

  function Provides(tier: string): set<Capability> {
    set c: Capability | Level(c) <= Rank(tier)
  }

  // The lowest rung that covers all needs.
  function Floor(needs: seq<Capability>): (k: nat)
    ensures k <= 3
    ensures forall c :: c in needs ==> Level(c) <= k
    ensures k == 0 || exists c :: c in needs && Level(c) == k
  {
    if needs == [] then 0
    else
      var rest := Floor(needs[1..]);
      assert needs == [needs[0]] + needs[1..];
      if Level(needs[0]) > rest then Level(needs[0]) else rest
  }

  lemma CoveredIff(needs: seq<Capability>, tier: string)
    requires Rank(tier) >= 0
    ensures (forall c :: c in needs ==> c in Provides(tier)) <==> Floor(needs) <= Rank(tier)
  {
  }

  lemma RankOfTier(i: nat)
    requires i < 4
    ensures Rank(ALL_TIERS[i]) == i
  {
  }

  lemma InSuffixIff(tier: string, k: nat)
    requires k <= 3
    ensures tier in ALL_TIERS[k..] <==> Rank(tier) >= k
  {
    if Rank(tier) >= k {
      assert ALL_TIERS[k..][Rank(tier) - k] == tier;
    }
    if tier in ALL_TIERS[k..] {
      var i :| 0 <= i < |ALL_TIERS[k..]| && ALL_TIERS[k..][i] == tier;
      RankOfTier(k + i);
    }
  }

  // -------------------------------------------------------------- operations

  method TierRank(tier: string) returns (rank: int)
    ensures rank == Rank(tier)
  {
    for i := 0 to |ALL_TIERS|
      invariant Rank(tier) < 0 || Rank(tier) >= i
    {
      RankOfTier(i);
      if ALL_TIERS[i] == tier {
        return i;
      }
    }
    return -1;
  }

  // The cumulative set, nothing for an unknown tier.
  method TierProvides(tier: string) returns (provided: set<Capability>)
    ensures provided == Provides(tier)
  {
    provided := {};
    for i := 0 to |ALL_TIERS|
      invariant forall c :: c in provided <==> Level(c) < i
      invariant Rank(tier) < 0 || Rank(tier) >= i
    {
      RankOfTier(i);
      var adds := Adds(ALL_TIERS[i]);
      AddsIff(i);
      ghost var before := provided;
      for j := 0 to |adds|
        invariant forall c :: c in provided <==> c in before || c in adds[..j]
      {
        assert adds[..j + 1] == adds[..j] + [adds[j]];
        provided := provided + {adds[j]};
      }
      assert adds[..|adds|] == adds;
      if ALL_TIERS[i] == tier {
        return;
      }
    }
    return {};
  }

  lemma AddsIff(i: nat)
    requires i < 4
    ensures forall c :: c in Adds(ALL_TIERS[i]) <==> Level(c) == i
  {
    RankOfTier(i);
    forall c ensures c in Adds(ALL_TIERS[i]) <==> Level(c) == i {
      if Level(c) == i {
        assert i == 1 ==> Adds(API_SERVER)[0] == APIServerAdmission && Adds(API_SERVER)[1] == LiveReads;
        assert i == 3 ==> Adds(E2E)[0] == RunningPods && Adds(E2E)[1] == PodLogs && Adds(E2E)[2] == NetworkEgress;
      }
    }
  }

  lemma LadderSlice(k: nat, i: nat)
    requires i < 4
    ensures k <= i ==> ALL_TIERS[k..i] + [ALL_TIERS[i]] == ALL_TIERS[k..i + 1]
    ensures i + 1 == k ==> k <= 4 && ALL_TIERS[k..i + 1] == []
  {
  }

  // The tiers that cover the needs are always a suffix of the ladder.
  method TiersProviding(needs: seq<Capability>) returns (tiers: seq<string>)
    ensures tiers == ALL_TIERS[Floor(needs)..]
    ensures forall tier :: tier in tiers <==> tier in ALL_TIERS && forall c :: c in needs ==> c in Provides(tier)
  {
    tiers := [];
    ghost var k := Floor(needs);
    for i := 0 to |ALL_TIERS|
      invariant tiers == if i < k then [] else ALL_TIERS[k..i]
    {
      RankOfTier(i);
      LadderSlice(k, i);
      var tier := ALL_TIERS[i];
      var provided := TierProvides(tier);
      var satisfied := true;
      for j := 0 to |needs|
        invariant satisfied
        invariant forall c :: c in needs[..j] ==> c in provided
      {
        assert needs[..j + 1] == needs[..j] + [needs[j]];
        if needs[j] !in provided {
          satisfied := false;
          assert needs[j] in needs;
          break;
        }
      }
      assert satisfied <==> forall c :: c in needs ==> c in provided by {
        if satisfied { assert needs[..|needs|] == needs; }
      }
      CoveredIff(needs, tier);
      if satisfied {
        tiers := tiers + [tier];
      }
    }
    SuffixCovers(needs);
  }

  lemma SuffixCovers(needs: seq<Capability>)
    ensures forall tier :: tier in ALL_TIERS[Floor(needs)..] <==>
      tier in ALL_TIERS && forall c :: c in needs ==> c in Provides(tier)
  {
    forall tier
      ensures tier in ALL_TIERS[Floor(needs)..] <==>
        tier in ALL_TIERS && forall c :: c in needs ==> c in Provides(tier)
    {
      InSuffixIff(tier, Floor(needs));
      InSuffixIff(tier, 0);
      if Rank(tier) >= 0 { CoveredIff(needs, tier); }
    }
  }

  function BackendsAtLeast(k: int, backends: seq<string>): seq<string> {
    if backends == [] then []
    else
      var last := backends[|backends| - 1];
      BackendsAtLeast(k, backends[..|backends| - 1]) +
      (if last in BACKEND_TIERS && Rank(BACKEND_TIERS[last]) >= k then [last] else [])
  }

  function Hint(tier: string): seq<string> {
    if tier == TEMPLATE then [] else BackendsAtLeast(Rank(tier), BACKENDS)
  }

  method BackendsForTier(tier: string) returns (backends: seq<string>)
    ensures backends == Hint(tier)
  {
    if tier == TEMPLATE {
      return [];
    }
    backends := [];
    for i := 0 to |BACKENDS|
      invariant backends == BackendsAtLeast(Rank(tier), BACKENDS[..i])
    {
      assert BACKENDS[..i + 1][..i] == BACKENDS[..i];
      var have := TierRank(BACKEND_TIERS[BACKENDS[i]]);
      var want := TierRank(tier);
      if have >= want {
        backends := backends + [BACKENDS[i]];
      }
    }
    assert BACKENDS[..|BACKENDS|] == BACKENDS;
  }

  lemma {:induction false} BackendsAtLeastMembers(k: int, backends: seq<string>, b: string)
    ensures b in BackendsAtLeast(k, backends) <==> b in backends && b in BACKEND_TIERS && Rank(BACKEND_TIERS[b]) >= k
  {
    if backends != [] {
      BackendsAtLeastMembers(k, backends[..|backends| - 1], b);
      assert backends == backends[..|backends| - 1] + [backends[|backends| - 1]];
    }
  }

  // A hint lists exactly the backends that reach the tier.
  lemma HintMembers(tier: string, b: string)
    requires tier != TEMPLATE
    ensures b in Hint(tier) <==> b in BACKENDS && Rank(BACKEND_TIERS[b]) >= Rank(tier)
  {
    BackendsAtLeastMembers(Rank(tier), BACKENDS, b);
  }

  // Tiers some `--cluster` value (or none) runs at.
  predicate Runnable(tier: string) {
    tier == TEMPLATE || exists b :: b in BACKEND_TIERS && BACKEND_TIERS[b] == tier
  }

  lemma RunnableTiersAre(tier: string)
    ensures Runnable(tier) <==> tier == TEMPLATE || tier == API_SERVER || tier == E2E
  {
    if tier == API_SERVER { assert BACKEND_TIERS["envtest"] == tier; }
    if tier == E2E { assert BACKEND_TIERS["kind"] == tier; }
  }

  method HasBackendAt(tier: string) returns (has: bool)
    ensures has == exists b :: b in BACKEND_TIERS && BACKEND_TIERS[b] == tier
  {
    var rest := BACKEND_TIERS.Keys;
    while rest != {}
      invariant rest <= BACKEND_TIERS.Keys
      invariant forall b :: b in BACKEND_TIERS.Keys - rest ==> BACKEND_TIERS[b] != tier
      decreases rest
    {
      var b :| b in rest;
      rest := rest - {b};
      if BACKEND_TIERS[b] == tier {
        return true;
      }
    }
    return false;
  }

  method RunnableTiers() returns (tiers: seq<string>)
    ensures tiers == [TEMPLATE, API_SERVER, E2E]
    ensures forall t :: t in tiers <==> Runnable(t)
  {
    tiers := [];
    for i := 0 to |ALL_TIERS|
      invariant tiers ==
        if i == 0 then [] else if i == 1 then [TEMPLATE]
        else if i < 4 then [TEMPLATE, API_SERVER] else [TEMPLATE, API_SERVER, E2E]
    {
      RunnableTiersAre(ALL_TIERS[i]);
      var has := HasBackendAt(ALL_TIERS[i]);
      if ALL_TIERS[i] == TEMPLATE || has {
        tiers := tiers + [ALL_TIERS[i]];
      }
    }
    forall t ensures t in tiers <==> Runnable(t) {
      RunnableTiersAre(t);
      assert tiers[0] == TEMPLATE && tiers[1] == API_SERVER && tiers[2] == E2E;
    }
  }

  // ------------------------------------------------------- the ladder, spelled out

  // The rungs in order, and what a suite may rely on at each.
  lemma LadderIs()
    ensures ALL_TIERS == ["template", "apiserver", "simulated", "e2e"]
    ensures Rank("template") == 0 && Rank("apiserver") == 1 && Rank("simulated") == 2 && Rank("e2e") == 3
    ensures forall tier :: tier !in ["template", "apiserver", "simulated", "e2e"] ==> Rank(tier) == -1
    ensures Provides("template") == {RenderedManifests}
    ensures Provides("apiserver") == {RenderedManifests, APIServerAdmission, LiveReads}
    ensures Provides("simulated") == {RenderedManifests, APIServerAdmission, LiveReads, Reconciliation}
    ensures forall c :: c in Provides("e2e")
    ensures forall tier :: Rank(tier) < 0 ==> Provides(tier) == {}
  {
  }

  // The backends that run at a tier or above, in the order hints list them.
  lemma HintsAre()
    ensures Hint("template") == []
    ensures Hint("apiserver") == ["envtest", "kind", "k3d", "kubeconfig"]
    ensures Hint("simulated") == ["kind", "k3d", "kubeconfig"]
    ensures Hint("e2e") == ["kind", "k3d", "kubeconfig"]
  {
    HintOf(1, true);
    HintOf(2, false);
    HintOf(3, false);
  }

  lemma HintOf(k: int, all: bool)
    requires 1 <= k <= 3 && (all <==> k == 1)
    ensures BackendsAtLeast(k, BACKENDS) ==
      if all then ["envtest", "kind", "k3d", "kubeconfig"] else ["kind", "k3d", "kubeconfig"]
  {
    assert BACKENDS[..3] == ["envtest", "kind", "k3d"] && BACKENDS[..3][..2] == ["envtest", "kind"];
    assert ["envtest", "kind"][..1] == ["envtest"] && ["envtest"][..0] == [];
    assert BackendsAtLeast(k, []) == [];
    assert BackendsAtLeast(k, ["envtest"]) == if all then ["envtest"] else [];
    assert BackendsAtLeast(k, ["envtest", "kind"]) == if all then ["envtest", "kind"] else ["kind"];
    assert BackendsAtLeast(k, BACKENDS[..3]) == if all then ["envtest", "kind", "k3d"] else ["kind", "k3d"];
  }
}
