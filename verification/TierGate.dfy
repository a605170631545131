// internal/matchers/tiers.go, internal/dsl/tier_ceiling.go and internal/runner/
// tiergate.go: three walks over the same assertion tree that decide where a
// test may run.
module TierGate {
  import opened Wrappers
  import opened Capabilities

  // `fields` names the matcher fields an assertion sets, in declaration order
  // (setMatchers); allOf, anyOf and the assertions nested in a lookup are kept
  // apart because the walks recurse into them.
  datatype Assertion = Assertion(
    fields: seq<string>,
    allOf: seq<Assertion>,
    anyOf: seq<Assertion>,
    lookup: seq<Assertion>)

  // needs is the capability table read from the field tags, order the matcher
  // registry in registration order.
  datatype Registry = Registry(needs: map<string, seq<Capability>>, order: seq<string>)

  const ALL_OF := "allOf"
  const ANY_OF := "anyOf"

  // Every tagged field has a matcher and every matcher but the composites has
  // a tag.
  ghost predicate Agrees(reg: Registry) {
    && ALL_OF in reg.order && ANY_OF in reg.order
    && ALL_OF !in reg.needs && ANY_OF !in reg.needs
    && forall m :: m in reg.needs <==> m in reg.order && m != ALL_OF && m != ANY_OF
  }

  // ------------------------------------------------------ internal/matchers

  predicate Matches(m: string, a: Assertion) {
    if m == ALL_OF then a.allOf != []
    else if m == ANY_OF then a.anyOf != []
    else m in a.fields
  }

  // find: the first registered matcher that claims the assertion.
  function Find(order: seq<string>, a: Assertion): (m: Option<string>)
    ensures m.Some? ==> m.value in order && Matches(m.value, a)
    ensures m.None? <==> forall n :: n in order ==> !Matches(n, a)
  {
    if order == [] then None
    else if Matches(order[0], a) then Some(order[0])
    else
      assert order == [order[0]] + order[1..];
      Find(order[1..], a)
  }

  // It is the first one registered, of those the assertion sets.
  lemma FindsFirst(order: seq<string>, a: Assertion, i: nat)
    requires i < |order| && Claims(order[i], a) && forall j :: 0 <= j < i ==> !Claims(order[j], a)
    ensures Find(order, a) == Some(order[i])
  {
    if i > 0 {
      forall j | 0 <= j < i - 1 ensures !Claims(order[1..][j], a) { assert order[1..][j] == order[j + 1]; }
      FindsFirst(order[1..], a, i - 1);
    }
  }

  ghost predicate Claims(m: string, a: Assertion) {
    || (m == "allOf" && a.allOf != [])
    || (m == "anyOf" && a.anyOf != [])
    || (m != "allOf" && m != "anyOf" && m in a.fields)
  }

  function TiersForMatcher(reg: Registry, m: string): seq<string> {
    if m in reg.needs then ALL_TIERS[Floor(reg.needs[m])..] else []
  }

  // intersectTiers, keeping the order of a.
  function Intersect(a: seq<string>, b: seq<string>): seq<string> {
    if a == [] then []
    else
      var last := a[|a| - 1];
      Intersect(a[..|a| - 1], b) + (if last in b then [last] else [])
  }

  method IntersectTiers(a: seq<string>, b: seq<string>) returns (out: seq<string>)
    ensures out == Intersect(a, b)
  {
    out := [];
    for i := 0 to |a|
      invariant out == Intersect(a[..i], b)
    {
      assert a[..i + 1][..i] == a[..i];
      ghost var before := out;
      for j := 0 to |b|
        invariant out == before && a[i] !in b[..j]
      {
        if a[i] == b[j] {
          out := out + [a[i]];
          break;
        }
      }
    }
    assert a[..|a|] == a;
  }

  // SupportedTiersFor.
  function Supported(reg: Registry, a: Assertion): seq<string>
    decreases a, 0
  {
    var m := Find(reg.order, a);
    if m.None? then [E2E]
    else if m.value == ALL_OF then IntersectChildren(reg, a.allOf)
    else if m.value == ANY_OF then IntersectChildren(reg, a.anyOf)
    else TiersForMatcher(reg, m.value)
  }

  function IntersectChildren(reg: Registry, children: seq<Assertion>): seq<string>
    decreases children, 1
  {
    if children == [] then ALL_TIERS
    else if |children| == 1 then Supported(reg, children[0])
    else Intersect(IntersectChildren(reg, children[..|children| - 1]), Supported(reg, children[|children| - 1]))
  }

  method IntersectChildTiers(reg: Registry, children: seq<Assertion>) returns (result: seq<string>)
    ensures result == IntersectChildren(reg, children)
  {
    if |children| == 0 {
      return ALL_TIERS;
    }
    result := Supported(reg, children[0]);
    assert children[..1] == [children[0]];
    for i := 1 to |children|
      invariant result == IntersectChildren(reg, children[..i])
    {
      assert children[..i + 1][..i] == children[..i];
      result := IntersectTiers(result, Supported(reg, children[i]));
    }
    assert children[..|children|] == children;
  }

  // strictestTier: the lowest of the supported tiers.
  method StrictestTier(supported: seq<string>) returns (chosen: string)
    ensures supported == [] ==> chosen == ""
    ensures supported != [] ==>
      chosen in supported && forall t :: t in supported ==> ClampedRank(chosen) <= ClampedRank(t)
    ensures forall k :: 0 <= k <= 3 && supported == ALL_TIERS[k..] ==> chosen == Needed(supported)
  {
    chosen := "";
    var best := -1;
    for i := 0 to |supported|
      invariant i == 0 ==> best == -1 && chosen == ""
      invariant i > 0 ==> chosen in supported[..i] && best == ClampedRank(chosen)
      invariant forall t :: t in supported[..i] ==> best <= ClampedRank(t)
    {
      assert supported[..i + 1] == supported[..i] + [supported[i]];
      var rank := ClampedRank(supported[i]);
      if best == -1 || rank < best {
        best := rank;
        chosen := supported[i];
      }
    }
    assert supported[..|supported|] == supported;
    forall k | 0 <= k <= 3 && supported == ALL_TIERS[k..] ensures chosen == Needed(supported) {
      assert supported[0] == ALL_TIERS[k] && supported[0] in supported[..|supported|];
      assert ClampedRank(chosen) <= k;
      InSuffixIff(chosen, k);
      RankDeterminesTier(chosen, ALL_TIERS[k]);
    }
  }

  lemma RankDeterminesTier(s: string, t: string)
    requires Rank(s) == Rank(t) >= 0
    ensures s == t
  {
  }

  // The rank of internal/matchers puts unknown labels on the lowest rung.
  function ClampedRank(tier: string): int {
    if Rank(tier) < 0 then 0 else Rank(tier)
  }

  // On a suffix of the ladder the strictest tier is the first.
  function Needed(supported: seq<string>): string {
    if supported == [] then "" else supported[0]
  }

  datatype Blame = Blame(matcher: string, needed: string)

  function Unsupported(reg: Registry, a: Assertion, tier: string): Option<Blame>
    decreases a, 0
  {
    if a.allOf != [] then FindUnsupported(reg, a.allOf, tier)
    else if a.anyOf != [] then FindUnsupported(reg, a.anyOf, tier)
    else
      var m := Find(reg.order, a);
      if m.None? then None
      else
        var supported := TiersForMatcher(reg, m.value);
        if tier in supported then None else Some(Blame(m.value, Needed(supported)))
  }

  function FindUnsupported(reg: Registry, asserts: seq<Assertion>, tier: string): Option<Blame>
    decreases asserts, 1
  {
    if asserts == [] then None
    else
      var first := Unsupported(reg, asserts[0], tier);
      if first.Some? then first else FindUnsupported(reg, asserts[1..], tier)
  }

  // ----------------------------------------------------------- internal/dsl

  datatype Unmet = Unmet(matcher: string, needs: seq<Capability>)

  // firstUnmetMatcher: children first, then the fields of the node itself.
  function FirstUnmet(reg: Registry, a: Assertion, provided: set<Capability>): Option<Unmet>
    decreases a, 0
  {
    var inAllOf := FirstUnmetIn(reg, a.allOf, provided);
    if inAllOf.Some? then inAllOf
    else
      var inAnyOf := FirstUnmetIn(reg, a.anyOf, provided);
      if inAnyOf.Some? then inAnyOf
      else
        var inLookup := FirstUnmetIn(reg, a.lookup, provided);
        if inLookup.Some? then inLookup else FirstUnmetField(reg, a.fields, provided)
  }

  function FirstUnmetIn(reg: Registry, asserts: seq<Assertion>, provided: set<Capability>): Option<Unmet>
    decreases asserts, 1
  {
    if asserts == [] then None
    else
      var first := FirstUnmet(reg, asserts[0], provided);
      if first.Some? then first else FirstUnmetIn(reg, asserts[1..], provided)
  }

  function FirstUnmetField(reg: Registry, fields: seq<string>, provided: set<Capability>): Option<Unmet> {
    if fields == [] then None
    else if fields[0] in reg.needs && !Covers(provided, reg.needs[fields[0]]) then
      Some(Unmet(fields[0], reg.needs[fields[0]]))
    else FirstUnmetField(reg, fields[1..], provided)
  }

  predicate Covers(provided: set<Capability>, needs: seq<Capability>) {
    forall c :: c in needs ==> c in provided
  }

  function FieldSet(fields: seq<string>): set<string> {
    set m | m in fields
  }

  // Every matcher an assertion mentions, at any depth.
  function Mentioned(a: Assertion): set<string>
    decreases a, 0
  {
    FieldSet(a.fields) + MentionedIn(a.allOf) + MentionedIn(a.anyOf) + MentionedIn(a.lookup)
  }

  function MentionedIn(asserts: seq<Assertion>): set<string>
    decreases asserts, 1
  {
    if asserts == [] then {} else Mentioned(asserts[0]) + MentionedIn(asserts[1..])
  }

  ghost predicate AllCovered(reg: Registry, matchers: set<string>, provided: set<Capability>) {
    forall m :: m in matchers && m in reg.needs ==> Covers(provided, reg.needs[m])
  }

  // The walk finds nothing exactly when every mentioned matcher is provided
  // for; what it does find is mentioned and not provided for.
  lemma {:induction false} FirstUnmetIff(reg: Registry, a: Assertion, provided: set<Capability>)
    ensures FirstUnmet(reg, a, provided).None? <==> AllCovered(reg, Mentioned(a), provided)
    ensures FirstUnmet(reg, a, provided).Some? ==>
      IsUnmet(reg, Mentioned(a), provided, FirstUnmet(reg, a, provided).value)
    decreases a, 0
  {
    FirstUnmetInIff(reg, a.allOf, provided);
    FirstUnmetInIff(reg, a.anyOf, provided);
    FirstUnmetInIff(reg, a.lookup, provided);
    FirstUnmetFieldIff(reg, a.fields, provided);
  }

  lemma {:induction false} FirstUnmetInIff(reg: Registry, asserts: seq<Assertion>, provided: set<Capability>)
    ensures FirstUnmetIn(reg, asserts, provided).None? <==> AllCovered(reg, MentionedIn(asserts), provided)
    ensures FirstUnmetIn(reg, asserts, provided).Some? ==>
      IsUnmet(reg, MentionedIn(asserts), provided, FirstUnmetIn(reg, asserts, provided).value)
    decreases asserts, 1
  {
    if asserts != [] {
      FirstUnmetIff(reg, asserts[0], provided);
      FirstUnmetInIff(reg, asserts[1..], provided);
    }
  }

  lemma {:induction false} FirstUnmetFieldIff(reg: Registry, fields: seq<string>, provided: set<Capability>)
    ensures FirstUnmetField(reg, fields, provided).None? <==> AllCovered(reg, FieldSet(fields), provided)
    ensures FirstUnmetField(reg, fields, provided).Some? ==>
      IsUnmet(reg, FieldSet(fields), provided, FirstUnmetField(reg, fields, provided).value)
  {
    if fields != [] {
      FirstUnmetFieldIff(reg, fields[1..], provided);
      assert FieldSet(fields) == {fields[0]} + FieldSet(fields[1..]);
    }
  }

  ghost predicate IsUnmet(reg: Registry, matchers: set<string>, provided: set<Capability>, u: Unmet) {
    u.matcher in matchers && u.matcher in reg.needs && u.needs == reg.needs[u.matcher] && !Covers(provided, u.needs)
  }

  datatype Test = Test(it: string, asserts: seq<Assertion>, hooks: nat)

  datatype Suite = Suite(tier: string, dependencies: nat, hooks: nat, tests: seq<Test>)

  // SuiteTier: an undeclared suite is held to render-only matchers.
  function SuiteTier(suite: Suite): string {
    if suite.tier == "" then TEMPLATE else suite.tier
  }

  datatype CeilingError =
    | NotRunnable(tier: string)
    | NeedsMore(test: string, unmet: Unmet, suggested: string)

  // Everything the suite mentions is provided at its declared tier.
  ghost predicate WithinCeiling(reg: Registry, suite: Suite) {
    && Runnable(SuiteTier(suite))
    && forall test, a :: test in suite.tests && a in test.asserts ==>
      AllCovered(reg, Mentioned(a), Provides(SuiteTier(suite)))
  }

  method ValidateTierCeiling(reg: Registry, suite: Suite) returns (err: Option<CeilingError>)
    ensures err.None? <==> WithinCeiling(reg, suite)
    ensures err.Some? && err.value.NotRunnable? ==> !Runnable(SuiteTier(suite))
    // The suggested tier is one the user can declare, and it is enough.
    ensures err.Some? && err.value.NeedsMore? ==>
      && Runnable(err.value.suggested) && Covers(Provides(err.value.suggested), err.value.unmet.needs)
      && exists test, a :: test in suite.tests && a in test.asserts && test.it == err.value.test
           && IsUnmet(reg, Mentioned(a), Provides(SuiteTier(suite)), err.value.unmet)
  {
    var tier := SuiteTier(suite);
    var runnable := RunnableTiers();
    if tier !in runnable {
      return Some(NotRunnable(tier));
    }
    var provided := TierProvides(tier);
    for i := 0 to |suite.tests|
      invariant forall test, a :: test in suite.tests[..i] && a in test.asserts ==>
        AllCovered(reg, Mentioned(a), provided)
    {
      hide AllCovered, IsUnmet, Mentioned, FirstUnmet;
      var test := suite.tests[i];
      assert suite.tests[..i + 1] == suite.tests[..i] + [test];
      for j := 0 to |test.asserts|
        invariant forall a :: a in test.asserts[..j] ==> AllCovered(reg, Mentioned(a), provided)
      {
        var a := test.asserts[j];
        assert test.asserts[..j + 1] == test.asserts[..j] + [a];
        FirstUnmetIff(reg, a, provided);
        var unmet := FirstUnmet(reg, a, provided);
        if unmet.Some? {
          var suggested := LowestRunnableTierFor(unmet.value.needs);
          assert test in suite.tests && a in test.asserts;
          return Some(NeedsMore(test.it, unmet.value, suggested));
        }
      }
      assert test.asserts[..|test.asserts|] == test.asserts;
    }
    assert suite.tests[..|suite.tests|] == suite.tests;
    return None;
  }

  // The fallback after the source's loop is never reached: e2e covers every
  // need and some backend runs it.
  method LowestRunnableTierFor(needs: seq<Capability>) returns (tier: string)
    ensures Runnable(tier) && Covers(Provides(tier), needs)
    ensures forall t :: Runnable(t) && Covers(Provides(t), needs) ==> Rank(tier) <= Rank(t)
  {
    var runnable := RunnableTiers();
    var tiers := TiersProviding(needs);
    ghost var k := Floor(needs);
    assert tiers[3 - k] == E2E && runnable[2] == E2E;
    var i := 0;
    while tiers[i] !in runnable
      invariant i <= 3 - k
      invariant forall j :: 0 <= j < i ==> !Runnable(tiers[j])
      decreases 4 - i
    {
      i := i + 1;
    }
    CoveredIff(needs, tiers[i]);
    forall t | Runnable(t) && Covers(Provides(t), needs) ensures k + i <= Rank(t) {
      RunnableTiersAre(t);
      CoveredIff(needs, t);
      InSuffixIff(t, k);
      var x :| 0 <= x < |tiers| && tiers[x] == t;
    }
    return tiers[i];
  }

  // ----------------------------------------------------- agreement of the walks

  // Any supported-tiers list is a suffix of the ladder.
  lemma {:induction false} SupportedIsSuffix(reg: Registry, a: Assertion) returns (k: nat)
    requires Agrees(reg)
    ensures k <= 3 && Supported(reg, a) == ALL_TIERS[k..]
    decreases a, 0
  {
    var m := Find(reg.order, a);
    if m.None? {
      k := 3;
    } else if m.value == ALL_OF {
      k := IntersectionIsSuffix(reg, a.allOf);
    } else if m.value == ANY_OF {
      k := IntersectionIsSuffix(reg, a.anyOf);
    } else {
      k := Floor(reg.needs[m.value]);
    }
  }

  lemma {:induction false} IntersectionIsSuffix(reg: Registry, children: seq<Assertion>) returns (k: nat)
    requires Agrees(reg)
    ensures k <= 3 && IntersectChildren(reg, children) == ALL_TIERS[k..]
    decreases children, 1
  {
    if children == [] {
      k := 0;
    } else if |children| == 1 {
      k := SupportedIsSuffix(reg, children[0]);
    } else {
      var i := IntersectionIsSuffix(reg, children[..|children| - 1]);
      var j := SupportedIsSuffix(reg, children[|children| - 1]);
      k := if i > j then i else j;
      IntersectSuffixes(ALL_TIERS, i, j);
    }
  }

  lemma IntersectSuffixes(t: seq<string>, i: nat, j: nat)
    requires forall x, y :: 0 <= x < y < |t| ==> t[x] != t[y]
    requires i <= |t| && j <= |t|
    ensures Intersect(t[i..], t[j..]) == t[if i > j then i else j..]
  {
    hide Intersect;
    var m := if i > j then i else j;
    var low, high := t[i..m], t[m..];
    forall s | s in low ensures s !in t[j..] {
      var x :| 0 <= x < |low| && low[x] == s;
      assert t[i + x] == s;
    }
    forall s | s in high ensures s in t[j..] {
      var x :| 0 <= x < |high| && high[x] == s;
      assert t[j..][m - j + x] == s;
    }
    IntersectNone(low, t[j..]);
    IntersectRest(low, high, t[j..]);
    assert low + high == t[i..] && [] + high == high;
  }

  lemma {:induction false} IntersectNone(a: seq<string>, b: seq<string>)
    requires forall t :: t in a ==> t !in b
    ensures Intersect(a, b) == []
  {
    if a != [] {
      assert a[|a| - 1] in a;
      IntersectNone(a[..|a| - 1], b);
    }
  }

  lemma {:induction false} IntersectRest(a: seq<string>, c: seq<string>, b: seq<string>)
    requires forall t :: t in c ==> t in b
    ensures Intersect(a + c, b) == Intersect(a, b) + c
  {
    if c == [] {
      assert a + c == a;
    } else {
      var front, last := c[..|c| - 1], c[|c| - 1];
      assert last in c;
      IntersectRest(a, front, b);
      assert (a + c)[..|a + c| - 1] == a + front && c == front + [last];
    }
  }

  // An assertion that sets exactly one matcher, composites throughout included.
  ghost predicate OneMatcher(reg: Registry, a: Assertion)
    decreases a, 0
  {
    if a.allOf != [] then a.anyOf == [] && a.fields == [] && EachOneMatcher(reg, a.allOf)
    else if a.anyOf != [] then a.fields == [] && EachOneMatcher(reg, a.anyOf)
    else |a.fields| == 1 && a.fields[0] in reg.needs
  }

  ghost predicate EachOneMatcher(reg: Registry, asserts: seq<Assertion>)
    decreases asserts, 1
  {
    asserts == [] || (OneMatcher(reg, asserts[0]) && EachOneMatcher(reg, asserts[1..]))
  }

  // The search for an unsupported matcher and the intersected tier list are
  // written separately; on such trees they agree at every tier.
  lemma {:induction false} WalksAgree(reg: Registry, a: Assertion, tier: string)
    requires Agrees(reg) && OneMatcher(reg, a)
    ensures Unsupported(reg, a, tier).Some? <==> tier !in Supported(reg, a)
    decreases a, 0
  {
    if a.allOf != [] {
      WalksAgreeOnAll(reg, a.allOf, tier);
      SearchIsAny(reg, a.allOf, tier);
    } else if a.anyOf != [] {
      WalksAgreeOnAll(reg, a.anyOf, tier);
      SearchIsAny(reg, a.anyOf, tier);
    }
  }

  lemma {:induction false} EachOneMatcherAt(reg: Registry, asserts: seq<Assertion>, i: nat)
    requires EachOneMatcher(reg, asserts) && i < |asserts|
    ensures OneMatcher(reg, asserts[i])
  {
    if i > 0 { EachOneMatcherAt(reg, asserts[1..], i - 1); }
  }

  lemma {:induction false} EachOneMatcherFront(reg: Registry, asserts: seq<Assertion>)
    requires EachOneMatcher(reg, asserts) && asserts != []
    ensures EachOneMatcher(reg, asserts[..|asserts| - 1])
  {
    if |asserts| > 1 {
      EachOneMatcherFront(reg, asserts[1..]);
      assert asserts[..|asserts| - 1][1..] == asserts[1..][..|asserts| - 2];
    }
  }

  lemma InIntersect(a: seq<string>, b: seq<string>, t: string)
    ensures t in Intersect(a, b) <==> t in a && t in b
  {
    if a != [] {
      InIntersect(a[..|a| - 1], b, t);
      assert a == a[..|a| - 1] + [a[|a| - 1]];
    }
  }

  // A tier survives the intersection exactly when no child rules it out.
  lemma {:induction false} WalksAgreeOnAll(reg: Registry, children: seq<Assertion>, tier: string)
    requires Agrees(reg) && EachOneMatcher(reg, children) && children != []
    ensures tier in IntersectChildren(reg, children) <==>
      forall i :: 0 <= i < |children| ==> Unsupported(reg, children[i], tier).None?
    decreases children, 1
  {
    hide Supported, Unsupported, OneMatcher, Intersect;
    var n := |children| - 1;
    EachOneMatcherAt(reg, children, n);
    WalksAgree(reg, children[n], tier);
    if n > 0 {
      EachOneMatcherFront(reg, children);
      WalksAgreeOnAll(reg, children[..n], tier);
      InIntersect(IntersectChildren(reg, children[..n]), Supported(reg, children[n]), tier);
    }
  }

  lemma {:induction false} SearchIsAny(reg: Registry, asserts: seq<Assertion>, tier: string)
    ensures FindUnsupported(reg, asserts, tier).None? <==>
      forall i :: 0 <= i < |asserts| ==> Unsupported(reg, asserts[i], tier).None?
    ensures FindUnsupported(reg, asserts, tier).Some? ==>
      exists i :: 0 <= i < |asserts| && Unsupported(reg, asserts[i], tier) == FindUnsupported(reg, asserts, tier)
        && forall j :: 0 <= j < i ==> Unsupported(reg, asserts[j], tier).None?
    decreases |asserts|
  {
    if asserts != [] {
      hide Unsupported;
      SearchIsAny(reg, asserts[1..], tier);
      if Unsupported(reg, asserts[0], tier).None? && FindUnsupported(reg, asserts[1..], tier).Some? {
        var rest := asserts[1..];
        var i :| 0 <= i < |rest| && Unsupported(reg, rest[i], tier) == FindUnsupported(reg, rest, tier)
          && forall j :: 0 <= j < i ==> Unsupported(reg, rest[j], tier).None?;
        assert forall j :: 1 <= j < i + 1 ==> asserts[j] == rest[j - 1];
        assert asserts[i + 1] == asserts[1..][i];
      }
    }
  }

  // Whatever is blamed is a tagged matcher that excludes the tier, and the
  // needed tier is the lowest it runs at.
  ghost predicate IsBlame(reg: Registry, tier: string, b: Blame) {
    && b.matcher in reg.needs
    && Rank(tier) < Floor(reg.needs[b.matcher])
    && b.needed == ALL_TIERS[Floor(reg.needs[b.matcher])]
  }

  lemma {:induction false} BlameIsRight(reg: Registry, a: Assertion, tier: string)
    requires Agrees(reg) && Unsupported(reg, a, tier).Some?
    ensures IsBlame(reg, tier, Unsupported(reg, a, tier).value)
    ensures Unsupported(reg, a, tier).value.matcher in Mentioned(a)
    decreases a, 0
  {
    if a.allOf != [] {
      BlameInIsRight(reg, a.allOf, tier);
    } else if a.anyOf != [] {
      BlameInIsRight(reg, a.anyOf, tier);
    } else {
      var m := Find(reg.order, a).value;
      InSuffixIff(tier, Floor(reg.needs[m]));
    }
  }

  lemma {:induction false} BlameInIsRight(reg: Registry, asserts: seq<Assertion>, tier: string)
    requires Agrees(reg) && FindUnsupported(reg, asserts, tier).Some?
    ensures IsBlame(reg, tier, FindUnsupported(reg, asserts, tier).value)
    ensures FindUnsupported(reg, asserts, tier).value.matcher in MentionedIn(asserts)
    decreases asserts, 1
  {
    hide IsBlame;
    if Unsupported(reg, asserts[0], tier).Some? {
      BlameIsRight(reg, asserts[0], tier);
    } else {
      BlameInIsRight(reg, asserts[1..], tier);
    }
  }

  // A matcher is mentioned where it is set, or further down.
  lemma MentionedMembers(a: Assertion, m: string)
    ensures m in Mentioned(a) <==>
      || m in a.fields
      || exists child :: (child in a.allOf || child in a.anyOf || child in a.lookup) && m in Mentioned(child)
  {
    MentionedInMembers(a.allOf, m);
    MentionedInMembers(a.anyOf, m);
    MentionedInMembers(a.lookup, m);
  }

  lemma {:induction false} MentionedInMembers(asserts: seq<Assertion>, m: string)
    ensures m in MentionedIn(asserts) <==> exists child :: child in asserts && m in Mentioned(child)
    decreases |asserts|
  {
    if asserts != [] {
      var first, rest := asserts[0], asserts[1..];
      assert asserts == [first] + rest;
      MentionedInMembers(rest, m);
      assert MentionedIn(asserts) == Mentioned(first) + MentionedIn(rest);
      hide Mentioned, MentionedIn;
      if m in MentionedIn(rest) {
        var child :| child in rest && m in Mentioned(child);
        assert child in asserts;
      }
      if m in Mentioned(first) { assert first in asserts; }
      assert forall child :: child in asserts ==> child == first || child in rest;
    }
  }

  lemma {:induction false} MentionedInMember(asserts: seq<Assertion>, i: nat)
    requires i < |asserts|
    ensures Mentioned(asserts[i]) <= MentionedIn(asserts)
  {
    if i > 0 { MentionedInMember(asserts[1..], i - 1); }
  }

  // A suite within its ceiling skips no test for its matchers, at its own tier
  // or any higher one.
  lemma CeilingMeansNoSkip(reg: Registry, suite: Suite, test: Test, tier: string)
    requires Agrees(reg) && WithinCeiling(reg, suite) && test in suite.tests
    requires Rank(SuiteTier(suite)) <= Rank(tier)
    ensures FindUnsupported(reg, test.asserts, tier).None?
  {
    RunnableTiersAre(SuiteTier(suite));
    SearchIsAny(reg, test.asserts, tier);
    forall i | 0 <= i < |test.asserts| ensures Unsupported(reg, test.asserts[i], tier).None? {
      var a := test.asserts[i];
      if Unsupported(reg, a, tier).Some? {
        BlameIsRight(reg, a, tier);
        var m := Unsupported(reg, a, tier).value.matcher;
        CoveredIff(reg.needs[m], SuiteTier(suite));
      }
    }
  }

  // ------------------------------------------------------------ the run gate

  datatype Reason =
    | MatcherUnavailable(matcher: string, tier: string, hint: seq<string>)
    | HasDependencies(tier: string, hint: seq<string>)
    | HasSuiteHooks(tier: string, hint: seq<string>)
    | HasTestHooks(tier: string, hint: seq<string>)

  function MatcherTierSkip(reg: Registry, asserts: seq<Assertion>, tier: string): Option<Reason> {
    var blame := FindUnsupported(reg, asserts, tier);
    if blame.None? then None else Some(MatcherUnavailable(blame.value.matcher, tier, Hint(blame.value.needed)))
  }

  // TierForBackend of internal/runner.
  function TierForBackend(backend: string): string {
    if backend == "" || backend == "none" then TEMPLATE
    else if backend == "envtest" then API_SERVER
    else if backend == "simulated" then SIMULATED
    else E2E
  }

  // Every backend a skip reason names runs at a tier where the named matcher
  // is available, and unless the matcher renders only there is one to name.
  lemma HintedBackendsSuffice(reg: Registry, a: Assertion, tier: string, backend: string)
    requires Agrees(reg) && Unsupported(reg, a, tier).Some? && Rank(tier) >= 0
    ensures var b := Unsupported(reg, a, tier).value;
      && (backend in Hint(b.needed) ==> TierForBackend(backend) in TiersForMatcher(reg, b.matcher))
      && "kind" in Hint(b.needed)
  {
    BlameIsRight(reg, a, tier);
    var b := Unsupported(reg, a, tier).value;
    var k := Floor(reg.needs[b.matcher]);
    assert BACKENDS[1] == "kind";
    HintMembers(b.needed, "kind");
    HintMembers(b.needed, backend);
    if backend in Hint(b.needed) {
      assert TierForBackend(backend) == BACKEND_TIERS[backend];
      InSuffixIff(TierForBackend(backend), k);
    }
  }

  predicate HasHooks(suite: Suite) {
    exists test :: test in suite.tests && test.hooks > 0
  }

  function IntegrationFeatureSkip(suite: Suite, tier: string): Option<Reason> {
    if Rank(tier) >= Rank(SIMULATED) then None
    else if suite.dependencies > 0 then Some(HasDependencies(tier, Hint(SIMULATED)))
    else if suite.hooks > 0 then Some(HasSuiteHooks(tier, Hint(SIMULATED)))
    else if HasHooks(suite) then Some(HasTestHooks(tier, Hint(SIMULATED)))
    else None
  }

  // Nothing in the suite would run at the tier.
  ghost predicate Unrunnable(reg: Registry, suite: Suite, tier: string) {
    || IntegrationFeatureSkip(suite, tier).Some?
    || (&& suite.tests != []
        && forall i :: 0 <= i < |suite.tests| ==> FindUnsupported(reg, suite.tests[i].asserts, tier).Some?)
  }

  method UnrunnableAt(reg: Registry, suite: Suite, tier: string) returns (reason: Option<Reason>)
    ensures reason.Some? <==> Unrunnable(reg, suite, tier)
    ensures reason.Some? ==>
      reason == if IntegrationFeatureSkip(suite, tier).Some? then IntegrationFeatureSkip(suite, tier)
                else MatcherTierSkip(reg, suite.tests[0].asserts, tier)
  {
    var skip := IntegrationFeatureSkip(suite, tier);
    if skip.Some? {
      return skip;
    }
    if |suite.tests| == 0 {
      return None;
    }
    reason := None;
    for i := 0 to |suite.tests|
      invariant forall j :: 0 <= j < i ==> FindUnsupported(reg, suite.tests[j].asserts, tier).Some?
      invariant reason == if i == 0 then None else MatcherTierSkip(reg, suite.tests[0].asserts, tier)
    {
      var why := MatcherTierSkip(reg, suite.tests[i].asserts, tier);
      if why.None? {
        return None;
      }
      if reason.None? {
        reason := why;
      }
    }
  }

  // An assertion skipped at a tier is skipped at every lower one, whatever its
  // shape.
  lemma {:induction false} SkippedBelow(reg: Registry, a: Assertion, low: string, high: string)
    requires Agrees(reg) && Rank(low) <= Rank(high) && Unsupported(reg, a, high).Some?
    ensures Unsupported(reg, a, low).Some?
    decreases a, 0
  {
    if a.allOf != [] {
      SkippedBelowIn(reg, a.allOf, low, high);
    } else if a.anyOf != [] {
      SkippedBelowIn(reg, a.anyOf, low, high);
    } else {
      var k := Floor(reg.needs[Find(reg.order, a).value]);
      InSuffixIff(low, k);
      InSuffixIff(high, k);
    }
  }

  lemma {:induction false} SkippedBelowIn(reg: Registry, asserts: seq<Assertion>, low: string, high: string)
    requires Agrees(reg) && Rank(low) <= Rank(high) && FindUnsupported(reg, asserts, high).Some?
    ensures FindUnsupported(reg, asserts, low).Some?
    decreases asserts, 1
  {
    if Unsupported(reg, asserts[0], high).Some? {
      SkippedBelow(reg, asserts[0], low, high);
    } else if Unsupported(reg, asserts[0], low).None? {
      SkippedBelowIn(reg, asserts[1..], low, high);
    }
  }

  // Raising the tier never makes a runnable suite unrunnable.
  lemma UnrunnableBelow(reg: Registry, suite: Suite, low: string, high: string)
    requires Agrees(reg) && Rank(low) <= Rank(high) && Unrunnable(reg, suite, high)
    ensures Unrunnable(reg, suite, low)
  {
    if IntegrationFeatureSkip(suite, high).None? {
      forall i | 0 <= i < |suite.tests| ensures FindUnsupported(reg, suite.tests[i].asserts, low).Some? {
        SkippedBelowIn(reg, suite.tests[i].asserts, low, high);
      }
    }
  }

  // ---------------------------------------------------- the gates, spelled out

  // A suite is skipped whole exactly when it declares dependencies or hooks and
  // the tier is below simulated.
  lemma FeatureSkipIff(suite: Suite, tier: string)
    ensures IntegrationFeatureSkip(suite, tier).Some? <==>
      && tier !in ["simulated", "e2e"]
      && (suite.dependencies > 0 || suite.hooks > 0 || exists t :: t in suite.tests && t.hooks > 0)
  {
  }

  // The reason names the first such feature, dependencies before suite hooks
  // before test hooks, and the backends that run at simulated or above.
  lemma FeatureSkipReason(suite: Suite, tier: string)
    requires IntegrationFeatureSkip(suite, tier).Some?
    ensures var hint := ["kind", "k3d", "kubeconfig"];
      IntegrationFeatureSkip(suite, tier).value ==
        if suite.dependencies > 0 then HasDependencies(tier, hint)
        else if suite.hooks > 0 then HasSuiteHooks(tier, hint)
        else HasTestHooks(tier, hint)
  {
    HintsAre();
  }

  // The tier a `--cluster` value runs at.
  lemma BackendTiersAre()
    ensures TierForBackend("") == TierForBackend("none") == "template"
    ensures TierForBackend("envtest") == "apiserver" && TierForBackend("simulated") == "simulated"
    ensures forall b :: b !in ["", "none", "envtest", "simulated"] ==> TierForBackend(b) == "e2e"
    ensures forall b :: b in BACKEND_TIERS ==> TierForBackend(b) == BACKEND_TIERS[b]
  {
  }

  // What a tier is supported for: an assertion no matcher claims only at e2e, a
  // matcher from the rung up that covers its needs, a composite where all its
  // children are.
  lemma SupportedAt(reg: Registry, a: Assertion, tier: string)
    requires Agrees(reg)
    ensures Find(reg.order, a) == None ==> (tier in Supported(reg, a) <==> tier == "e2e")
    ensures Find(reg.order, a).Some? && Find(reg.order, a).value in reg.needs ==>
      (tier in Supported(reg, a) <==>
        && tier in ["template", "apiserver", "simulated", "e2e"]
        && forall c :: c in reg.needs[Find(reg.order, a).value] ==> c in Provides(tier))
    ensures Find(reg.order, a) == Some("allOf") ==>
      (tier in Supported(reg, a) <==> forall child :: child in a.allOf ==> tier in Supported(reg, child))
    ensures Find(reg.order, a) == Some("anyOf") ==>
      (tier in Supported(reg, a) <==> forall child :: child in a.anyOf ==> tier in Supported(reg, child))
  {
    var m := Find(reg.order, a);
    if m.Some? && m.value in reg.needs { SuffixCovers(reg.needs[m.value]); }
    if m == Some("allOf") { IntersectionIsAll(reg, a.allOf, tier); }
    if m == Some("anyOf") { IntersectionIsAll(reg, a.anyOf, tier); }
  }

  lemma {:induction false} IntersectionIsAll(reg: Registry, children: seq<Assertion>, tier: string)
    requires children != []
    ensures tier in IntersectChildren(reg, children) <==>
      forall child :: child in children ==> tier in Supported(reg, child)
    decreases |children|
  {
    hide Supported, IntersectChildren;
    var front, last := children[..|children| - 1], children[|children| - 1];
    IntersectLast(reg, children);
    assert children == front + [last];
    if front != [] {
      IntersectionIsAll(reg, front, tier);
      InIntersect(IntersectChildren(reg, front), Supported(reg, last), tier);
    }
  }

  lemma IntersectLast(reg: Registry, children: seq<Assertion>)
    requires children != []
    ensures var front, last := children[..|children| - 1], children[|children| - 1];
      IntersectChildren(reg, children) ==
        if front == [] then Supported(reg, last) else Intersect(IntersectChildren(reg, front), Supported(reg, last))
  {
  }

  // When one assertion is skipped: a composite when some child is (allOf before
  // anyOf), any other when the matcher that claims it needs what the tier lacks.
  lemma SkippedWhen(reg: Registry, a: Assertion, tier: string)
    requires Agrees(reg) && tier in ["template", "apiserver", "simulated", "e2e"]
    ensures a.allOf != [] ==> (Unsupported(reg, a, tier).Some? <==>
      exists child :: child in a.allOf && Unsupported(reg, child, tier).Some?)
    ensures a.allOf == [] && a.anyOf != [] ==> (Unsupported(reg, a, tier).Some? <==>
      exists child :: child in a.anyOf && Unsupported(reg, child, tier).Some?)
    ensures a.allOf == [] && a.anyOf == [] ==> (Unsupported(reg, a, tier).Some? <==>
      exists m, c :: Find(reg.order, a) == Some(m) && m in reg.needs && c in reg.needs[m] && c !in Provides(tier))
  {
    SearchIsAny(reg, a.allOf, tier);
    SearchIsAny(reg, a.anyOf, tier);
    var m := Find(reg.order, a);
    if m.Some? && m.value in reg.needs {
      InSuffixIff(tier, Floor(reg.needs[m.value]));
      CoveredIff(reg.needs[m.value], tier);
    }
    if a.allOf != [] {
      assert forall child :: child in a.allOf <==> exists i :: 0 <= i < |a.allOf| && a.allOf[i] == child;
    }
  }

  // A skipped test's reason names the tier and one of the test's matchers, which
  // needs something the tier lacks; and it names exactly the backends on which
  // that matcher has everything it needs, if it needs a cluster at all.
  lemma SkipReasonIsRight(reg: Registry, asserts: seq<Assertion>, tier: string)
    requires Agrees(reg) && MatcherTierSkip(reg, asserts, tier).Some?
    ensures var reason := MatcherTierSkip(reg, asserts, tier).value;
      && reason.MatcherUnavailable? && reason.tier == tier
      && reason.matcher in MentionedIn(asserts) && reason.matcher in reg.needs
      && (tier in ["template", "apiserver", "simulated", "e2e"] ==>
            exists c :: c in reg.needs[reason.matcher] && c !in Provides(tier))
      && forall b :: b in reason.hint <==>
           && b in ["envtest", "kind", "k3d", "kubeconfig"]
           && (exists c :: c in reg.needs[reason.matcher] && c != RenderedManifests)
           && forall c :: c in reg.needs[reason.matcher] ==> c in Provides(TierForBackend(b))
  {
    BlameInIsRight(reg, asserts, tier);
    var blame := FindUnsupported(reg, asserts, tier).value;
    HintFitsNeeds(reg.needs[blame.matcher], tier);
  }

  lemma HintFitsNeeds(needs: seq<Capability>, tier: string)
    requires Rank(tier) < Floor(needs)
    ensures Rank(tier) >= 0 ==> exists c :: c in needs && c !in Provides(tier)
    ensures forall b :: b in Hint(ALL_TIERS[Floor(needs)]) <==>
      && b in ["envtest", "kind", "k3d", "kubeconfig"]
      && (exists c :: c in needs && c != RenderedManifests)
      && forall c :: c in needs ==> c in Provides(TierForBackend(b))
  {
    var k := Floor(needs);
    if Rank(tier) >= 0 { CoveredIff(needs, tier); }
    LadderIs();
    HintsAre();
    NeedsCluster(needs);
    BackendsCover(needs);
  }

  lemma NeedsCluster(needs: seq<Capability>)
    ensures (exists c :: c in needs && c != RenderedManifests) <==> Floor(needs) > 0
  {
    if Floor(needs) == 0 {
      forall c | c in needs ensures c == RenderedManifests { assert Level(c) == 0; }
    }
  }

  lemma BackendsCover(needs: seq<Capability>)
    ensures var k := Floor(needs);
      && ((forall c :: c in needs ==> c in Provides(TierForBackend("envtest"))) <==> k <= 1)
      && forall b :: b in ["kind", "k3d", "kubeconfig"] ==>
           forall c :: c in needs ==> c in Provides(TierForBackend(b))
  {
    CoveredIff(needs, "apiserver");
    CoveredIff(needs, "e2e");
  }

  // Acceptance by the ceiling, spelled out: the declared tier, template when
  // none is declared, is one a backend runs at, and it provides for every
  // matcher in the file.
  lemma CeilingIs(reg: Registry, suite: Suite, tier: string)
    requires tier == if suite.tier == "" then "template" else suite.tier
    ensures !WithinCeiling(reg, suite) <==>
      || tier !in ["template", "apiserver", "e2e"]
      || exists test, a, m, c :: test in suite.tests && a in test.asserts && Lacks(reg, a, tier, m, c)
  {
    hide Mentioned, Provides;
    assert tier == SuiteTier(suite);
    RunnableTiersAre(tier);
    if Runnable(tier) && !WithinCeiling(reg, suite) {
      var test, a :| test in suite.tests && a in test.asserts && !AllCovered(reg, Mentioned(a), Provides(tier));
      var m :| m in Mentioned(a) && m in reg.needs && !Covers(Provides(tier), reg.needs[m]);
      var c :| c in reg.needs[m] && c !in Provides(tier);
      assert Lacks(reg, a, tier, m, c);
    }
  }

  // m, mentioned by the assertion, needs c, and the tier has none.
  ghost predicate Lacks(reg: Registry, a: Assertion, tier: string, m: string, c: Capability) {
    m in Mentioned(a) && m in reg.needs && c in reg.needs[m] && c !in Provides(tier)
  }

  // The order the ceiling walk reports in: composites and lookups before the
  // assertion's own fields.
  function Visited(a: Assertion): seq<string>
    decreases a, 0
  {
    VisitedIn(a.allOf) + VisitedIn(a.anyOf) + VisitedIn(a.lookup) + a.fields
  }

  function VisitedIn(asserts: seq<Assertion>): seq<string>
    decreases asserts, 1
  {
    if asserts == [] then [] else Visited(asserts[0]) + VisitedIn(asserts[1..])
  }

  lemma FieldsInOrder(reg: Registry, a: seq<string>, b: seq<string>, provided: set<Capability>)
    ensures FirstUnmetField(reg, a + b, provided) ==
      if FirstUnmetField(reg, a, provided).Some? then FirstUnmetField(reg, a, provided)
      else FirstUnmetField(reg, b, provided)
  {
    if a == [] {
      assert a + b == b;
    } else {
      assert (a + b)[1..] == a[1..] + b;
    }
  }

  // The walk reports what a search through the flat list would.
  lemma {:induction false} WalkInOrder(reg: Registry, a: Assertion, provided: set<Capability>)
    ensures FirstUnmet(reg, a, provided) == FirstUnmetField(reg, Visited(a), provided)
    decreases a, 0
  {
    hide FirstUnmetField;
    var x, y, z := VisitedIn(a.allOf), VisitedIn(a.anyOf), VisitedIn(a.lookup);
    WalkInInOrder(reg, a.allOf, provided);
    WalkInInOrder(reg, a.anyOf, provided);
    WalkInInOrder(reg, a.lookup, provided);
    FieldsInOrder(reg, x + y + z, a.fields, provided);
    FieldsInOrder(reg, x + y, z, provided);
    FieldsInOrder(reg, x, y, provided);
  }

  lemma {:induction false} WalkInInOrder(reg: Registry, asserts: seq<Assertion>, provided: set<Capability>)
    ensures FirstUnmetIn(reg, asserts, provided) == FirstUnmetField(reg, VisitedIn(asserts), provided)
    decreases asserts, 1
  {
    if asserts != [] {
      WalkInOrder(reg, asserts[0], provided);
      WalkInInOrder(reg, asserts[1..], provided);
      FieldsInOrder(reg, Visited(asserts[0]), VisitedIn(asserts[1..]), provided);
    }
  }

  // The first field whose needs the tier does not cover.
  lemma {:induction false} FirstUnmetFieldIs(reg: Registry, fields: seq<string>, provided: set<Capability>, i: nat)
    requires i < |fields| && fields[i] in reg.needs
    requires exists c :: c in reg.needs[fields[i]] && c !in provided
    requires forall j, c :: 0 <= j < i && fields[j] in reg.needs && c in reg.needs[fields[j]] ==> c in provided
    ensures FirstUnmetField(reg, fields, provided) == Some(Unmet(fields[i], reg.needs[fields[i]]))
  {
    if i > 0 {
      assert fields[1..][i - 1] == fields[i];
      forall j, c | 0 <= j < i - 1 && fields[1..][j] in reg.needs && c in reg.needs[fields[1..][j]]
        ensures c in provided
      {
        assert fields[1..][j] == fields[j + 1];
      }
      FirstUnmetFieldIs(reg, fields[1..], provided, i - 1);
    }
  }
}
