// internal/matrix/matrix.go: the Cartesian product over dimensions in any map
// order, exclude rules, and includes merged into or appended to the result.
module Matrix {
  import opened Wrappers
  import opened Values

  type Combo = map<string, Value>

  datatype Dim = Dim(key: string, values: seq<Value>)

  datatype MatrixError = BadExclude | BadInclude | BadDimension(key: string)

  // ---------------------------------------------------------- specification

  // sub matches super: every key of sub is in super with the same value.
  predicate Contained(sub: Combo, super: Combo) {
    forall k :: k in sub ==> k in super && super[k] == sub[k]
  }

  predicate Excluded(combo: Combo, excludes: seq<Combo>) {
    exists i :: 0 <= i < |excludes| && Contained(excludes[i], combo)
  }

  // How often m arises as a choice of one value per dimension: once for every
  // way to pick indices that yield it.
  ghost function Multiplicity(dims: map<string, seq<Value>>, m: Combo): nat
    decreases dims.Keys
  {
    if dims == map[] then if m == map[] then 1 else 0
    else
      var k :| k in dims;
      if k in m then multiset(dims[k])[m[k]] * Multiplicity(dims - {k}, m - {k}) else 0
  }

  lemma MultiplicityPick(dims: map<string, seq<Value>>, m: Combo) returns (k: string)
    requires dims != map[]
    ensures k in dims && Multiplicity(dims, m) == Picking(dims, m, k)
  {
    k :| k in dims && Multiplicity(dims, m) ==
      if k in m then multiset(dims[k])[m[k]] * Multiplicity(dims - {k}, m - {k}) else 0;
  }

  ghost function Picking(dims: map<string, seq<Value>>, m: Combo, k: string): nat
    requires k in dims
  {
    if k in m then multiset(dims[k])[m[k]] * Multiplicity(dims - {k}, m - {k}) else 0
  }

  // How often an assignment can be chosen: its value for any one dimension, as
  // often as that is listed, times the rest. Which dimension comes first does
  // not matter.
  lemma MultiplicityIs(dims: map<string, seq<Value>>, m: Combo, k: string)
    requires k in dims
    ensures Multiplicity(dims, m) ==
      if k in m then multiset(dims[k])[m[k]] * Multiplicity(dims - {k}, m - {k}) else 0
    ensures Multiplicity(map[], m) == if m == map[] then 1 else 0
  {
    MultiplicityBy(dims, m, k);
  }

  lemma {:induction false} MultiplicityBy(dims: map<string, seq<Value>>, m: Combo, k: string)
    requires k in dims
    ensures Multiplicity(dims, m) == Picking(dims, m, k)
    decreases dims.Keys
  {
    hide Multiplicity;
    var l := MultiplicityPick(dims, m);
    if l != k {
      MultiplicityBy(dims - {l}, m - {l}, k);
      MultiplicityBy(dims - {k}, m - {k}, l);
      assert dims - {l} - {k} == dims - {k} - {l} && m - {l} - {k} == m - {k} - {l};
      if k in m && l in m {
        var a, b, c := multiset(dims[l])[m[l]], multiset(dims[k])[m[k]], Multiplicity(dims - {l} - {k}, m - {l} - {k});
        SwapFactors(a, b, c);
      } else if k in m {
        assert multiset(dims[k])[m[k]] * 0 == 0;
      } else if l in m {
        assert multiset(dims[l])[m[l]] * 0 == 0;
      }
    }
  }

  lemma SwapFactors(a: nat, b: nat, c: nat)
    ensures a * (b * c) == b * (a * c)
  {
    assert a * (b * c) == (a * b) * c == (b * a) * c;
  }

  // m gives every dimension one of its listed values, and nothing else.
  ghost predicate Assigns(dims: map<string, seq<Value>>, m: Combo) {
    m.Keys == dims.Keys && forall k :: k in dims ==> m[k] in dims[k]
  }

  lemma AssignsBy(dims: map<string, seq<Value>>, m: Combo, k: string)
    requires k in dims
    ensures Assigns(dims, m) <==> k in m && m[k] in dims[k] && Assigns(dims - {k}, m - {k})
  {
    if k in m {
      assert m.Keys == (m - {k}).Keys + {k} && dims.Keys == (dims - {k}).Keys + {k};
      if Assigns(dims - {k}, m - {k}) && m[k] in dims[k] {
        forall l | l in dims ensures l in m && m[l] in dims[l] {
          if l != k { assert l in dims - {k} && (m - {k})[l] in (dims - {k})[l]; }
        }
      }
    }
  }

  // The combinations that occur are the full assignments.
  lemma {:induction false} MultiplicityPositive(dims: map<string, seq<Value>>, m: Combo)
    ensures Multiplicity(dims, m) > 0 <==> Assigns(dims, m)
    decreases dims.Keys
  {
    if dims != map[] {
      hide Multiplicity, Assigns;
      var k := MultiplicityPick(dims, m);
      AssignsBy(dims, m, k);
      if k in m {
        MultiplicityPositive(dims - {k}, m - {k});
        var c, rest := multiset(dims[k])[m[k]], Multiplicity(dims - {k}, m - {k});
        assert c * rest > 0 <==> c > 0 && rest > 0;
      }
    }
  }

  // include j stands alone when nothing before it contains it.
  predicate Novel(base: seq<Combo>, includes: seq<Combo>, j: nat)
    requires j < |includes|
  {
    && (forall i :: 0 <= i < |base| ==> !Contained(includes[j], base[i]))
    && (forall i :: 0 <= i < j ==> !Contained(includes[j], includes[i]))
  }

  function NovelOnes(base: seq<Combo>, includes: seq<Combo>, n: nat): seq<Combo>
    requires n <= |includes|
  {
    if n == 0 then []
    else NovelOnes(base, includes, n - 1) + if Novel(base, includes, n - 1) then [includes[n - 1]] else []
  }

  // The result of Expand: a base that holds every non-excluded assignment as
  // often as it can be chosen, followed by the novel includes in order.
  ghost predicate IsExpansion(dims: map<string, seq<Value>>, excludes: seq<Combo>, includes: seq<Combo>,
                              base: seq<Combo>, out: seq<Combo>)
  {
    && (forall m :: multiset(base)[m] == if dims == map[] || Excluded(m, excludes) then 0 else Multiplicity(dims, m))
    && out == base + NovelOnes(base, includes, |includes|)
  }

  // --------------------------------------------------------- decoding the map

  // toSliceOfMaps.
  ghost predicate IsSliceOfMaps(v: Value) {
    v.List? && forall i :: 0 <= i < |v.items| ==> v.items[i].Map?
  }

  ghost function SliceOfMaps(v: Value): (r: seq<Combo>)
    requires IsSliceOfMaps(v)
    ensures |r| == |v.items| && forall i :: 0 <= i < |r| ==> r[i] == v.items[i].fields
  {
    seq(|v.items|, i requires 0 <= i < |v.items| => v.items[i].fields)
  }

  method ToSliceOfMaps(v: Value) returns (r: Option<seq<Combo>>)
    ensures r.Some? <==> IsSliceOfMaps(v)
    ensures r.Some? ==> r.value == SliceOfMaps(v)
  {
    if !v.List? {
      return None;
    }
    var out: seq<Combo> := [];
    for i := 0 to |v.items|
      invariant |out| == i
      invariant forall k :: 0 <= k < i ==> v.items[k].Map? && out[k] == v.items[k].fields
    {
      if !v.items[i].Map? {
        return None;
      }
      out := out + [v.items[i].fields];
    }
    return Some(out);
  }

  ghost function Rules(raw: map<string, Value>, key: string): seq<Combo>
    requires key in raw ==> IsSliceOfMaps(raw[key])
  {
    if key in raw then SliceOfMaps(raw[key]) else []
  }

  ghost function DimensionKeys(raw: map<string, Value>): set<string> {
    raw.Keys - {"exclude", "include"}
  }

  ghost function Dimensions(raw: map<string, Value>): map<string, seq<Value>>
    requires forall k :: k in DimensionKeys(raw) ==> raw[k].List?
  {
    map k | k in DimensionKeys(raw) :: raw[k].items
  }

  // -------------------------------------------------------- Cartesian product

  function ExtendOne(e: Combo, key: string, values: seq<Value>): seq<Combo> {
    if values == [] then []
    else ExtendOne(e, key, values[..|values| - 1]) + [e[key := values[|values| - 1]]]
  }

  function Extend(existing: seq<Combo>, d: Dim): seq<Combo> {
    if existing == [] then []
    else Extend(existing[..|existing| - 1], d) + ExtendOne(existing[|existing| - 1], d.key, d.values)
  }

  function Product(dims: seq<Dim>): seq<Combo> {
    if dims == [] then [map[]]
    else Extend(Product(dims[..|dims| - 1]), dims[|dims| - 1])
  }

  // cartesian: each dimension rebuilds the result.
  method Cartesian(dims: seq<Dim>) returns (result: seq<Combo>)
    ensures result == if dims == [] then [] else Product(dims)
  {
    if |dims| == 0 {
      return [];
    }
    result := [map[]];
    for n := 0 to |dims|
      invariant result == Product(dims[..n])
    {
      var d, next: seq<Combo> := dims[n], [];
      for i := 0 to |result|
        invariant next == Extend(result[..i], d)
      {
        var existing := result[i];
        ghost var before := next;
        for j := 0 to |d.values|
          invariant next == before + ExtendOne(existing, d.key, d.values[..j])
        {
          assert d.values[..j + 1][..j] == d.values[..j];
          next := next + [existing[d.key := d.values[j]]];
        }
        assert d.values[..|d.values|] == d.values;
        assert result[..i + 1][..i] == result[..i];
      }
      assert result[..|result|] == result;
      assert dims[..n + 1][..n] == dims[..n];
      result := next;
    }
    assert dims[..|dims|] == dims;
  }

  lemma UpdateIsRestriction(e: Combo, key: string, v: Value, m: Combo)
    requires key !in e
    ensures e[key := v] == m <==> key in m && m - {key} == e && m[key] == v
  {
    assert e[key := v] - {key} == e;
    if key in m && m - {key} == e { assert m == (m - {key})[key := m[key]]; }
  }

  lemma {:induction false} ExtendOneCount(e: Combo, key: string, values: seq<Value>, m: Combo)
    requires key !in e
    ensures multiset(ExtendOne(e, key, values))[m] ==
      if key in m && m - {key} == e then multiset(values)[m[key]] else 0
  {
    if values != [] {
      var front, last := values[..|values| - 1], values[|values| - 1];
      assert values == front + [last];
      ExtendOneCount(e, key, front, m);
      UpdateIsRestriction(e, key, last, m);
    }
  }

  lemma {:induction false} ExtendCount(existing: seq<Combo>, d: Dim, m: Combo)
    requires forall i :: 0 <= i < |existing| ==> d.key !in existing[i]
    ensures multiset(Extend(existing, d))[m] ==
      if d.key in m then multiset(d.values)[m[d.key]] * multiset(existing)[m - {d.key}] else 0
  {
    if existing != [] {
      var front, last := existing[..|existing| - 1], existing[|existing| - 1];
      ExtendCount(front, d, m);
      ExtendOneCount(last, d.key, d.values, m);
      var a, b := Extend(front, d), ExtendOne(last, d.key, d.values);
      assert Extend(existing, d) == a + b;
      hide Extend, ExtendOne;
      assert multiset(a + b)[m] == multiset(a)[m] + multiset(b)[m];
      if d.key in m {
        OneMore(existing, m - {d.key}, multiset(d.values)[m[d.key]]);
      }
    } else if d.key in m {
      assert multiset(d.values)[m[d.key]] * 0 == 0;
    }
  }

  lemma OneMore(s: seq<Combo>, r: Combo, c: nat)
    requires s != []
    ensures c * multiset(s)[r] == c * multiset(s[..|s| - 1])[r] + if s[|s| - 1] == r then c else 0
  {
    assert s == s[..|s| - 1] + [s[|s| - 1]];
    var n := multiset(s[..|s| - 1])[r];
    assert multiset(s)[r] == n + if s[|s| - 1] == r then 1 else 0;
    assert c * (n + 1) == c * n + c;
  }

  function DimMap(dims: seq<Dim>): map<string, seq<Value>> {
    if dims == [] then map[]
    else DimMap(dims[..|dims| - 1])[dims[|dims| - 1].key := dims[|dims| - 1].values]
  }

  ghost predicate DistinctKeys(dims: seq<Dim>) {
    forall i, j :: 0 <= i < j < |dims| ==> dims[i].key != dims[j].key
  }

  lemma DimMapKeys(dims: seq<Dim>)
    ensures forall k :: k in DimMap(dims) <==> exists i :: 0 <= i < |dims| && dims[i].key == k
  {
    if dims != [] {
      var front, last := dims[..|dims| - 1], dims[|dims| - 1];
      DimMapKeys(front);
      forall k ensures k in DimMap(dims) <==> exists i :: 0 <= i < |dims| && dims[i].key == k {
        if k == last.key {
          assert dims[|dims| - 1].key == k;
        } else if i :| 0 <= i < |dims| && dims[i].key == k {
          assert front[i].key == k;
        }
      }
    }
  }

  // The product holds each assignment as often as it can be chosen, and no
  // other combination; the order of the dimensions plays no part.
  lemma {:induction false} ProductCount(dims: seq<Dim>, m: Combo)
    requires DistinctKeys(dims)
    ensures multiset(Product(dims))[m] == Multiplicity(DimMap(dims), m)
    decreases |dims|
  {
    if dims != [] {
      var front, last := dims[..|dims| - 1], dims[|dims| - 1];
      DimMapKeys(front);
      assert last.key !in DimMap(front);
      forall i | 0 <= i < |Product(front)| ensures last.key !in Product(front)[i] {
        var e := Product(front)[i];
        ProductCount(front, e);
        MultiplicityPositive(DimMap(front), e);
        assert e in multiset(Product(front));
      }
      ExtendCount(Product(front), last, m);
      MultiplicityBy(DimMap(dims), m, last.key);
      assert DimMap(dims) - {last.key} == DimMap(front);
      if last.key in m {
        ProductCount(front, m - {last.key});
      }
    }
  }

  // ------------------------------------------------------------ exclude rules

  // Go panics on == between two lists or two maps.
  predicate Comparable(v: Value, w: Value) {
    !(v.List? && w.List?) && !(v.Map? && w.Map?)
  }

  // sub can be looked up in super, in any order of its keys.
  predicate Meets(sub: Combo, super: Combo) {
    forall k :: k in sub && k in super ==> Comparable(super[k], sub[k])
  }

  // Go's == on two interface values.
  predicate Equal(v: Value, w: Value)
    requires Comparable(v, w)
  {
    v == w
  }

  // The exclude rules reached before one matches.
  predicate ExcludesMeet(combo: Combo, excludes: seq<Combo>) {
    forall i :: 0 <= i < |excludes| && !Excluded(combo, excludes[..i]) ==> Meets(excludes[i], combo)
  }

  // isSubset and matchesExclude, which are the same loop.
  method Matches(sub: Combo, super: Combo) returns (ok: bool)
    requires Meets(sub, super)
    ensures ok <==> forall k :: k in sub ==> k in super && super[k] == sub[k]
  {
    var rest := sub.Keys;
    while rest != {}
      invariant rest <= sub.Keys
      invariant forall k :: k in sub.Keys - rest ==> k in super && super[k] == sub[k]
      decreases rest
    {
      var k :| k in rest;
      rest := rest - {k};
      if k !in super || !Equal(super[k], sub[k]) {
        return false;
      }
    }
    return true;
  }

  method MatchesAnyExclude(combo: Combo, excludes: seq<Combo>) returns (ok: bool)
    requires ExcludesMeet(combo, excludes)
    ensures ok == Excluded(combo, excludes)
    ensures ok <==> exists rule :: rule in excludes && forall k :: k in rule ==> k in combo && combo[k] == rule[k]
  {
    ExcludedIs(combo, excludes);
    for i := 0 to |excludes|
      invariant forall j :: 0 <= j < i ==> !Contained(excludes[j], combo)
    {
      var hit := Matches(excludes[i], combo);
      if hit { return true; }
    }
    return false;
  }

  method Filter(product: seq<Combo>, excludes: seq<Combo>) returns (filtered: seq<Combo>)
    requires forall i :: 0 <= i < |product| ==> ExcludesMeet(product[i], excludes)
    ensures forall m :: multiset(filtered)[m] == if Excluded(m, excludes) then 0 else multiset(product)[m]
  {
    filtered := [];
    for i := 0 to |product|
      invariant forall m :: multiset(filtered)[m] == if Excluded(m, excludes) then 0 else multiset(product[..i])[m]
    {
      assert product[..i + 1] == product[..i] + [product[i]];
      var out := MatchesAnyExclude(product[i], excludes);
      if !out {
        filtered := filtered + [product[i]];
      }
    }
    assert product[..|product|] == product;
  }

  // ----------------------------------------------------------------- includes

  lemma ContainedTransitive(a: Combo, b: Combo, c: Combo)
    requires Contained(a, b) && Contained(b, c)
    ensures Contained(a, c)
  {
  }

  // combo[k] = v for every k of inc: since inc matches combo, nothing changes.
  method Merge(inc: Combo, combo0: Combo) returns (combo: Combo)
    requires Contained(inc, combo0)
    ensures combo == combo0
  {
    combo := combo0;
    var rest := inc.Keys;
    while rest != {}
      invariant rest <= inc.Keys && combo == combo0
      decreases rest
    {
      var k :| k in rest;
      rest := rest - {k};
      combo := combo[k := inc[k]];
    }
  }

  // Each include is written into every entry it matches, and appended as an
  // entry of its own when it matches none.
  method AddIncludes(base: seq<Combo>, includes: seq<Combo>) returns (out: seq<Combo>)
    requires IncludesMeet(base, includes)
    ensures out == base + NovelOnes(base, includes, |includes|)
    ensures AllCovered(includes, |includes|, out)
  {
    hide Contained, Covered, AllCovered, Novel, NovelOnes, IncludesMeet;
    out := base;
    NoIncludesYet(base, includes);
    for n := 0 to |includes|
      invariant out == base + NovelOnes(base, includes, n)
      invariant AllCovered(includes, n, out)
    {
      var inc := includes[n];
      ghost var before := out;
      IncludeMeetsAll(base, includes, n);
      var merged;
      out, merged := MergeIntoAll(inc, out);
      NovelIffUncovered(base, includes, n, out);
      NovelOnesStep(base, includes, n);
      if !merged {
        var entry := Copy(inc);
        out := out + [entry];
        OwnEntryCovers(before, inc);
      }
      CoverageGrows(includes, n, before, out);
    }
  }

  // Each include can be looked up in the base and in the includes before it.
  ghost predicate IncludesMeet(base: seq<Combo>, includes: seq<Combo>) {
    forall j :: 0 <= j < |includes| ==>
      && (forall i :: 0 <= i < |base| ==> Meets(includes[j], base[i]))
      && (forall i :: 0 <= i < j ==> Meets(includes[j], includes[i]))
  }

  lemma IncludeMeetsAll(base: seq<Combo>, includes: seq<Combo>, n: nat)
    requires IncludesMeet(base, includes) && n < |includes|
    ensures var out := base + NovelOnes(base, includes, n);
      forall i :: 0 <= i < |out| ==> Meets(includes[n], out[i])
  {
    hide Meets;
    var out := base + NovelOnes(base, includes, n);
    forall i | 0 <= i < |out| ensures Meets(includes[n], out[i]) {
      if i >= |base| { var j := NovelOneIsInclude(base, includes, n, i - |base|); }
    }
  }

  // Every one of the first n includes is contained in some entry.
  ghost predicate AllCovered(includes: seq<Combo>, n: nat, out: seq<Combo>)
    requires n <= |includes|
  {
    forall j :: 0 <= j < n ==> Covered(includes[j], out)
  }

  ghost predicate Covered(inc: Combo, out: seq<Combo>) {
    exists k :: 0 <= k < |out| && Contained(inc, out[k])
  }

  lemma CoverageGrows(includes: seq<Combo>, n: nat, before: seq<Combo>, out: seq<Combo>)
    requires n < |includes| && AllCovered(includes, n, before) && before <= out && Covered(includes[n], out)
    ensures AllCovered(includes, n + 1, out)
  {
    forall j | 0 <= j <= n ensures Covered(includes[j], out) {
      if j < n {
        assert Covered(includes[j], before);
        var k :| 0 <= k < |before| && Contained(includes[j], before[k]);
        assert Contained(includes[j], out[k]);
      }
    }
  }

  lemma NoIncludesYet(base: seq<Combo>, includes: seq<Combo>)
    ensures base == base + NovelOnes(base, includes, 0) && AllCovered(includes, 0, base)
  {
  }

  lemma NovelOnesStep(base: seq<Combo>, includes: seq<Combo>, n: nat)
    requires n < |includes|
    ensures base + NovelOnes(base, includes, n + 1) ==
      base + NovelOnes(base, includes, n) + if Novel(base, includes, n) then [includes[n]] else []
  {
  }

  lemma OwnEntryCovers(entries: seq<Combo>, inc: Combo)
    ensures Covered(inc, entries + [inc])
  {
    assert Contained(inc, (entries + [inc])[|entries|]);
  }

  // The inner loop: every matching entry is rewritten in place.
  method MergeIntoAll(inc: Combo, entries0: seq<Combo>) returns (entries: seq<Combo>, merged: bool)
    requires forall i :: 0 <= i < |entries0| ==> Meets(inc, entries0[i])
    ensures entries == entries0
    ensures merged <==> Covered(inc, entries0)
  {
    entries, merged := entries0, false;
    for i := 0 to |entries|
      invariant entries == entries0
      invariant merged <==> exists k :: 0 <= k < i && Contained(inc, entries0[k])
    {
      var hit := Matches(inc, entries[i]);
      if hit {
        var combo := Merge(inc, entries[i]);
        entries := entries[i := combo];
        merged := true;
      }
    }
  }

  method Copy(inc: Combo) returns (entry: Combo)
    ensures entry == inc
  {
    entry := map[];
    var rest := inc.Keys;
    while rest != {}
      invariant rest <= inc.Keys && entry == inc - rest
      decreases rest
    {
      var k :| k in rest;
      rest := rest - {k};
      entry := entry[k := inc[k]];
    }
  }

  // An include matches some current entry unless it is novel: an earlier
  // include that was merged away sits inside the entry it was merged into.
  lemma NovelIffUncovered(base: seq<Combo>, includes: seq<Combo>, n: nat, out: seq<Combo>)
    requires n < |includes| && out == base + NovelOnes(base, includes, n)
    requires AllCovered(includes, n, out)
    ensures Novel(base, includes, n) <==> !Covered(includes[n], out)
  {
    hide Contained, NovelOnes;
    var inc := includes[n];
    if Covered(inc, out) {
      var k :| 0 <= k < |out| && Contained(inc, out[k]);
      if k >= |base| {
        var j := NovelOneIsInclude(base, includes, n, k - |base|);
        assert Contained(inc, includes[j]);
      } else {
        assert Contained(inc, base[k]);
      }
    } else {
      forall i | 0 <= i < |base| ensures !Contained(inc, base[i]) { assert out[i] == base[i]; }
      forall j | 0 <= j < n ensures !Contained(inc, includes[j]) {
        assert Covered(includes[j], out);
        var k :| 0 <= k < |out| && Contained(includes[j], out[k]);
        if Contained(inc, includes[j]) { ContainedTransitive(inc, includes[j], out[k]); }
      }
    }
  }

  lemma CoveredIs(inc: Combo, out: seq<Combo>)
    ensures Covered(inc, out) <==>
      exists entry :: entry in out && forall k :: k in inc ==> k in entry && entry[k] == inc[k]
  {
    if Covered(inc, out) {
      var i :| 0 <= i < |out| && Contained(inc, out[i]);
      assert out[i] in out;
    }
    if entry :| entry in out && forall k :: k in inc ==> k in entry && entry[k] == inc[k] {
      var i :| 0 <= i < |out| && out[i] == entry;
      assert Contained(inc, out[i]);
    }
  }

  // The next include is appended unless a base entry or an earlier include has
  // all of it.
  lemma NovelOnesGrow(base: seq<Combo>, includes: seq<Combo>, n: nat)
    requires n < |includes|
    ensures NovelOnes(base, includes, 0) == []
    ensures var inc, before := includes[n], base + includes[..n];
      var covered := exists entry :: entry in before && forall k :: k in inc ==> k in entry && entry[k] == inc[k];
      NovelOnes(base, includes, n + 1) == NovelOnes(base, includes, n) + if covered then [] else [inc]
  {
    var inc, before := includes[n], base + includes[..n];
    CoveredIs(inc, before);
    if Covered(inc, before) {
      var i :| 0 <= i < |before| && Contained(inc, before[i]);
      assert before[i] == if i < |base| then base[i] else includes[i - |base|];
    } else {
      forall i | 0 <= i < |base| ensures !Contained(inc, base[i]) { assert before[i] == base[i]; }
      forall i | 0 <= i < n ensures !Contained(inc, includes[i]) { assert before[|base| + i] == includes[i]; }
    }
  }

  // What an expansion holds: the base first, each combination that no rule
  // excludes as often as indices choose it.
  lemma ExpansionMeans(dims: map<string, seq<Value>>, excludes: seq<Combo>, includes: seq<Combo>,
                       base: seq<Combo>, out: seq<Combo>, m: Combo)
    requires IsExpansion(dims, excludes, includes, base, out)
    ensures out == base + NovelOnes(base, includes, |includes|)
    ensures m in base <==>
      && dims != map[] && m.Keys == dims.Keys && (forall k :: k in dims ==> m[k] in dims[k])
      && !exists rule :: rule in excludes && forall k :: k in rule ==> k in m && m[k] == rule[k]
    ensures m in base ==> multiset(base)[m] == Multiplicity(dims, m)
  {
    assert m in base <==> multiset(base)[m] > 0;
    MultiplicityPositive(dims, m);
    ExcludedIs(m, excludes);
  }

  lemma ExcludedIs(m: Combo, excludes: seq<Combo>)
    ensures Excluded(m, excludes) <==>
      exists rule :: rule in excludes && forall k :: k in rule ==> k in m && m[k] == rule[k]
  {
    if Excluded(m, excludes) {
      var i :| 0 <= i < |excludes| && Contained(excludes[i], m);
      assert excludes[i] in excludes;
    }
    if rule :| rule in excludes && forall k :: k in rule ==> k in m && m[k] == rule[k] {
      var i :| 0 <= i < |excludes| && excludes[i] == rule;
      assert Contained(excludes[i], m);
    }
  }

  lemma NovelOneIsInclude(base: seq<Combo>, includes: seq<Combo>, n: nat, k: nat) returns (j: nat)
    requires n <= |includes| && k < |NovelOnes(base, includes, n)|
    ensures j < n && includes[j] == NovelOnes(base, includes, n)[k]
  {
    if k < |NovelOnes(base, includes, n - 1)| {
      j := NovelOneIsInclude(base, includes, n - 1, k);
    } else {
      j := n - 1;
    }
  }

  // ------------------------------------------------------------------- Expand

  ghost predicate WellFormedMatrix(raw: map<string, Value>) {
    && ("exclude" in raw ==> IsSliceOfMaps(raw["exclude"]))
    && ("include" in raw ==> IsSliceOfMaps(raw["include"]))
    && forall k :: k in DimensionKeys(raw) ==> raw[k].List?
  }

  // No comparison Expand makes is one that Go panics on: exclude rules against
  // the combinations, includes against those left and against one another.
  ghost predicate ComparableMatrix(raw: map<string, Value>) {
    WellFormedMatrix(raw) ==>
      var dims, excludes, includes := Dimensions(raw), Rules(raw, "exclude"), Rules(raw, "include");
      && (forall m :: Assigns(dims, m) ==> ExcludesMeet(m, excludes))
      && (forall m, j :: 0 <= j < |includes| && Assigns(dims, m) && !Excluded(m, excludes) ==> Meets(includes[j], m))
      && (forall i, j :: 0 <= i < j < |includes| ==> Meets(includes[j], includes[i]))
  }

  // The dimensions are the other keys, each with its list.
  lemma DimensionsAre(raw: map<string, Value>)
    requires forall k :: k in raw && k != "exclude" && k != "include" ==> raw[k].List?
    ensures forall k :: k in Dimensions(raw) <==> k in raw && k != "exclude" && k != "include"
    ensures forall k :: k in Dimensions(raw) ==> raw[k] == List(Dimensions(raw)[k])
    ensures forall key :: key in raw && IsSliceOfMaps(raw[key]) ==>
      raw[key] == List(seq(|Rules(raw, key)|, i requires 0 <= i < |Rules(raw, key)| => Map(Rules(raw, key)[i])))
    ensures forall key :: key !in raw ==> Rules(raw, key) == []
  {
  }

  lemma AllCoveredIs(includes: seq<Combo>, out: seq<Combo>)
    requires AllCovered(includes, |includes|, out)
    ensures forall inc :: inc in includes ==>
      exists entry :: entry in out && forall k :: k in inc ==> k in entry && entry[k] == inc[k]
  {
    forall inc | inc in includes
      ensures exists entry :: entry in out && forall k :: k in inc ==> k in entry && entry[k] == inc[k]
    {
      var j :| 0 <= j < |includes| && includes[j] == inc;
      assert Covered(includes[j], out);
      CoveredIs(inc, out);
    }
  }

  lemma ProductMeets(dims: seq<Dim>, excludes: seq<Combo>)
    requires DistinctKeys(dims) && forall m :: Assigns(DimMap(dims), m) ==> ExcludesMeet(m, excludes)
    ensures forall i :: 0 <= i < |Product(dims)| ==> ExcludesMeet(Product(dims)[i], excludes)
  {
    hide Product, ExcludesMeet, Multiplicity, DimMap, DistinctKeys;
    forall i | 0 <= i < |Product(dims)| ensures ExcludesMeet(Product(dims)[i], excludes) {
      InProductAssigns(dims, Product(dims)[i]);
    }
  }

  lemma InProductAssigns(dims: seq<Dim>, m: Combo)
    requires DistinctKeys(dims) && m in Product(dims)
    ensures Assigns(DimMap(dims), m)
  {
    hide Product, Multiplicity, Assigns, DimMap, DistinctKeys;
    assert m in multiset(Product(dims));
    ProductCount(dims, m);
    MultiplicityPositive(DimMap(dims), m);
  }

  lemma FilteredMembers(dims: seq<Dim>, excludes: seq<Combo>, product: seq<Combo>, filtered: seq<Combo>)
    requires product == if dims == [] then [] else Product(dims)
    requires forall m :: (multiset(filtered)[m] == if Excluded(m, excludes) then 0 else multiset(product)[m])
    ensures forall m :: m in filtered ==> m in Product(dims) && !Excluded(m, excludes)
  {
    hide Product, Excluded;
    forall m | m in filtered ensures m in Product(dims) && !Excluded(m, excludes) {
      assert m in multiset(filtered);
    }
  }

  lemma BaseMeets(dims: seq<Dim>, excludes: seq<Combo>, includes: seq<Combo>, base: seq<Combo>)
    requires DistinctKeys(dims)
    requires forall m, j :: 0 <= j < |includes| && Assigns(DimMap(dims), m) && !Excluded(m, excludes) ==>
      Meets(includes[j], m)
    requires forall i, j :: 0 <= i < j < |includes| ==> Meets(includes[j], includes[i])
    requires forall m :: m in base ==> m in Product(dims) && !Excluded(m, excludes)
    ensures IncludesMeet(base, includes)
  {
    hide Product, Meets, Assigns, DimMap, DistinctKeys, Excluded;
    forall i | 0 <= i < |base| ensures Assigns(DimMap(dims), base[i]) && !Excluded(base[i], excludes) {
      assert base[i] in base;
      InProductAssigns(dims, base[i]);
    }
  }

  method Expand(raw: map<string, Value>) returns (r: Result<seq<Combo>, MatrixError>)
    requires ComparableMatrix(raw)
    ensures
      if "exclude" in raw && !IsSliceOfMaps(raw["exclude"]) then r == Err(BadExclude)
      else if "include" in raw && !IsSliceOfMaps(raw["include"]) then r == Err(BadInclude)
      else if exists k :: k in raw && k != "exclude" && k != "include" && !raw[k].List? then
        && r.Err? && r.error.BadDimension? && r.error.key in raw
        && r.error.key != "exclude" && r.error.key != "include" && !raw[r.error.key].List?
      else
        && r.Ok?
        && (exists base :: IsExpansion(Dimensions(raw), Rules(raw, "exclude"), Rules(raw, "include"), base, r.value))
    ensures r.Ok? ==> forall inc :: inc in Rules(raw, "include") ==>
      exists entry :: entry in r.value && forall k :: k in inc ==> k in entry && entry[k] == inc[k]
  {
    hide IsExpansion, Excluded, Multiplicity, Product, DimMap, DistinctKeys, NovelOnes, AllCovered;
    hide IncludesMeet, ExcludesMeet, Meets, Assigns;
    var excludes, includes: seq<Combo> := [], [];
    if "exclude" in raw {
      var slice := ToSliceOfMaps(raw["exclude"]);
      if slice.None? { return Err(BadExclude); }
      excludes := slice.value;
    }
    if "include" in raw {
      var slice := ToSliceOfMaps(raw["include"]);
      if slice.None? { return Err(BadInclude); }
      includes := slice.value;
    }
    var dims := CollectDims(raw);
    if dims.Err? {
      return Err(dims.error);
    }
    assert excludes == Rules(raw, "exclude") && includes == Rules(raw, "include");
    var product := Cartesian(dims.value);
    ProductMeets(dims.value, excludes);
    var filtered := Filter(product, excludes);
    FilteredMembers(dims.value, excludes, product, filtered);
    BaseMeets(dims.value, excludes, includes, filtered);
    var out := AddIncludes(filtered, includes);
    BaseIsExpansion(dims.value, excludes, includes, filtered, out);
    assert IsExpansion(Dimensions(raw), excludes, includes, filtered, out);
    AllCoveredIs(includes, out);
    r := Ok(out);
  }

  lemma BaseIsExpansion(dims: seq<Dim>, excludes: seq<Combo>, includes: seq<Combo>, base: seq<Combo>, out: seq<Combo>)
    requires DistinctKeys(dims) && (dims == [] <==> DimMap(dims) == map[])
    requires forall m ::
      (multiset(base)[m] == if dims == [] || Excluded(m, excludes) then 0 else multiset(Product(dims))[m])
    requires out == base + NovelOnes(base, includes, |includes|)
    ensures IsExpansion(DimMap(dims), excludes, includes, base, out)
  {
    hide Multiplicity, Product, DimMap, DistinctKeys, NovelOnes, Excluded;
    forall m ensures dims != [] ==> multiset(Product(dims))[m] == Multiplicity(DimMap(dims), m) {
      if dims != [] { ProductCount(dims, m); }
    }
  }

  // Go ranges over the map in an unspecified order.
  method CollectDims(raw: map<string, Value>) returns (r: Result<seq<Dim>, MatrixError>)
    ensures r.Ok? <==> forall k :: k in DimensionKeys(raw) ==> raw[k].List?
    ensures r.Ok? ==> DistinctKeys(r.value) && DimMap(r.value) == Dimensions(raw)
    ensures r.Ok? ==> (r.value == [] <==> Dimensions(raw) == map[])
    ensures r.Err? ==> r.error.BadDimension? && r.error.key in DimensionKeys(raw) && !raw[r.error.key].List?
  {
    hide DimMap;
    var dims: seq<Dim> := [];
    var rest := raw.Keys;
    NoDims();
    ghost var seen: map<string, seq<Value>> := map[];
    while rest != {}
      invariant rest <= raw.Keys
      invariant DistinctKeys(dims) && DimMap(dims) == seen
      invariant seen.Keys == DimensionKeys(raw) - rest
      invariant forall k :: k in seen ==> raw[k].List? && seen[k] == raw[k].items
      invariant forall i :: 0 <= i < |dims| ==> dims[i].key in seen
      invariant dims == [] <==> seen == map[]
      decreases rest
    {
      var k :| k in rest;
      rest := rest - {k};
      if k == "exclude" || k == "include" {
        continue;
      }
      if !raw[k].List? {
        return Err(BadDimension(k));
      }
      DimMapGrows(dims, Dim(k, raw[k].items));
      dims := dims + [Dim(k, raw[k].items)];
      seen := seen[k := raw[k].items];
    }
    assert seen == Dimensions(raw);
    return Ok(dims);
  }

  lemma NoDims()
    ensures DimMap([]) == map[]
  {
  }

  lemma DimMapGrows(dims: seq<Dim>, d: Dim)
    ensures DimMap(dims + [d]) == DimMap(dims)[d.key := d.values]
  {
    assert (dims + [d])[..|dims|] == dims;
  }

  // Two runs over the same matrix give the same entries equally often,
  // whatever order Go visits the dimensions in.
  lemma ExpansionsAgree(dims: map<string, seq<Value>>, excludes: seq<Combo>, includes: seq<Combo>,
                        base1: seq<Combo>, out1: seq<Combo>, base2: seq<Combo>, out2: seq<Combo>)
    requires IsExpansion(dims, excludes, includes, base1, out1)
    requires IsExpansion(dims, excludes, includes, base2, out2)
    ensures multiset(out1) == multiset(out2)
    ensures out1[|base1|..] == out2[|base2|..]
  {
    assert multiset(base1) == multiset(base2) by {
      forall m ensures multiset(base1)[m] == multiset(base2)[m] {}
    }
    NovelOnesAgree(base1, base2, includes, |includes|);
  }

  lemma NovelOnesAgree(base1: seq<Combo>, base2: seq<Combo>, includes: seq<Combo>, n: nat)
    requires multiset(base1) == multiset(base2) && n <= |includes|
    ensures NovelOnes(base1, includes, n) == NovelOnes(base2, includes, n)
  {
    if n > 0 {
      NovelOnesAgree(base1, base2, includes, n - 1);
      hide Contained;
      forall e ensures e in base1 <==> e in base2 {
        assert e in base1 <==> e in multiset(base1);
        assert e in base2 <==> e in multiset(base2);
      }
      assert Novel(base1, includes, n - 1) <==> Novel(base2, includes, n - 1) by {
        forall i | 0 <= i < |base1| ensures base1[i] in base2 {}
        forall i | 0 <= i < |base2| ensures base2[i] in base1 {}
      }
    }
  }
}
