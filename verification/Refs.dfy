// internal/deps/source_ref.go: inlining the dependency lists of `ref:` files,
// at most eight files deep.
module Refs {
  import opened Wrappers
  import opened Dependencies

  // What reading and parsing a file yields; a path outside the map does not
  // exist.
  datatype File = Malformed | DependencyFile(dependencies: seq<Dependency>)

  type FileSystem = map<string, File>

  datatype RefError =
    | TooDeep
    | CannotRead(path: string)
    | CannotParse(path: string)
    | Loading(dep: string, ref: string, cause: RefError)

  const MAX_REF_DEPTH := 8

  // ---------------------------------------------------------- specification

  function Resolve(fs: FileSystem, deps: seq<Dependency>, depth: nat): Result<seq<Dependency>, RefError>
    requires depth <= MAX_REF_DEPTH + 1
    decreases MAX_REF_DEPTH + 1 - depth, 1, |deps|
  {
    if depth > MAX_REF_DEPTH then Err(TooDeep)
    else if deps == [] then Ok([])
    else
      var head := if deps[0].source.ref == "" then Ok([deps[0]]) else Load(fs, deps[0].source.ref, depth);
      if head.Err? then Err(Loading(deps[0].name, deps[0].source.ref, head.error))
      else Prepend(head.value, Resolve(fs, deps[1..], depth))
  }

  function Load(fs: FileSystem, path: string, depth: nat): Result<seq<Dependency>, RefError>
    requires depth <= MAX_REF_DEPTH
    decreases MAX_REF_DEPTH + 1 - depth, 0, 0
  {
    if path !in fs then Err(CannotRead(path))
    else match fs[path]
      case Malformed => Err(CannotParse(path))
      case DependencyFile(inner) => if inner == [] then Ok([]) else Resolve(fs, inner, depth + 1)
  }

  function Prepend(acc: seq<Dependency>, r: Result<seq<Dependency>, RefError>): Result<seq<Dependency>, RefError> {
    if r.Ok? then Ok(acc + r.value) else r
  }

  lemma PrependNothing(r: Result<seq<Dependency>, RefError>)
    ensures Prepend([], r) == r
  {
    if r.Ok? { assert [] + r.value == r.value; }
  }

  lemma PrependTwice(a: seq<Dependency>, b: seq<Dependency>, r: Result<seq<Dependency>, RefError>)
    ensures Prepend(a, Prepend(b, r)) == Prepend(a + b, r)
  {
    if r.Ok? { assert a + (b + r.value) == (a + b) + r.value; }
  }

  // ------------------------------------------------------------- operations

  method ResolveRefs(fs: FileSystem, deps: seq<Dependency>) returns (r: Result<seq<Dependency>, RefError>)
    ensures r == Resolve(fs, deps, 0)
  {
    r := ResolveRefsDepth(fs, deps, 0);
  }

  method ResolveRefsDepth(fs: FileSystem, deps: seq<Dependency>, depth: nat)
    returns (r: Result<seq<Dependency>, RefError>)
    requires depth <= MAX_REF_DEPTH + 1
    ensures r == Resolve(fs, deps, depth)
    decreases MAX_REF_DEPTH + 1 - depth, 1
  {
    if depth > MAX_REF_DEPTH {
      return Err(TooDeep);
    }
    var result: seq<Dependency> := [];
    PrependNothing(Resolve(fs, deps, depth));
    assert deps[0..] == deps;
    for i := 0 to |deps|
      invariant Resolve(fs, deps, depth) == Prepend(result, Resolve(fs, deps[i..], depth))
    {
      var dep := deps[i];
      assert deps[i..][1..] == deps[i + 1..];
      ghost var rest := Resolve(fs, deps[i + 1..], depth);
      if dep.source.ref == "" {
        PrependTwice(result, [dep], rest);
        result := result + [dep];
        continue;
      }
      var expanded := LoadRefDeps(fs, dep.source.ref, depth);
      if expanded.Err? {
        return Err(Loading(dep.name, dep.source.ref, expanded.error));
      }
      PrependTwice(result, expanded.value, rest);
      result := result + expanded.value;
    }
    assert deps[|deps|..] == [];
    assert result + [] == result;
    return Ok(result);
  }

  method LoadRefDeps(fs: FileSystem, path: string, depth: nat) returns (r: Result<seq<Dependency>, RefError>)
    requires depth <= MAX_REF_DEPTH
    ensures r == Load(fs, path, depth)
    decreases MAX_REF_DEPTH + 1 - depth, 0
  {
    if path !in fs {
      return Err(CannotRead(path));
    }
    match fs[path] {
      case Malformed => return Err(CannotParse(path));
      case DependencyFile(inner) =>
        if inner == [] {
          return Ok([]);
        }
        r := ResolveRefsDepth(fs, inner, depth + 1);
    }
  }

  // ------------------------------------------------- the full, unbounded view

  // How one entry unfolds: itself, or the entries of the file it points to.
  datatype Tree = Entry(dep: Dependency) | Inlined(path: string, inner: seq<Tree>)

  ghost predicate Unfolds(fs: FileSystem, dep: Dependency, t: Tree)
    decreases t, 0
  {
    match t
    case Entry(d) => d == dep && dep.source.ref == ""
    case Inlined(path, inner) =>
      && path == dep.source.ref != ""
      && path in fs && fs[path].DependencyFile?
      && AllUnfold(fs, fs[path].dependencies, inner)
  }

  ghost predicate AllUnfold(fs: FileSystem, deps: seq<Dependency>, trees: seq<Tree>)
    decreases trees, 1
  {
    if deps == [] || trees == [] then deps == [] && trees == []
    else Unfolds(fs, deps[0], trees[0]) && AllUnfold(fs, deps[1..], trees[1..])
  }

  ghost function Entries(t: Tree): seq<Dependency>
    decreases t, 0
  {
    match t
    case Entry(d) => [d]
    case Inlined(_, inner) => AllEntries(inner)
  }

  ghost function AllEntries(trees: seq<Tree>): seq<Dependency>
    decreases trees, 1
  {
    if trees == [] then [] else Entries(trees[0]) + AllEntries(trees[1..])
  }

  // Non-empty files nested in one another.
  ghost function Nesting(t: Tree): nat
    decreases t, 0
  {
    if t.Inlined? && t.inner != [] then 1 + Deepest(t.inner) else 0
  }

  ghost function Deepest(trees: seq<Tree>): nat
    decreases trees, 1
  {
    if trees == [] then 0
    else if Nesting(trees[0]) > Deepest(trees[1..]) then Nesting(trees[0]) else Deepest(trees[1..])
  }

  // On success the result is the order-preserving flattening of the whole
  // unfolding, which fits under the depth bound.
  lemma {:induction false} ResolvedIsFlattening(fs: FileSystem, deps: seq<Dependency>, depth: nat)
    returns (trees: seq<Tree>)
    requires depth <= MAX_REF_DEPTH && Resolve(fs, deps, depth).Ok?
    ensures AllUnfold(fs, deps, trees) && depth + Deepest(trees) <= MAX_REF_DEPTH
    ensures Resolve(fs, deps, depth).value == AllEntries(trees)
    decreases MAX_REF_DEPTH + 1 - depth, |deps|
  {
    if deps == [] {
      trees := [];
    } else {
      var rest := ResolvedIsFlattening(fs, deps[1..], depth);
      var path := deps[0].source.ref;
      var first: Tree;
      if path == "" {
        first := Entry(deps[0]);
      } else if fs[path].dependencies == [] {
        first := Inlined(path, []);
      } else {
        assert depth + 1 <= MAX_REF_DEPTH;
        var inner := ResolvedIsFlattening(fs, fs[path].dependencies, depth + 1);
        first := Inlined(path, inner);
        assert Load(fs, path, depth) == Resolve(fs, fs[path].dependencies, depth + 1);
      }
      trees := [first] + rest;
      assert trees[1..] == rest;
      assert path != "" ==> Load(fs, path, depth) == Ok(Entries(first));
      assert AllEntries(trees) == Entries(first) + AllEntries(rest);
    }
  }

  // Conversely any unfolding that fits under the bound is what comes out.
  lemma {:induction false} FlatteningIsResolved(fs: FileSystem, deps: seq<Dependency>, depth: nat, trees: seq<Tree>)
    requires AllUnfold(fs, deps, trees) && depth + Deepest(trees) <= MAX_REF_DEPTH
    ensures Resolve(fs, deps, depth) == Ok(AllEntries(trees))
    decreases trees
  {
    if deps != [] {
      FlatteningIsResolved(fs, deps[1..], depth, trees[1..]);
      var first := trees[0];
      if first.Inlined? && first.inner != [] {
        FlatteningIsResolved(fs, fs[first.path].dependencies, depth + 1, first.inner);
        assert Load(fs, first.path, depth) == Resolve(fs, fs[first.path].dependencies, depth + 1);
        assert Entries(first) == AllEntries(first.inner);
      } else if first.Inlined? {
        assert AllUnfold(fs, fs[first.path].dependencies, []);
        assert Entries(first) == AllEntries([]) == [];
      }
      assert first.Inlined? ==> Load(fs, first.path, depth) == Ok(Entries(first));
      assert AllEntries(trees) == Entries(first) + AllEntries(trees[1..]);
    }
  }

  // t is the file at path with all its refs inlined, however deep.
  ghost predicate Inlines(fs: FileSystem, path: string, t: Tree) {
    && t.Inlined? && t.path == path
    && path in fs && fs[path].DependencyFile?
    && AllUnfold(fs, fs[path].dependencies, t.inner)
  }

  // Loading a file yields its entries with every ref in them inlined, exactly
  // when that nests no deeper than the bound leaves room for.
  lemma LoadIsInlining(fs: FileSystem, path: string, depth: nat, value: seq<Dependency>)
    requires depth <= MAX_REF_DEPTH
    ensures Load(fs, path, depth) == Ok(value) <==>
      exists t :: Inlines(fs, path, t) && depth + Nesting(t) <= MAX_REF_DEPTH && Entries(t) == value
  {
    if Load(fs, path, depth) == Ok(value) {
      var inner := fs[path].dependencies;
      var trees := [];
      if inner != [] {
        trees := ResolvedIsFlattening(fs, inner, depth + 1);
      }
      assert Inlines(fs, path, Inlined(path, trees));
    }
    if t :| Inlines(fs, path, t) && depth + Nesting(t) <= MAX_REF_DEPTH && Entries(t) == value {
      if fs[path].dependencies != [] {
        FlatteningIsResolved(fs, fs[path].dependencies, depth + 1, t.inner);
      }
    }
  }

  // The two ways the file itself can fail; any other error comes from deeper.
  lemma LoadErrors(fs: FileSystem, path: string, depth: nat)
    requires depth <= MAX_REF_DEPTH
    ensures var r := Load(fs, path, depth);
      && (r.Err? && r.error.CannotRead? <==> path !in fs)
      && (r.Err? && r.error.CannotParse? <==> path in fs && fs[path].Malformed?)
      && (r.Err? && r.error.TooDeep? <==>
            depth == MAX_REF_DEPTH && path in fs && fs[path].DependencyFile? && fs[path].dependencies != [])
  {
    if path in fs && fs[path].DependencyFile? && fs[path].dependencies != [] {
      ResolveErrors(fs, fs[path].dependencies, depth + 1);
    }
  }

  lemma ResolveErrors(fs: FileSystem, deps: seq<Dependency>, depth: nat)
    requires depth <= MAX_REF_DEPTH + 1
    ensures var r := Resolve(fs, deps, depth);
      r.Err? ==> if depth == MAX_REF_DEPTH + 1 then r.error.TooDeep? else r.error.Loading?
  {
    if depth <= MAX_REF_DEPTH && deps != [] { ResolveErrors(fs, deps[1..], depth); }
  }

  // Entries are resolved in order, each on its own; the first failure is the
  // result, wrapped in the name and ref of the entry it comes from.
  lemma {:induction false} ResolveInOrder(fs: FileSystem, a: seq<Dependency>, b: seq<Dependency>, depth: nat)
    requires depth <= MAX_REF_DEPTH
    ensures Resolve(fs, a + b, depth) ==
      match (Resolve(fs, a, depth), Resolve(fs, b, depth))
      case (Ok(x), Ok(y)) => Ok(x + y)
      case (Ok(_), Err(e)) => Err(e)
      case (Err(e), _) => Err(e)
    decreases |a|
  {
    hide Load;
    if a == [] {
      assert a + b == b;
      PrependNothing(Resolve(fs, b, depth));
    } else {
      assert (a + b)[1..] == a[1..] + b;
      ResolveInOrder(fs, a[1..], b, depth);
      var head := if a[0].source.ref == "" then Ok([a[0]]) else Load(fs, a[0].source.ref, depth);
      if head.Ok? && Resolve(fs, a[1..], depth).Ok? && Resolve(fs, b, depth).Ok? {
        PrependTwice(head.value, Resolve(fs, a[1..], depth).value, Resolve(fs, b, depth));
      }
    }
  }

  lemma ResolveOne(fs: FileSystem, d: Dependency, depth: nat)
    requires depth <= MAX_REF_DEPTH
    ensures d.source.ref == "" ==> Resolve(fs, [d], depth) == Ok([d])
    ensures d.source.ref != "" && Load(fs, d.source.ref, depth).Ok? ==>
      Resolve(fs, [d], depth) == Load(fs, d.source.ref, depth)
    ensures d.source.ref != "" && Load(fs, d.source.ref, depth).Err? ==>
      Resolve(fs, [d], depth) == Err(Loading(d.name, d.source.ref, Load(fs, d.source.ref, depth).error))
  {
    hide Load;
    assert [d][1..] == [] && [d] + [] == [d];
    assert Resolve(fs, [], depth) == Ok([]);
    if d.source.ref != "" && Load(fs, d.source.ref, depth).Ok? {
      var inner := Load(fs, d.source.ref, depth).value;
      assert inner + [] == inner;
    }
  }

  // ResolveRefs succeeds exactly when the refs unfold completely within eight
  // nested files, and no ref entry survives.
  lemma ResolveRefsSucceedsIff(fs: FileSystem, deps: seq<Dependency>)
    ensures Resolve(fs, deps, 0).Ok? <==> exists trees :: AllUnfold(fs, deps, trees) && Deepest(trees) <= 8
  {
    if Resolve(fs, deps, 0).Ok? {
      var trees := ResolvedIsFlattening(fs, deps, 0);
    }
    if trees :| AllUnfold(fs, deps, trees) && Deepest(trees) <= MAX_REF_DEPTH {
      FlatteningIsResolved(fs, deps, 0, trees);
    }
  }

  lemma {:induction false} NoRefSurvives(fs: FileSystem, deps: seq<Dependency>, trees: seq<Tree>, d: Dependency)
    requires AllUnfold(fs, deps, trees) && d in AllEntries(trees)
    ensures d.source.ref == ""
    decreases trees
  {
    if d in Entries(trees[0]) {
      if trees[0].Inlined? {
        NoRefSurvives(fs, fs[trees[0].path].dependencies, trees[0].inner, d);
      }
    } else {
      NoRefSurvives(fs, deps[1..], trees[1..], d);
    }
  }

  // -------------------------------------------------------------- ref chains

  ghost predicate Loads(fs: FileSystem, dep: Dependency) {
    dep.source.ref != "" ==> dep.source.ref in fs && fs[dep.source.ref].DependencyFile?
  }

  ghost predicate EverythingLoads(fs: FileSystem, deps: seq<Dependency>) {
    && (forall d :: d in deps ==> Loads(fs, d))
    && (forall path, d :: path in fs && fs[path].DependencyFile? && d in fs[path].dependencies ==> Loads(fs, d))
  }

  // Each file of the chain is non-empty and is referred to from the one before
  // it, the first from deps itself.
  ghost predicate RefChain(fs: FileSystem, deps: seq<Dependency>, chain: seq<string>)
    decreases |chain|
  {
    chain == [] ||
    (&& chain[0] != ""
     && (exists d :: d in deps && d.source.ref == chain[0])
     && chain[0] in fs && fs[chain[0]].DependencyFile? && fs[chain[0]].dependencies != []
     && RefChain(fs, fs[chain[0]].dependencies, chain[1..]))
  }

  ghost predicate HasChain(fs: FileSystem, deps: seq<Dependency>, n: nat) {
    exists chain :: |chain| == n && RefChain(fs, deps, chain)
  }

  // When every file loads, the only failure is a chain of more than eight
  // non-empty files, a cycle included.
  lemma {:induction false} FailsIffDeepChain(fs: FileSystem, deps: seq<Dependency>, depth: nat)
    requires depth <= MAX_REF_DEPTH + 1 && EverythingLoads(fs, deps)
    ensures Resolve(fs, deps, depth).Err? <==> HasChain(fs, deps, MAX_REF_DEPTH + 1 - depth)
    decreases MAX_REF_DEPTH + 1 - depth, |deps|
  {
    var n := MAX_REF_DEPTH + 1 - depth;
    if depth > MAX_REF_DEPTH {
      assert RefChain(fs, deps, []);
    } else if deps == [] {
      assert !HasChain(fs, deps, n);
    } else {
      var path := deps[0].source.ref;
      assert Loads(fs, deps[0]);
      if path != "" {
        FailsIffDeepChain(fs, fs[path].dependencies, depth + 1);
      }
      FailsIffDeepChain(fs, deps[1..], depth);
      ChainSplits(fs, deps, n);
    }
  }

  // In particular ResolveRefs then fails exactly when nine non-empty files nest.
  lemma ResolveRefsFailsIff(fs: FileSystem, deps: seq<Dependency>)
    requires EverythingLoads(fs, deps)
    ensures Resolve(fs, deps, 0).Err? <==> exists chain :: |chain| == 9 && RefChain(fs, deps, chain)
  {
    FailsIffDeepChain(fs, deps, 0);
  }

  lemma ChainSplits(fs: FileSystem, deps: seq<Dependency>, n: nat)
    requires deps != [] && n > 0 && Loads(fs, deps[0])
    ensures HasChain(fs, deps, n) <==>
      || HasChain(fs, deps[1..], n)
      || var path := deps[0].source.ref;
        path != "" && fs[path].dependencies != [] && HasChain(fs, fs[path].dependencies, n - 1)
  {
    var path := deps[0].source.ref;
    if chain :| |chain| == n && RefChain(fs, deps, chain) {
      var d :| d in deps && d.source.ref == chain[0];
      if d in deps[1..] {
        assert RefChain(fs, deps[1..], chain);
      } else {
        assert d == deps[0];
        assert RefChain(fs, fs[path].dependencies, chain[1..]);
      }
    }
    if chain :| |chain| == n && RefChain(fs, deps[1..], chain) {
      assert RefChain(fs, deps, chain);
    }
    if path != "" && fs[path].dependencies != [] && HasChain(fs, fs[path].dependencies, n - 1) {
      var chain :| |chain| == n - 1 && RefChain(fs, fs[path].dependencies, chain);
      assert ([path] + chain)[1..] == chain;
      assert RefChain(fs, deps, [path] + chain);
    }
  }
}
