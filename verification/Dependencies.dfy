// The dependency record of a suite, as far as scheduling and ref expansion
// look at it.
module Dependencies {
  // `ref` is the only source field the modelled code inspects; the other
  // source fields travel as one opaque payload.
  datatype Source = Source(ref: string, other: string)

  datatype Dependency = Dependency(
    name: string,
    source: Source,
    exports: map<string, string>,
    dependsOn: seq<string>)

  function Names(deps: seq<Dependency>): set<string> {
    set d | d in deps :: d.name
  }

  ghost predicate DistinctNames(deps: seq<Dependency>) {
    forall i, j :: 0 <= i < j < |deps| ==> deps[i].name != deps[j].name
  }

  ghost predicate KnownNames(deps: seq<Dependency>) {
    forall d, ref :: d in deps && ref in d.dependsOn ==> ref in Names(deps)
  }

  // What the two conditions ask of a list, spelled out.
  lemma NamesAre(deps: seq<Dependency>)
    ensures forall n :: n in Names(deps) <==> exists d :: d in deps && d.name == n
    ensures KnownNames(deps) <==> forall d, ref :: d in deps && ref in d.dependsOn ==> ref in Names(deps)
    ensures DistinctNames(deps) <==> forall i, j :: 0 <= i < j < |deps| ==> deps[i].name != deps[j].name
  {
  }
}
