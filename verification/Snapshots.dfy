// internal/snapshot/snapshot.go: keys, file names and the load-compare-write
// cycle of the snapshot store.
module Snapshots {
  import opened Wrappers
  import opened Values
  import opened Paths
  import opened Separators
  import opened Normalizer
  import opened SnapshotNodes

  // A snapshot file that exists either parses or does not.
  datatype File = Corrupt | Saved(snapshots: map<string, Value>)

  type Disk = map<string, File>

  datatype Verdict = Pass | Mismatch | CannotLoad | CannotWrite

  // ------------------------------------------------------- keys and file names

  // fmt.Sprintf("%s/%s[%d]"); assertion indices are never negative.
  function Key(suite: string, test: string, index: nat): string {
    suite + "/" + test + "[" + Decimal(index) + "]"
  }

  function SuiteFromKey(key: string): string {
    var i := IndexOf(key, '/');
    if i.None? then key else key[..i.value]
  }

  function Safe(suite: string): string {
    if suite == "" then ""
    else [if suite[0] == '/' || suite[0] == ' ' || suite[0] == ':' then '_' else suite[0]] + Safe(suite[1..])
  }

  function SnapshotFile(dir: string, suite: string): string {
    dir + "/" + Safe(suite) + ".snap.yaml"
  }

  function FileOf(dir: string, key: string): string {
    SnapshotFile(dir, SuiteFromKey(key))
  }

  lemma DecimalIsInjective(i: nat, j: nat)
    requires Decimal(i) == Decimal(j)
    ensures i == j
  {
    NumberOfDecimal(i);
    NumberOfDecimal(j);
  }

  // Two keys coincide exactly when the indices and the joined names do.
  lemma KeysCoincideIff(s1: string, t1: string, i1: nat, s2: string, t2: string, i2: nat)
    ensures Key(s1, t1, i1) == Key(s2, t2, i2) <==> i1 == i2 && s1 + "/" + t1 == s2 + "/" + t2
  {
    var a, b := s1 + "/" + t1, s2 + "/" + t2;
    var x, y := Decimal(i1) + "]", Decimal(i2) + "]";
    assert Key(s1, t1, i1) == a + ['['] + x && Key(s2, t2, i2) == b + ['['] + y;
    if Key(s1, t1, i1) == Key(s2, t2, i2) {
      LastMark(a, x, b, y, '[');
      assert Decimal(i1) == x[..|x| - 1] && Decimal(i2) == y[..|y| - 1];
      DecimalIsInjective(i1, i2);
    }
  }

  // Key is injective over suite names without a slash.
  lemma KeyIsInjective(s1: string, t1: string, i1: nat, s2: string, t2: string, i2: nat)
    requires '/' !in s1 && '/' !in s2 && Key(s1, t1, i1) == Key(s2, t2, i2)
    ensures s1 == s2 && t1 == t2 && i1 == i2
  {
    KeysCoincideIff(s1, t1, i1, s2, t2, i2);
    FirstMark(s1, t1, s2, t2, '/');
  }

  ghost predicate CanCollide(s1: string, s2: string) {
    exists t1, i1, t2, i2 :: Key(s1, t1, i1) == Key(s2, t2, i2)
  }

  // Two suites can produce a common key exactly when one name continues the
  // other past a slash.
  lemma SuitesCollideIff(s1: string, s2: string)
    requires s1 != s2
    ensures CanCollide(s1, s2) <==> s1 + "/" <= s2 || s2 + "/" <= s1
  {
    if CanCollide(s1, s2) {
      var t1, i1, t2, i2 :| Key(s1, t1, i1) == Key(s2, t2, i2);
      KeysCoincideIff(s1, t1, i1, s2, t2, i2);
      JoinedSameLength(s1, t1, s2, t2);
      if |s1| < |s2| {
        JoinedPrefix(s1, t1, s2, t2);
      } else {
        JoinedPrefix(s2, t2, s1, t1);
      }
    }
    if s1 + "/" <= s2 {
      JoinedWitness(s1, s2);
    }
    if s2 + "/" <= s1 {
      JoinedWitness(s2, s1);
      var t2 := s1[|s2| + 1..] + "/";
      assert Key(s1, "", 0) == Key(s2, t2, 0);
    }
  }

  lemma JoinedSameLength(s1: string, t1: string, s2: string, t2: string)
    requires s1 + "/" + t1 == s2 + "/" + t2
    ensures |s1| == |s2| ==> s1 == s2
  {
    assert s1 == (s1 + "/" + t1)[..|s1|] && s2 == (s2 + "/" + t2)[..|s2|];
  }

  lemma JoinedPrefix(s1: string, t1: string, s2: string, t2: string)
    requires s1 + "/" + t1 == s2 + "/" + t2 && |s1| < |s2|
    ensures s1 + "/" <= s2
  {
    var joined := s1 + "/" + t1;
    assert joined[..|s1| + 1] == s1 + "/";
    assert joined[..|s2|] == s2;
  }

  lemma JoinedWitness(s1: string, s2: string)
    requires s1 + "/" <= s2
    ensures Key(s1, s2[|s1| + 1..] + "/", 0) == Key(s2, "", 0)
  {
    var t1 := s2[|s1| + 1..] + "/";
    assert s2 == s1 + "/" + s2[|s1| + 1..];
    assert s1 + "/" + t1 == s2 + "/" + "";
    KeysCoincideIff(s1, t1, 0, s2, "", 0);
  }

  // --------------------------------------------------------------- one match

  ghost predicate Injective(emit: Node -> string) {
    forall a, b :: emit(a) == emit(b) ==> a == b
  }

  function Load(disk: Disk, file: string): Option<map<string, Value>> {
    if file !in disk then Some(map[])
    else match disk[file]
      case Corrupt => None
      case Saved(snapshots) => Some(snapshots)
  }

  // What is stored under a key, wherever its file is.
  function Stored(disk: Disk, dir: string, key: string): Option<Value> {
    var loaded := Load(disk, FileOf(dir, key));
    if loaded.Some? && key in loaded.value then Some(loaded.value[key]) else None
  }

  // One call: its arguments, the store's mode, and whether the file system
  // lets the snapshot file be written.
  datatype Call = Call(key: string, value: Value, update: bool, writable: bool)

  // The call gets to replace what is stored.
  predicate Writes(disk: Disk, dir: string, call: Call) {
    && Load(disk, FileOf(dir, call.key)).Some?
    && (Stored(disk, dir, call.key).None? || call.update)
    && call.writable
  }

  class Store {
    const dir: string
    const emit: Node -> string
    var update: bool
    var disk: Disk

    constructor (dir: string, emit: Node -> string, update: bool, disk: Disk)
      requires Injective(emit)
      ensures this.dir == dir && this.emit == emit && this.update == update && this.disk == disk
    {
      this.dir, this.emit, this.update, this.disk := dir, emit, update, disk;
    }

    // Match: load, normalise, then write (first sight, or update mode) or
    // compare.
    method Match(key: string, value: Value, writable: bool) returns (verdict: Verdict)
      requires Injective(emit)
      modifies this`disk
      ensures disk == AfterCall(old(disk), dir, Call(key, value, update, writable))
      ensures verdict == VerdictOf(old(disk), dir, Call(key, value, update, writable))
    {
      var file := FileOf(dir, key);
      if file in disk && disk[file].Corrupt? {
        return CannotLoad;
      }
      var snapshots: map<string, Value> := if file in disk then disk[file].snapshots else map[];
      var normalized := NormalizeValue(value);
      if key !in snapshots || update {
        if !writable {
          return CannotWrite;
        }
        snapshots := snapshots[key := normalized];
        disk := disk[file := Saved(snapshots)];
        return Pass;
      }
      var got := ToYAMLNode(normalized);
      var want := ToYAMLNode(snapshots[key]);
      NodesDecideEquality(normalized, snapshots[key]);
      if emit(got) == emit(want) {
        return Pass;
      }
      return Mismatch;
    }
  }

  function AfterCall(disk: Disk, dir: string, call: Call): Disk {
    if Writes(disk, dir, call) then
      var file := FileOf(dir, call.key);
      disk[file := Saved(Load(disk, file).value[call.key := Normalize(call.value)])]
    else disk
  }

  // A comparison passes exactly on equal normalised values.
  function VerdictOf(disk: Disk, dir: string, call: Call): Verdict {
    if Load(disk, FileOf(dir, call.key)).None? then CannotLoad
    else if Writes(disk, dir, call) then Pass
    else
      var stored := Stored(disk, dir, call.key);
      if stored.None? || call.update then CannotWrite
      else if Normalize(call.value) == stored.value then Pass
      else Mismatch
  }

  // What one call does, file system failures first: an unreadable file is left
  // alone; a key that is new, or any key in update mode, is written normalised
  // among the file's other keys, if the file can be written; any other call
  // writes nothing and passes exactly on what is stored.
  lemma CallOutcome(disk: Disk, dir: string, call: Call)
    ensures var file := FileOf(dir, call.key);
      var after, verdict := AfterCall(disk, dir, call), VerdictOf(disk, dir, call);
      var known := if file in disk && disk[file].Saved? then disk[file].snapshots else map[];
      if file in disk && disk[file].Corrupt? then after == disk && verdict == CannotLoad
      else if call.update || call.key !in known then
        if call.writable then after == disk[file := Saved(known[call.key := Normalize(call.value)])] && verdict == Pass
        else after == disk && verdict == CannotWrite
      else
        after == disk && verdict == if known[call.key] == Normalize(call.value) then Pass else Mismatch
  {
  }

  // The same in terms of what is stored.
  lemma CallRecordsOrCompares(disk: Disk, dir: string, call: Call)
    requires Load(disk, FileOf(dir, call.key)).Some?
    ensures var after, verdict := AfterCall(disk, dir, call), VerdictOf(disk, dir, call);
      var stored := Stored(disk, dir, call.key);
      if call.update || stored.None? then
        if call.writable then Stored(after, dir, call.key) == Some(Normalize(call.value)) && verdict == Pass
        else after == disk && verdict == CannotWrite
      else after == disk && (verdict == Pass <==> stored == Some(Normalize(call.value)))
  {
  }

  // A key of a suite without a slash lives in the file named after the suite,
  // with slashes, blanks and colons replaced.
  lemma KeysLiveInSuiteFile(dir: string, suite: string, test: string, index: nat)
    requires '/' !in suite
    ensures FileOf(dir, Key(suite, test, index)) == dir + "/" + Safe(suite) + ".snap.yaml"
  {
    var rest := "/" + test + "[" + Decimal(index) + "]";
    assert Key(suite, test, index) == suite + rest && (suite + rest)[..|suite|] == suite;
    FirstSlash(suite, rest);
  }

  lemma FirstSlash(suite: string, rest: string)
    requires '/' !in suite && rest != "" && rest[0] == '/'
    ensures IndexOf(suite + rest, '/') == Some(|suite|)
  {
    if suite == "" {
      assert suite + rest == rest;
    } else {
      assert suite[0] in suite && (suite + rest)[1..] == suite[1..] + rest;
      FirstSlash(suite[1..], rest);
    }
  }

  // Where the suite has slashes, the part before the first names the file.
  lemma SlashedSuiteFile(dir: string, head: string, tail: string, test: string, index: nat)
    requires '/' !in head
    ensures FileOf(dir, Key(head + "/" + tail, test, index)) == dir + "/" + Safe(head) + ".snap.yaml"
  {
    var rest := "/" + tail + "/" + test + "[" + Decimal(index) + "]";
    assert Key(head + "/" + tail, test, index) == head + rest && (head + rest)[..|head|] == head;
    FirstSlash(head, rest);
  }

  lemma {:induction false} SafeReplaces(suite: string, i: nat)
    requires i < |suite|
    ensures |Safe(suite)| == |suite|
    ensures Safe(suite)[i] == if suite[i] in "/ :" then '_' else suite[i]
  {
    SafeLength(suite);
    if i > 0 { SafeReplaces(suite[1..], i - 1); }
  }

  lemma SafeLength(suite: string)
    ensures |Safe(suite)| == |suite|
  {
  }

  // ---------------------------------------------------------- runs of matches

  function AfterCalls(disk: Disk, dir: string, calls: seq<Call>): Disk {
    if calls == [] then disk
    else AfterCall(AfterCalls(disk, dir, calls[..|calls| - 1]), dir, calls[|calls| - 1])
  }

  // A call touches its own key and nothing else, even in its own file.
  lemma CallStores(disk: Disk, dir: string, call: Call, key: string)
    ensures Stored(AfterCall(disk, dir, call), dir, key) ==
      if Writes(disk, dir, call) && key == call.key then Some(Normalize(call.value)) else Stored(disk, dir, key)
    ensures Load(AfterCall(disk, dir, call), FileOf(dir, key)).Some? <==> Load(disk, FileOf(dir, key)).Some?
  {
  }

  // The i-th call of a run is the last one that wrote key.
  ghost predicate LastWrite(disk: Disk, dir: string, calls: seq<Call>, key: string, i: nat) {
    && i < |calls| && calls[i].key == key
    && Writes(AfterCalls(disk, dir, calls[..i]), dir, calls[i])
    && forall j :: i < j < |calls| && calls[j].key == key ==> !Writes(AfterCalls(disk, dir, calls[..j]), dir, calls[j])
  }

  ghost predicate NeverWritten(disk: Disk, dir: string, calls: seq<Call>, key: string) {
    forall j :: 0 <= j < |calls| && calls[j].key == key ==> !Writes(AfterCalls(disk, dir, calls[..j]), dir, calls[j])
  }

  lemma LastWriteInFront(disk: Disk, dir: string, calls: seq<Call>, key: string, i: nat)
    requires calls != [] && LastWrite(disk, dir, calls, key, i) && i < |calls| - 1
    ensures LastWrite(disk, dir, calls[..|calls| - 1], key, i)
    ensures calls[|calls| - 1].key == key ==>
      !Writes(AfterCalls(disk, dir, calls[..|calls| - 1]), dir, calls[|calls| - 1])
  {
    hide Writes, AfterCalls;
    var front := calls[..|calls| - 1];
    forall j | 0 <= j < |front| ensures front[..j] == calls[..j] {}
  }

  // After any run, a key holds the normalised value of its last writing call...
  lemma {:induction false} RunStoresLastWrite(disk: Disk, dir: string, calls: seq<Call>, key: string, i: nat)
    requires LastWrite(disk, dir, calls, key, i)
    ensures Stored(AfterCalls(disk, dir, calls), dir, key) == Some(Normalize(calls[i].value))
    decreases |calls|
  {
    hide Writes, Stored, AfterCall;
    var front, n := calls[..|calls| - 1], |calls| - 1;
    CallStores(AfterCalls(disk, dir, front), dir, calls[n], key);
    if i < n {
      LastWriteInFront(disk, dir, calls, key, i);
      RunStoresLastWrite(disk, dir, front, key, i);
    }
  }

  // ...or what it held before, when no call wrote it.
  lemma {:induction false} RunKeepsUnwritten(disk: Disk, dir: string, calls: seq<Call>, key: string)
    requires NeverWritten(disk, dir, calls, key)
    ensures Stored(AfterCalls(disk, dir, calls), dir, key) == Stored(disk, dir, key)
    decreases |calls|
  {
    if calls != [] {
      hide Writes, Stored, AfterCall;
      var front, n := calls[..|calls| - 1], |calls| - 1;
      forall j | 0 <= j < n ensures front[..j] == calls[..j] {}
      RunKeepsUnwritten(disk, dir, front, key);
      CallStores(AfterCalls(disk, dir, front), dir, calls[n], key);
    }
  }

  // Recording v and then matching w without update mode passes exactly when
  // they normalise alike.
  lemma RecordThenMatch(disk: Disk, dir: string, key: string, v: Value, w: Value)
    requires Writes(disk, dir, Call(key, v, true, true))
    ensures var after := AfterCall(disk, dir, Call(key, v, true, true));
      && (VerdictOf(after, dir, Call(key, w, false, true)) == Pass <==> Normalize(v) == Normalize(w))
      && AfterCall(after, dir, Call(key, w, false, true)) == after
  {
    CallStores(disk, dir, Call(key, v, true, true), key);
  }

  // Suites whose names sanitise to one file keep separate snapshots in it.
  lemma SharedFileKeepsSuitesApart(disk: Disk, dir: string, call: Call,
                                   s1: string, t1: string, i1: nat, s2: string, t2: string, i2: nat)
    requires '/' !in s1 && '/' !in s2 && s1 != s2
    requires call.key == Key(s1, t1, i1)
    ensures Stored(AfterCall(disk, dir, call), dir, Key(s2, t2, i2)) == Stored(disk, dir, Key(s2, t2, i2))
  {
    if Key(s1, t1, i1) == Key(s2, t2, i2) { KeyIsInjective(s1, t1, i1, s2, t2, i2); }
    CallStores(disk, dir, call, Key(s2, t2, i2));
  }
}
