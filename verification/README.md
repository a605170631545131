# Vigie verification

Vigie tests Helm charts: it renders a chart, installs what a test depends on,
runs matchers over the result and reports. This project models the parts of it
that are algorithms rather than plumbing, and proves what they promise.

- **Dependencies** (`Dependencies`, `DependencyGraph`, `Dag`, `BatchOrder`,
  `Refs`, `Installer`). Flattening `ref:` files, Kahn's algorithm, longest-chain
  batches, concurrent installation behind a semaphore, reverse teardown.
- **Test files in parallel** (`WorkerPool`). The worker pool and the fail-fast
  closure as one machine whose goroutines interleave in any order.
- **Paths** (`Paths`, `PathLaws`, `PathIntegers`, `JsonPaths`). Two path
  languages, the algebra of the first and where the second agrees with it.
- **Matrix** (`Matrix`). Cartesian product, excludes and includes.
- **Removed APIs** (`RemovedApis`). Splitting a rule without changing its
  meaning.
- **Snapshots** (`Normalizer`, `SnapshotNodes`, `Snapshots`). What a snapshot
  ignores, when two snapshots are the same text, what a run of matches stores.
- **Tiers** (`Capabilities`, `TierGate`). Three separately written walks over
  assertion trees that decide where a test may run.
- **Apply tier** (`Lifecycle`, `Namespaces`). Releases on every way out of a
  test file, and namespace names.

`Values`, `Wrappers`, `Sets` and `Separators` hold shared data types and facts.

Conventions. Code that ranges over a Go map picks its next key with `:|`, so
every result holds for every iteration order. A concurrent component is a state
machine: `Enabled` and `Next` describe one step of one goroutine, `After` the
state a schedule leads to, and a lemma about `After` holds for all schedules.
The methods that run goroutines build such a schedule while updating the shared
slices, and may build any. Where Go returns an error the model returns a
`Result`, an `Option` or an error datatype. A loop in Go is a loop here, proved
against a specification function whose own properties the lemmas state. What a
user can see of a component (names, bounds, messages, orders, table contents) is
also stated with its literal values, apart from the definitions the code is
modelled with, so that changing such a definition breaks a lemma.

Some promises fail for some inputs, and then the exact limit is proved:

- splitting a removed-API rule keeps its findings if and only if no API is listed
  with two removal versions (`SplitKeepsFindingsIff`);
- raising the target version of a removed-API rule never loses a finding if and
  only if the rule belongs to a project or no entry is overtaken: listed before an
  entry of the same API that is removed later and that no entry after it hides
  (`NewerTargetKeepsFindingsIff`); the document stays flagged in any case
  (`NewerTargetFlagsMore`);
- `p + "." + q` parses if and only if both halves do, or `p` ends inside a quoted
  key that `q` closes (`JoinParsesIff`); in the first case its segments are those
  of `p` and of `q`, in the second the key runs on across the dot
  (`ClosingHalvesJoin`), even where neither half parses
  (`MalformedHalvesCanJoin`);
- what a JSONPath finds, `Get` finds on the same plain path if and only if the
  walk uses no index on a map and no key on a list (`JsonPathFindsNoMore`);
- two suites can share a snapshot key if and only if one name continues the other
  past a slash (`SuitesCollideIff`), and two split rules share an ID if and only
  if version, dash and kind spell the same (`SplitIdsCoincideIff`).

## Model

| member | source | states |
|---|---|---|
| Dag.ValidateNames | internal/deps/dag.go:33-46 | No error exactly when every `dependsOn` name is declared; otherwise the error names the first undeclared reference in declaration order |
| Dag.FirstUnknownIs | internal/deps/dag.go:38-46 | That reference names no dependency, while every earlier one, dependency by dependency and entry by entry, names one |
| Dependencies.NamesAre | internal/deps/dag.go:33-46 | Names are the names listed; known and distinct mean that every `dependsOn` entry is among them and no two dependencies share one |
| Dag.Roots | internal/deps/dag.go:67-73 | For any map order, the initial queue lists each name without prerequisites once and no other |
| Dag.Release | internal/deps/dag.go:81-86 | Releasing a name lowers each dependent by its number of edges, repeated edges included, and queues each name exactly once, when its count runs out |
| Dag.TopoSort | internal/deps/dag.go:50-93 | Succeeds exactly when names are distinct and the graph is acyclic, for any queue order; the result is a permutation in which prerequisites come first; the error lists what no run of the queue releases, which among distinct names is exactly what can reach a cycle |
| Dag.LeftoversReachCycles | internal/deps/dag.go:89-109 | What Kahn's algorithm cannot install is what can reach a cycle, in declaration order |
| Dag.SettledIsUnique | internal/deps/dag.go:67-88 | Whatever order the queue takes, the same names are consumed in the end, repeated names included |
| Dag.RepeatedNameIsNotListed | internal/deps/dag.go:89-109 | Two dependencies of one name without edges fail with a cycle error that names nothing |
| Dag.BuildCycleError | internal/deps/dag.go:97-109 | The error lists, in declaration order, the names that were not installed |
| Dag.AssignLevels | internal/deps/dag.go:115-130 | Each level is the length of the longest prerequisite chain, and no level up to the highest is left out |
| Dag.BuildLevelBatches | internal/deps/dag.go:115-138 | The batches partition the input, none is empty, and each dependency sits in the batch numbered by its longest prerequisite chain |
| Dag.BuildBatches | internal/deps/dag.go:18-30 | Succeeds exactly on known, distinct names and an acyclic graph; then the batches are that levelling; otherwise the error is the first unknown reference or the names that reach a cycle |
| Dag.ReportMeans | internal/deps/dag.go:18-30 | The error is the first unknown reference if there is one; otherwise a cycle error listing what the queue never releases, among distinct names the names that reach a cycle |
| DependencyGraph.AcyclicIffNoneReaches | internal/deps/dag.go:89-109 | A graph has no closed walk exactly when no name reaches a cycle, so a cycle report is never empty for a cyclic graph |
| DependencyGraph.SelfReferenceIsCycle | internal/deps/dag.go:61-65 | A dependency that lists itself is a cycle |
| DependencyGraph.CyclicNamesAre | internal/deps/dag.go:97-109 | The cycle report goes through the declarations one by one, in order |
| DependencyGraph.OneCyclicName | internal/deps/dag.go:97-109 | A name is listed exactly when some walk along `dependsOn` from it comes back to a name it has been at |
| BatchOrder.BatchesAreInstallOrder | internal/deps/dag.go:115-138 | In the batches every prerequisite is in a strictly earlier batch |
| BatchOrder.BatchesAreMinimal | internal/deps/dag.go:115-138 | No valid install order has fewer rounds, and none installs a dependency in an earlier round than its batch |
| BatchOrder.BatchesAreUnique | internal/deps/dag.go:67-93 | Any two levellings have the same batches as multisets, so the map order that seeds the queue does not show |
| Refs.ResolveRefs | internal/deps/source_ref.go:23-25 | Terminates on every file graph, cyclic ones included, with the value that the lemmas below characterise |
| Refs.ResolveRefsDepth | internal/deps/source_ref.go:29-47 | The same at any depth, errors from the first failing entry |
| Refs.LoadIsInlining | internal/deps/source_ref.go:51-67 | Loading a file returns a list exactly when that list is the file with every ref in it inlined, in order, and the nesting fits into what is left of the bound |
| Refs.LoadErrors | internal/deps/source_ref.go:51-67 | The file's own error is a missing file, a malformed one, or a non-empty file at the last depth, each exactly then; any other error comes from a ref inside |
| Refs.ResolvedIsFlattening | internal/deps/source_ref.go:29-67 | A successful result is the order-preserving flattening of the complete unfolding, which fits under the depth bound |
| Refs.FlatteningIsResolved | internal/deps/source_ref.go:29-67 | Any complete unfolding that fits under the bound is what the function returns |
| Refs.ResolveRefsSucceedsIff | internal/deps/source_ref.go:23-67 | It succeeds exactly when the refs unfold completely with at most eight non-empty files nested |
| Refs.NoRefSurvives | internal/deps/source_ref.go:35-46 | No entry of a flattening still has a ref source |
| Refs.FailsIffDeepChain | internal/deps/source_ref.go:29-67 | When every file loads, resolution fails exactly when some chain of refs runs through more than eight non-empty files |
| Refs.ResolveRefsFailsIff | internal/deps/source_ref.go:23-67 | So `ResolveRefs` fails exactly when nine non-empty files nest |
| Refs.ResolveInOrder | internal/deps/source_ref.go:34-46 | Entries are resolved in order, each on its own, and the first failure is the result |
| Refs.ResolveOne | internal/deps/source_ref.go:35-45 | An entry without a ref stays as it is; one with a ref becomes the file's list, or the file's error under the entry's name and ref |
| Installer.Install | internal/deps/engine.go:45-102 | Reports ref errors, then graph errors; otherwise some schedule over the levelling ran to its end, with the first error of the failed batch or with every resolved dependency installed once |
| Installer.OutcomeIs | internal/deps/engine.go:77-102 | An error is the lowest-index error of the batch the run stopped in, all of whose goroutines have left; success returns the batches in order, every dependency once, and their exports; it is a success exactly when no install ended in an error |
| Installer.SucceedsIffNoError | internal/deps/engine.go:77-102 | Every finished schedule succeeds exactly when no install in it ended in an error |
| Installer.InstallBatches | internal/deps/engine.go:77-102 | Batch after batch until one fails; the installed list and the exports are those of the finished batches |
| Installer.InstallBatch | internal/deps/engine.go:132-148 | The goroutines of one batch all leave, each error sits at its dependency's index, earlier batches are untouched |
| Installer.SlotsRespected | internal/deps/engine.go:132-148 | On every schedule at most `parallelism` installs are in flight |
| Installer.RoomDecides | internal/deps/engine.go:132-148 | On every schedule a queued dependency of the current batch may start exactly while fewer than `parallelism` slots are taken, and never more are |
| Installer.HistoryOfDependency | internal/deps/engine.go:77-148 | On every schedule a dependency is started at most once and ended at most once, after its batch began; in a finished batch it started, succeeded and left |
| Installer.PrerequisitesFirst | internal/deps/engine.go:77-148 | On every schedule, when a dependency starts, everything it transitively depends on has already ended successfully |
| Installer.FailureStopsLaterBatches | internal/deps/engine.go:77-102 | On every schedule, once an install has ended in an error no later batch starts |
| Installer.InstalledSoFar | internal/deps/engine.go:77-102 | At every moment the installed list is the finished batches in order; a failed run let its whole last batch finish and reports its lowest-index error |
| Installer.SchedulesAreBounded | internal/deps/engine.go:77-148 | Every schedule ends: its length and the work left never exceed a fixed bound |
| Installer.NoDeadlock | internal/deps/engine.go:77-148 | While the run is not over some goroutine can move |
| Installer.CollectExports | internal/deps/engine.go:227-231 | For any map order, a dependency's exports are written under its name and nothing else changes |
| Installer.ExportsAreVerbatim | internal/deps/engine.go:224-231 | With distinct names each dependency's exports are exactly its own entries, and only exporting dependencies appear |
| Installer.ReverseDeps | internal/deps/engine.go:234-240 | Element i of the copy is element n-1-i of the original |
| Installer.Teardown | internal/deps/engine.go:105-128 | Visits exactly the installed list, reversed, whatever individual teardowns return, and joins all their errors in order |
| Installer.FailuresAre | internal/deps/engine.go:112-128 | The joined errors follow the order of the teardowns |
| Installer.OneFailure | internal/deps/engine.go:112-128 | A failed teardown contributes its error, any other nothing |
| Installer.NoFailures | internal/deps/engine.go:112-128 | Teardown reports nothing exactly when every single teardown went well |
| Installer.DependentsFirst | internal/deps/engine.go:105-128 | Teardown visits each dependent before everything it transitively depends on |
| WorkerPool.RunParallel | internal/runner/parallel.go:15-42 | Some schedule in which every goroutine left leads to the returned slice, one entry per file; the error is nil exactly when all are, and otherwise the one with the lowest index |
| WorkerPool.Move | internal/runner/runner.go:134-149 | Each action of a goroutine on the shared slices is one enabled step of the machine, cancel check and fail-fast signal included |
| WorkerPool.SlotsRespected | internal/runner/parallel.go:15-33 | On every schedule at most max(1, parallelism) goroutines are inside the semaphore |
| WorkerPool.RoomDecides | internal/runner/parallel.go:16-33 | On every schedule a queued goroutine may take a slot exactly while fewer than max(1, parallelism) are inside |
| WorkerPool.HistoryOfWorker | internal/runner/parallel.go:25-35 | On every schedule a goroutine's steps are the ones its phase implies, in order, so the work is called once per item |
| WorkerPool.WorkedOnce | internal/runner/parallel.go:25-35 | On no schedule is a file worked on twice |
| WorkerPool.EveryFileAccounted | internal/runner/parallel.go:15-42 | At the end each file was worked on once, its result and error sit at its own index, and an unopened file left an empty result under its own name |
| WorkerPool.CancelledExactlyOnFailure | internal/runner/runner.go:134-149 | On every schedule the run is cancelled exactly when fail-fast is on and some goroutine came back from a file that ran without an error and failed a test |
| WorkerPool.CheckDecides | internal/runner/runner.go:135-140 | A goroutine that looks leaves its file alone, under an empty result of the file's name, exactly when the run is cancelled |
| WorkerPool.UnrunMeansFailed | internal/runner/runner.go:126-149 | Whenever a file was left unrun, fail-fast was on and the returned results contain a failed test |
| WorkerPool.FailuresFitSlots | internal/runner/runner.go:126-149 | Under fail-fast at most max(1, parallelism) files fail |
| WorkerPool.SchedulesAreBounded | internal/runner/parallel.go:15-42 | Every schedule takes at most six steps per file |
| WorkerPool.NoDeadlock | internal/runner/parallel.go:15-42 | Until every goroutine is gone, one can move |
| WorkerPool.SuiteHasFailure | internal/runner/runner.go:702-709 | True exactly when some test neither passed nor was skipped |
| WorkerPool.AnyFailed | internal/runner/runner.go:691-699 | True exactly when some suite has such a test |
| Paths.Parse | internal/path/path.go:60-115 | The scanning loop computes the recursive reading of the expression, on every string |
| Paths.ParseBracket | internal/path/path.go:75-107 | One bracket consumes at least one character and yields one segment, or the error its contents call for |
| Paths.Get | internal/path/path.go:13-49 | Value found, not found or parse error, as walking the parsed segments gives it |
| PathLaws.RoundTrip | internal/path/path.go:60-115 | Rendering any list of expressible segments and parsing it gives the list back: bare keys, indices, empty and dotted keys in quotes |
| PathLaws.DenotableIffExpressible | internal/path/path.go:60-115 | A segment list is denoted by some expression exactly when each key is bare or lacks one kind of quote, and each index fits an `int` |
| PathLaws.ScanContinues | internal/path/path.go:70-115 | After an expression that parses, a dot or bracket starts afresh: segments before, then whatever the rest parses to, errors included |
| PathLaws.ScanConcat | internal/path/path.go:60-115 | If `p` parses, `p + "." + q` parses to its segments followed by those of `q`, or fails as `q` does |
| PathLaws.LookupConcat | internal/path/path.go:13-49 | `Get` of `p + "." + q` is `Get` of `q` on what `Get` of `p` found; not found stays not found |
| PathLaws.LookupSteps | internal/path/path.go:19-48 | One more segment finds the entry of a map that has the key, or the item of a list that is long enough, and nothing in any other case, for every canonical path |
| PathLaws.EmptyPathFindsDocument | internal/path/path.go:14-16 | The empty path and `.` find the document itself |
| PathLaws.LookupByCanonicalPath | internal/path/path.go:13-49 | Every path that parses finds what the canonical path of its segments finds |
| PathLaws.NestedIsFound | internal/path/path.go:13-49 | What is nested under any expressible segments is found by their canonical path, quoted keys included |
| PathLaws.JoinParsesIff | internal/path/path.go:60-115 | For all `p` and `q`, `p + "." + q` parses exactly when both do, or when `p` ends inside a quoted key, after a path that parses, and `q` closes that key before another path that parses |
| PathLaws.ClosingHalvesJoin | internal/path/path.go:80-92 | In the second case `p` alone fails with an open quote, and the joined path has the key that runs across the dot |
| PathLaws.OnlyOpenQuotesRevive | internal/path/path.go:70-112 | A path that fails in any other way still fails whatever follows it after a dot |
| PathLaws.MalformedHalvesCanJoin | internal/path/path.go:80-107 | An open quote followed by a non-integer index: neither half parses, the joined path does |
| PathLaws.MalformedBrackets | internal/path/path.go:75-107 | After any path that parses: an unclosed bracket, a non-integer and a negative index each give their own error |
| PathLaws.MalformedQuotes | internal/path/path.go:75-96 | After any path that parses: a quote that is not closed, or not followed by `]`, gives its own error |
| PathIntegers.IntegersAre | internal/path/path.go:99-105 | The text of an integer is an optional sign, zeros and a decimal numeral within 64 bits, and nothing else |
| PathIntegers.PaddedIndexParses | internal/path/path.go:93-107 | An index may carry leading zeros and white space around it |
| JsonPaths.SplitSegment | internal/matchers/http.go:816-844 | Every split leaves strictly less to read, so the traversal terminates on every string |
| JsonPaths.SplitCases | internal/matchers/http.go:828-844 | A key without dot and bracket is split off at the dot, which goes, or before the bracket, which stays |
| JsonPaths.SplitBracketCases | internal/matchers/http.go:818-826 | A bracket is split off with a dot that follows it; an unclosed one is all one segment |
| JsonPaths.ExpressionStarts | internal/matchers/http.go:766-778 | An expression is rejected exactly when it is not `$` and does not start with `$.`; `$` and `$.` find the document |
| JsonPaths.EvaluatorTakesSegment | internal/matchers/http.go:782-812 | On any path: a map is looked up by the segment, a list by the number it reads as, and elsewhere an empty segment finds the value and any other is missing; each failure has its own answer |
| JsonPaths.PlainIs | internal/matchers/http.go:814-844 | Plain paths, spelled out: non-empty keys without dot and bracket, and indices that fit an `int` |
| JsonPaths.IndexPrefixParses | internal/matchers/http.go:846-850 | A list index is read from blanks, a sign and digits; what follows is ignored |
| JsonPaths.EvaluatorWalksLoosely | internal/matchers/http.go:766-812 | On a plain path the evaluator looks each segment's text up, as a key on maps and as an index on lists |
| JsonPaths.EvaluatorSteps | internal/matchers/http.go:782-812 | What one more segment of a plain path finds, missing, non-index and out-of-bounds answers included |
| JsonPaths.LanguagesAgree | internal/matchers/http.go:782-850 | On one plain path both languages find the same value, and either finds one if the other does, unless the walk uses an index on a map or a key on a list |
| JsonPaths.JsonPathExtendsPath | internal/matchers/http.go:766-850 | If `Get` finds a value under a plain path, the JSONPath `$.` plus that path finds the same value |
| JsonPaths.JsonPathFindsNoMore | internal/matchers/http.go:766-850 | What the JSONPath finds under a plain path, `Get` finds exactly when the walk does not cross kinds |
| JsonPaths.CrossingCanDiffer | internal/matchers/http.go:791-803 | `$.0` finds a list's first element, `0` does not: the condition is needed |
| Matrix.Expand | internal/matrix/matrix.go:17-82 | Malformed rules and dimensions are errors; otherwise every non-excluded assignment appears as often as indices choose it, followed by exactly the novel includes, and every include is contained in some entry |
| Matrix.ExpansionMeans | internal/matrix/matrix.go:48-81 | The base comes first; a combination is in it exactly when there are dimensions, it gives each of them one of its values and nothing else, and no exclude rule is contained in it |
| Matrix.NovelOnesGrow | internal/matrix/matrix.go:62-79 | Include by include: it is appended exactly when no base entry and no earlier include has all of its entries |
| Matrix.DimensionsAre | internal/matrix/matrix.go:20-46 | Every key but `exclude` and `include` is a dimension with its own list |
| Matrix.Cartesian | internal/matrix/matrix.go:86-107 | The nested loops compute the product, empty without dimensions |
| Matrix.ProductCount | internal/matrix/matrix.go:86-107 | The product holds each assignment once per choice of indices and nothing else |
| Matrix.MultiplicityIs | internal/matrix/matrix.go:86-107 | An assignment occurs as often as its value for any one dimension is listed, times the rest, whichever dimension comes first |
| Matrix.MultiplicityPositive | internal/matrix/matrix.go:86-107 | The combinations that occur are exactly the assignments of every dimension to one of its values |
| Matrix.ExpansionsAgree | internal/matrix/matrix.go:37-82 | Two expansions of one matrix are equal as multisets, with the same trailing includes, whatever the map order |
| Matrix.Filter | internal/matrix/matrix.go:53-58 | Exactly the combinations that match an exclude rule are dropped, multiplicities kept |
| Matrix.Matches | internal/matrix/matrix.go:120-145 | True exactly when every entry of the rule is in the combination |
| Matrix.MatchesAnyExclude | internal/matrix/matrix.go:111-118 | True exactly when every entry of some rule is in the combination |
| Matrix.Merge | internal/matrix/matrix.go:64-69 | Merging an include into a combination it matches changes nothing |
| Matrix.AddIncludes | internal/matrix/matrix.go:59-79 | The base is kept as it was, an include is appended exactly when no base entry and no earlier include contains it, and every include ends up contained in some entry |
| Matrix.NovelIffUncovered | internal/matrix/matrix.go:62-79 | Looking at the current entries is the same as looking at the base and all earlier includes |
| RemovedApis.ExpandRule | internal/lint/engine/loader.go:22-46 | One rule per (kind, removal version) group in order of first appearance, each with its group's entries in order; other scopes stay whole |
| RemovedApis.KeysInOrder | internal/lint/engine/loader.go:30-36 | Groups come in order of first appearance |
| RemovedApis.KeyOrderMembers | internal/lint/engine/loader.go:30-36 | There is a group for exactly the pairs of removal version and kind in the table |
| RemovedApis.GroupInOrder | internal/lint/engine/loader.go:30-36 | Each group keeps the order of the table |
| RemovedApis.SplitRuleIs | internal/lint/engine/loader.go:38-45 | Each split rule is the rule itself but for its ID, made of the rule's, the version and the kind, and its entries, those of that version and kind |
| RemovedApis.RunRemovedAPIScope | internal/lint/engine/executor.go:98-144 | One finding per flagged document, in document order, from the last active entry for its apiVersion and kind |
| RemovedApis.DocumentIsReported | internal/lint/engine/executor.go:98-144 | A document is reported exactly when some entry lists its API and is in force, and then once, by the last such entry: every field of the finding and of its message is given, "Kubernetes" exactly for a rule without a project |
| RemovedApis.FindingsPerDocument | internal/lint/engine/executor.go:124-142 | Documents are reported one after another, each on its own |
| RemovedApis.SplitKeepsFindingsIff | internal/lint/engine/loader.go:22-46 | The split rules report the same findings as the unsplit rule, rule IDs aside, on all documents and target versions, exactly when no API is listed with two removal versions |
| RemovedApis.InconsistentReportsTwice | internal/lint/engine/loader.go:22-46 | Otherwise one document of that API is reported at least twice after the split and at most once before |
| RemovedApis.SplitIdsCoincideIff | internal/lint/engine/loader.go:38-44 | Two groups share an ID exactly when version, dash and kind spell the same |
| RemovedApis.SplitIdsDistinct | internal/lint/engine/loader.go:30-44 | The IDs of split rules differ when no kind contains a dash |
| RemovedApis.BlankIds | internal/lint/engine/executor.go:98-144 | The rule ID is the only part of a finding that depends on the rule's name |
| RemovedApis.NewerTargetFlagsMore | internal/lint/engine/executor.go:98-144 | A newer target flags every API an older one flags, and by the same entry on a consistent table |
| RemovedApis.NewerTargetKeepsFindingsIff | internal/lint/engine/executor.go:98-144 | On all documents, raising a target version that parses loses no finding exactly when the rule belongs to a project or no entry of its table is overtaken |
| RemovedApis.NewerTargetKeepsFindings | internal/lint/engine/executor.go:98-144 | The sufficient half for one run: the findings of the first n documents are kept |
| RemovedApis.OvertakingReplacesFinding | internal/lint/engine/executor.go:98-144 | For each overtaken entry there are two target versions between which a document's finding is replaced by the overtaking entry's, with another removal version |
| RemovedApis.HitKept | internal/lint/engine/executor.go:109-116 | Where nothing is overtaken, an API is flagged by the same entry at every newer target |
| RemovedApis.ConsistentNeverOvertaken | internal/lint/engine/executor.go:109-116 | On a table that lists no API with two removal versions nothing is overtaken |
| RemovedApis.InconsistentCanReplaceFinding | internal/lint/engine/executor.go:98-144 | The shortest table with an overtaken entry and its findings before and after; with the two entries swapped nothing is overtaken |
| Normalizer.NormalizeValue | internal/snapshot/normalize.go:26-64 | For any map order, the normal form that the lemmas below characterise |
| Normalizer.NormalizeMetadataValue | internal/snapshot/normalize.go:66-83 | The same under a `metadata` key |
| Normalizer.NormalizeAnnotationsValue | internal/snapshot/normalize.go:85-101 | The same under `metadata.annotations`, null once nothing is left |
| Normalizer.EntriesOf | internal/snapshot/normalize.go:41-64 | A map loses a null creationTimestamp and nothing else; its other values are normalised |
| Normalizer.MetadataOf | internal/snapshot/normalize.go:66-83 | So does metadata, apart from its annotations |
| Normalizer.AnnotationsOf | internal/snapshot/normalize.go:5-12 | Annotations lose exactly the three Helm hook keys and kubectl's last applied configuration, and become null when nothing is left |
| Normalizer.NormalizeIsNormal | internal/snapshot/normalize.go:22-101 | The result holds no null creationTimestamp and, under metadata.annotations, no Helm annotation and no empty map; only null becomes null |
| Normalizer.NormalizeStrips | internal/snapshot/normalize.go:22-101 | Nothing is lost or changed but null timestamps, Helm annotations and annotation maps left empty |
| Normalizer.NormalizeIsLargestStripping | internal/snapshot/normalize.go:22-101 | The normalised document is the one and only normal document reachable by stripping |
| Normalizer.NormalizeFixesExactlyNormal | internal/snapshot/normalize.go:22-101 | Normalising is idempotent and leaves alone exactly the normal documents |
| SnapshotNodes.CollectSortedKeys | internal/snapshot/normalize.go:104-111 | For any map order, the keys in strictly increasing order, each once |
| SnapshotNodes.LessIsLexicographic | internal/snapshot/normalize.go:104-111 | The order is lexicographic: the string that ends first, or is smaller where they first differ |
| SnapshotNodes.IncreasingIsUnique | internal/snapshot/normalize.go:104-111 | Two increasing key lists with the same members are equal |
| SnapshotNodes.ToYAMLNode | internal/snapshot/snapshot.go:156-197 | For any map order, the same sorted-key tree |
| SnapshotNodes.NodesDecideEquality | internal/snapshot/snapshot.go:117-127 | Two values have equal trees exactly when they are equal |
| Snapshots.Store.Match | internal/snapshot/snapshot.go:32-70 | The new disk and the verdict: a new or updated key is written normalised, any other call writes nothing and passes exactly on equal normalised values; unreadable and unwritable files are errors |
| Snapshots.CallOutcome | internal/snapshot/snapshot.go:32-70 | The disk and the verdict after any call, case by case: unreadable file, new key or update mode with a writable or unwritable file, comparison |
| Snapshots.CallRecordsOrCompares | internal/snapshot/snapshot.go:48-69 | The first match of a key, and any match in update mode, stores the normalised value and passes; any other writes nothing and passes exactly on what is stored |
| Snapshots.CallStores | internal/snapshot/snapshot.go:32-70 | A call changes what is stored under its own key at most, even within its own file |
| Snapshots.RunStoresLastWrite | internal/snapshot/snapshot.go:32-70 | After any run of calls a key holds the normalised value of its last writing call |
| Snapshots.RunKeepsUnwritten | internal/snapshot/snapshot.go:32-70 | A key no call wrote holds what it held before the run |
| Snapshots.RecordThenMatch | internal/snapshot/snapshot.go:48-69 | After recording v, a plain match of w passes exactly when v and w normalise alike, and writes nothing |
| Snapshots.KeysCoincideIff | internal/snapshot/snapshot.go:24-26 | Two keys are equal exactly when the indices and the slash-joined names are |
| Snapshots.KeyIsInjective | internal/snapshot/snapshot.go:24-26 | Keys of suites without a slash determine suite, test and index |
| Snapshots.KeysLiveInSuiteFile | internal/snapshot/snapshot.go:73-114 | A key of a suite without a slash lives in the file named after the suite |
| Snapshots.SlashedSuiteFile | internal/snapshot/snapshot.go:106-114 | Where the suite has slashes, the part before the first one names the file |
| Snapshots.SafeReplaces | internal/snapshot/snapshot.go:75-76 | In a file name slashes, blanks and colons become underscores and nothing else changes |
| Snapshots.SuitesCollideIff | internal/snapshot/snapshot.go:24-26 | Two suites can produce a common key exactly when one name continues the other past a slash |
| Snapshots.SharedFileKeepsSuitesApart | internal/snapshot/snapshot.go:73-114 | Suites whose file names coincide never overwrite each other's snapshots |
| Capabilities.TierProvides | internal/dsl/capability.go:56-67 | The capabilities whose rung is at or below the tier's, none for an unknown tier |
| Capabilities.LadderIs | internal/dsl/capability.go:41-67 | The four rungs in order and the capabilities of each, inherited ones included |
| Capabilities.TiersProviding | internal/dsl/capability.go:71-87 | The tiers that cover the needs are the ladder from their highest rung up |
| Capabilities.BackendsForTier | internal/dsl/capability.go:136-147 | The backends at or above the tier in hint order, none for the template tier |
| Capabilities.HintMembers | internal/dsl/capability.go:136-147 | A backend is hinted exactly when it runs at or above the tier |
| Capabilities.HintsAre | internal/dsl/capability.go:136-147 | The backends hinted for each tier, in order |
| Capabilities.RunnableTiers | internal/dsl/capability.go:115-132 | Exactly the template tier and the tiers some backend runs at; simulated is not among them |
| TierGate.IntersectTiers | internal/matchers/tiers.go:45-56 | The labels common to both, in the first list's order |
| TierGate.IntersectChildTiers | internal/matchers/tiers.go:62-71 | The intersection over all children, all tiers when there are none |
| TierGate.StrictestTier | internal/matchers/tiers.go:116-128 | A supported tier of least rank, nothing for an empty list |
| TierGate.SupportedIsSuffix | internal/matchers/tiers.go:33-71 | The supported tiers of any assertion tree are a non-empty suffix of the ladder |
| TierGate.SupportedAt | internal/matchers/tiers.go:33-71 | A tier supports an unclaimed assertion only if it is e2e, a matcher exactly when it provides all it needs, and a composite exactly when it supports all its children |
| TierGate.FindsFirst | internal/matchers/tiers.go:33-38 | An assertion is claimed by the first registered matcher it sets |
| TierGate.WalksAgree | internal/matchers/tiers.go:33-109 | Where each node sets one registered matcher, the search reports a problem at a tier exactly when the intersection lacks that tier |
| TierGate.SkippedWhen | internal/matchers/tiers.go:93-109 | A composite is skipped exactly when some child is, allOf before anyOf; any other assertion exactly when the matcher that claims it needs what the tier lacks |
| TierGate.SearchIsAny | internal/matchers/tiers.go:81-88 | The search over a list finds something exactly when it does for one assertion, and reports the first that does |
| TierGate.BlameIsRight | internal/matchers/tiers.go:93-109 | The named matcher occurs in the tree and needs more than the tier, and the needed tier is the lowest it runs at |
| TierGate.FirstUnmetIff | internal/dsl/tier_ceiling.go:68-89 | The ceiling walk finds nothing exactly when every matcher at any depth is provided for; otherwise it names one that is not, with its needs |
| TierGate.WalkInOrder | internal/dsl/tier_ceiling.go:68-82 | The walk reports what a search through the flat list would: nested assertions first, in order, then the fields |
| TierGate.FirstUnmetFieldIs | internal/dsl/tier_ceiling.go:74-80 | In that list, the first field with an uncovered need, with all its needs |
| TierGate.MentionedMembers | internal/dsl/tier_ceiling.go:68-89 | A matcher counts as mentioned exactly where it is set or further down, under allOf, anyOf or a lookup |
| TierGate.ValidateTierCeiling | internal/dsl/tier_ceiling.go:22-43 | Accepts exactly the suites with a runnable tier that provides for every matcher; the rejected matcher is really unmet and the suggested tier runnable and sufficient |
| TierGate.CeilingIs | internal/dsl/tier_ceiling.go:22-43 | Acceptance, spelled out: the tier, template by default, is template, apiserver or e2e, and no matcher at any depth needs a capability it lacks |
| TierGate.LowestRunnableTierFor | internal/dsl/tier_ceiling.go:112-120 | The lowest runnable tier that covers the needs |
| TierGate.CeilingMeansNoSkip | internal/runner/tiergate.go:15-22 | An accepted suite has no test skipped for a matcher, at its tier or any higher one, for trees of any shape |
| TierGate.HintedBackendsSuffice | internal/runner/tiergate.go:15-32 | Every backend a skip reason names runs at a tier where the named matcher is available, and there is always one to name |
| TierGate.SkipReasonIsRight | internal/runner/tiergate.go:15-22 | A skip reason names the tier and a matcher of the test that needs something the tier lacks, and hints at exactly the backends that have all it needs, or at none if it needs no cluster |
| TierGate.BackendTiersAre | internal/runner/tiergate.go:27-32 | The tier of every `--cluster` value |
| TierGate.UnrunnableAt | internal/runner/tiergate.go:84-101 | Unrunnable exactly when a feature is missing or there are tests and all are skipped; the reason is the feature's or the first test's |
| TierGate.FeatureSkipIff | internal/runner/tiergate.go:38-77 | A suite is skipped whole exactly when the tier is neither simulated nor e2e and it declares dependencies, suite hooks or test hooks |
| TierGate.FeatureSkipReason | internal/runner/tiergate.go:42-50 | The reason names the first of these, and the backends at simulated or above |
| TierGate.SkippedBelow | internal/matchers/tiers.go:93-109 | What is unsupported at a tier is unsupported at every lower one |
| TierGate.UnrunnableBelow | internal/runner/tiergate.go:38-101 | Raising the tier never makes a runnable suite unrunnable |
| Lifecycle.Runner.RunFile | internal/runner/apply.go:196-323 | What a test file acquires and releases, in order, for every combination of step outcomes |
| Lifecycle.Runner.RunTest | internal/runner/apply.go:329-401 | The same for one test, early returns included |
| Lifecycle.Runner.RunDeferred | internal/runner/apply.go:266-291 | Deferred releases run last first, the preserved ones dropped under `--keep-cluster` |
| Lifecycle.ReleasesMirrorAcquisitions | internal/runner/apply.go:257-401 | On every path each release takes back the latest acquisition still held, and nothing is held at the end |
| Lifecycle.HeldAtAnyMoment | internal/runner/apply.go:257-401 | At every moment what is held is an initial part of suite dependencies, afterAll hooks, and one test's namespace, dependencies and teardown hooks: the order of acquisition, and no two tests at once |
| Lifecycle.OwnedOnce | internal/runner/apply.go:257-401 | A resource is acquired once and released once exactly when the steps it depends on all succeeded, and otherwise neither |
| Lifecycle.KeepClusterDropsOnlyPreserved | internal/runner/apply.go:266-270 | `--keep-cluster` drops the dependency and namespace releases and nothing else |
| Lifecycle.WithoutKeepClusterNothingIsDropped | internal/runner/apply.go:266-270 | Without it nothing is dropped |
| Namespaces.SanitizeDNSLabel | internal/runner/apply.go:728-748 | The builder loop computes the sanitised name that the lemmas below characterise |
| Namespaces.BuiltNext | internal/runner/apply.go:729-744 | What each character adds: a letter or digit itself in lower case, a separator one dash between others, anything else nothing |
| Namespaces.TrimOfBuilt | internal/runner/apply.go:745-747 | The name is that, less the one dash that can be left at its end |
| Namespaces.AllocateNamespace | internal/runner/apply.go:711-724 | At most 63 characters and a DNS label (section 2.1 of RFC 1123), for every display name |
| Namespaces.SanitizedIsCanonical | internal/runner/apply.go:728-748 | Only label characters, no leading, trailing or doubled dash |
| Namespaces.SanitizeFixesExactlyCanonical | internal/runner/apply.go:728-748 | The canonical names are exactly the fixed points |
| Namespaces.SanitizeKeepsLetters | internal/runner/apply.go:733-744 | The letters and digits of the lower-cased name survive in order |

## Left out

- The order of dependencies within a batch follows the unspecified map order;
  batches are specified as multisets.
- Source installers, wait conditions, the dependency cache and single teardowns
  (`installOne`, `teardownOne`) are arbitrary outcomes; the cache promises
  nothing after a failed reinstall, so no claim is made about it.
- Installer.Install: a failed run returns no state, so nothing is said about
  what it left in the cluster, and context cancellation is one of the arbitrary
  outcomes of an install.
- WorkerPool.RunParallel: the loop that spawns goroutines is modelled as all of
  them waiting for the semaphore from the start; a panicking worker and the
  apply tier's own cancellation are not modelled.
- WorkerPool.FailuresFitSlots: counts files that fail without a file error, the
  ones fail-fast reacts to.
- Paths.Parse: text is a sequence of characters rather than bytes, which makes no
  difference to a scanner that looks for ASCII only; `Atoi` has the range of a
  64-bit `int`, and parse errors are kept as kinds rather than as text.
- JsonPaths.EvaluatorWalksLoosely: covers the plain paths (non-empty keys
  without `.` and `[`, canonical indices); other JSONPath strings are evaluated
  by the model but no law relates them to the other language.
- Matrix.Expand: requires that no comparison its rules call for is between two
  maps or two lists, where Go's `==` panics; the panic itself is not modelled, and
  NaN, which differs from itself, is not a value of the model. The loops of
  `isSubset` and `matchesExclude` are the same and modelled once.
- RemovedApis.RunRemovedAPIScope: version parsing is an arbitrary function from
  text to an ordered number (`NewerTargetKeepsFindingsIff` uses that it rejects
  the empty text), and the message is kept as its format arguments.
  The other rule scopes evaluate CEL and are left out.
- Snapshots.Store.Match: sequential calls only, since load, modify and save are
  not atomic; the text encoding is any injective function of the node tree, a
  saved file is read back as written, and a failed save leaves the file as it
  was.
- SnapshotNodes.ToYAMLNode: scalars are assumed to be encoded injectively.
- TierGate: the capability table and the matcher registry are parameters that
  agree on which matchers exist; `ReadsLiveState` and the panic on an unknown
  matcher are left out, reasons are kept as their parts rather than as text.
- Lifecycle.Runner.RunFile: parsing, expansion, chart loading, hooks, rendering
  and matchers are outcomes; test results and durations are not recorded, and
  cluster-scoped dependencies are never released, as in the code.
- Namespaces.AllocateNamespace: the random suffix is a parameter, and lower-casing
  is modelled as far as its result can be an ASCII letter.
- Command line, configuration, cluster backends, Helm, CEL, JSON Schema, live
  matchers, reporters and linters other than removed APIs: I/O or foreign
  libraries.
