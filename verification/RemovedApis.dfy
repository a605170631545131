// internal/lint/engine: splitting a removedAPI rule into one rule per
// (removedIn, kind), and running such a rule over the rendered documents.
module RemovedApis {
  import opened Wrappers
  import opened Values
  import opened Separators

  datatype Entry = Entry(apiVersion: string, kind: string, removedIn: string, replacement: string)

  // The fields of a rule definition that removedAPI rules use; expr and the
  // message template travel in `rest`.
  datatype RuleDef = RuleDef(
    id: string,
    severity: string,
    scope: string,
    helpURI: string,
    project: string,
    rest: string,
    removedAPIs: seq<Entry>)

  datatype Rule = Rule(ruleSet: string, def: RuleDef)

  // The arguments of the message format, not the rendered text.
  datatype Message = Message(
    kind: string,
    name: string,
    apiVersion: string,
    context: string,
    removedIn: string,
    replacement: string)

  datatype Finding = Finding(ruleId: string, severity: string, file: string, message: Message, helpURI: string)

  type Document = map<string, Value>

  // parse stands for semver.NewVersion: precedence is a total order on the
  // versions that parse, so versions are compared as numbers.
  datatype Context = Context(docs: seq<Document>, kubeVersion: string, parse: string -> Option<real>)

  type GroupKey = (string, string)

  // --------------------------------------------------------------- expandRule

  function GroupOf(e: Entry): GroupKey {
    (e.removedIn, e.kind)
  }

  // Group keys in order of first appearance.
  function KeyOrder(entries: seq<Entry>): seq<GroupKey> {
    if entries == [] then []
    else
      var order, k := KeyOrder(entries[..|entries| - 1]), GroupOf(entries[|entries| - 1]);
      if k in order then order else order + [k]
  }

  function Group(entries: seq<Entry>, k: GroupKey): seq<Entry> {
    if entries == [] then []
    else
      var last := entries[|entries| - 1];
      Group(entries[..|entries| - 1], k) + (if GroupOf(last) == k then [last] else [])
  }

  function SplitId(id: string, k: GroupKey): string {
    id + "_" + k.0 + "-" + k.1
  }

  function SubRule(ruleSet: string, def: RuleDef, k: GroupKey): Rule {
    Rule(ruleSet, def.(id := SplitId(def.id, k), removedAPIs := Group(def.removedAPIs, k)))
  }

  function SubRules(ruleSet: string, def: RuleDef, keys: seq<GroupKey>): seq<Rule> {
    if keys == [] then []
    else SubRules(ruleSet, def, keys[..|keys| - 1]) + [SubRule(ruleSet, def, keys[|keys| - 1])]
  }

  function Split(ruleSet: string, def: RuleDef): seq<Rule> {
    SubRules(ruleSet, def, KeyOrder(def.removedAPIs))
  }

  lemma KeyOrderMembers(entries: seq<Entry>)
    ensures forall k :: k in KeyOrder(entries) <==> exists e :: e in entries && (e.removedIn, e.kind) == k
  {
    if entries != [] {
      var front, last := entries[..|entries| - 1], entries[|entries| - 1];
      KeyOrderMembers(front);
      assert entries == front + [last];
    }
  }

  // Group keys come in order of first appearance...
  lemma {:induction false} KeysInOrder(a: seq<Entry>, b: seq<Entry>)
    ensures KeyOrder(a) <= KeyOrder(a + b)
    decreases |b|
  {
    if b == [] {
      assert a + b == a;
    } else {
      KeysInOrder(a, b[..|b| - 1]);
      assert (a + b)[..|a + b| - 1] == a + b[..|b| - 1];
    }
  }

  // ...and each group keeps the order of the table.
  lemma {:induction false} GroupInOrder(a: seq<Entry>, b: seq<Entry>, k: GroupKey)
    ensures Group(a + b, k) == Group(a, k) + Group(b, k)
    decreases |b|
  {
    if b == [] {
      assert a + b == a;
    } else {
      GroupInOrder(a, b[..|b| - 1], k);
      assert (a + b)[..|a + b| - 1] == a + b[..|b| - 1];
    }
  }

  // Each split rule is the rule itself but for its ID and its entries: the group
  // of one removal version and kind.
  lemma SplitRuleIs(ruleSet: string, def: RuleDef, i: nat)
    requires i < |KeyOrder(def.removedAPIs)|
    ensures |Split(ruleSet, def)| == |KeyOrder(def.removedAPIs)|
    ensures var (version, kind) := KeyOrder(def.removedAPIs)[i];
      var r := Split(ruleSet, def)[i];
      && r.ruleSet == ruleSet && r.def.id == def.id + "_" + version + "-" + kind
      && r.def.(id := def.id, removedAPIs := def.removedAPIs) == def
      && forall e :: e in r.def.removedAPIs <==> e in def.removedAPIs && e.removedIn == version && e.kind == kind
  {
    var keys := KeyOrder(def.removedAPIs);
    SubRuleAt(ruleSet, def, keys, i);
    forall e ensures e in Group(def.removedAPIs, keys[i]) <==>
      e in def.removedAPIs && e.removedIn == keys[i].0 && e.kind == keys[i].1
    {
      GroupMembers(def.removedAPIs, keys[i], e);
    }
  }

  lemma SubRuleAt(ruleSet: string, def: RuleDef, keys: seq<GroupKey>, i: nat)
    requires i < |keys|
    ensures |SubRules(ruleSet, def, keys)| == |keys|
    ensures SubRules(ruleSet, def, keys)[i] == SubRule(ruleSet, def, keys[i])
    decreases |keys|
  {
    hide SubRule;
    SubRulesLength(ruleSet, def, keys);
    if i < |keys| - 1 {
      SubRuleAt(ruleSet, def, keys[..|keys| - 1], i);
    } else {
      SubRulesLength(ruleSet, def, keys[..|keys| - 1]);
    }
  }

  lemma SubRulesLength(ruleSet: string, def: RuleDef, keys: seq<GroupKey>)
    ensures |SubRules(ruleSet, def, keys)| == |keys|
  {
  }

  function GroupIn(groups: map<GroupKey, seq<Entry>>, k: GroupKey): seq<Entry> {
    if k in groups then groups[k] else []
  }

  method GroupEntries(entries: seq<Entry>) returns (groups: map<GroupKey, seq<Entry>>, order: seq<GroupKey>)
    ensures order == KeyOrder(entries)
    ensures forall k :: k in groups <==> k in order
    ensures forall k :: GroupIn(groups, k) == Group(entries, k)
  {
    groups, order := map[], [];
    for i := 0 to |entries|
      invariant order == KeyOrder(entries[..i])
      invariant forall k :: k in groups <==> k in order
      invariant forall k :: GroupIn(groups, k) == Group(entries[..i], k)
    {
      assert entries[..i + 1][..i] == entries[..i];
      var k := GroupOf(entries[i]);
      if k !in groups {
        order := order + [k];
      }
      groups := groups[k := GroupIn(groups, k) + [entries[i]]];
    }
    assert entries[..|entries|] == entries;
  }

  method ExpandRule(ruleSet: string, def: RuleDef) returns (rules: seq<Rule>)
    ensures rules == if def.scope != "removedAPI" then [Rule(ruleSet, def)] else Split(ruleSet, def)
  {
    hide Group, KeyOrder, SplitId;
    if def.scope != "removedAPI" {
      return [Rule(ruleSet, def)];
    }
    var groups, order := GroupEntries(def.removedAPIs);
    rules := [];
    for i := 0 to |order|
      invariant rules == SubRules(ruleSet, def, order[..i])
    {
      assert order[..i + 1][..i] == order[..i];
      assert GroupIn(groups, order[i]) == Group(def.removedAPIs, order[i]);
      rules := rules + [Rule(ruleSet, def.(id := SplitId(def.id, order[i]), removedAPIs := groups[order[i]]))];
    }
    assert order[..|order|] == order;
  }

  // ------------------------------------------------------- runRemovedAPIScope

  function StringField(doc: Document, key: string): string {
    if key in doc && doc[key].Scalar? && doc[key].kind == "string" then doc[key].text else ""
  }

  function DocName(doc: Document): string {
    if "metadata" in doc && doc["metadata"].Map? then StringField(doc["metadata"].fields, "name") else ""
  }

  // The version findings are filtered by, if any.
  function Target(def: RuleDef, ctx: Context): Option<real> {
    if def.project == "" && ctx.kubeVersion != "" then ctx.parse(ctx.kubeVersion) else None
  }

  predicate Active(e: Entry, target: Option<real>, parse: string -> Option<real>) {
    target.None? || parse(e.removedIn).None? || parse(e.removedIn).value <= target.value
  }

  predicate Flags(e: Entry, apiVersion: string, kind: string) {
    e.apiVersion == apiVersion && e.kind == kind
  }

  // The index holds the last active entry for each (apiVersion, kind).
  function Hit(entries: seq<Entry>, target: Option<real>, parse: string -> Option<real>, apiVersion: string,
               kind: string): Option<Entry> {
    if entries == [] then None
    else
      var last := entries[|entries| - 1];
      if Flags(last, apiVersion, kind) && Active(last, target, parse) then Some(last)
      else Hit(entries[..|entries| - 1], target, parse, apiVersion, kind)
  }

  function DocHit(def: RuleDef, ctx: Context, doc: Document): Option<Entry> {
    Hit(def.removedAPIs, Target(def, ctx), ctx.parse, StringField(doc, "apiVersion"), StringField(doc, "kind"))
  }

  function Report(id: string, def: RuleDef, doc: Document, e: Entry): Finding {
    Finding(
      id, def.severity, "templates/",
      Message(
        StringField(doc, "kind"), DocName(doc), StringField(doc, "apiVersion"),
        if def.project != "" then def.project else "Kubernetes", e.removedIn, e.replacement),
      def.helpURI)
  }

  function DocFindings(id: string, def: RuleDef, ctx: Context, doc: Document): seq<Finding> {
    var hit := DocHit(def, ctx, doc);
    if hit.Some? then [Report(id, def, doc, hit.value)] else []
  }

  function FindingsUpTo(id: string, def: RuleDef, ctx: Context, n: nat): seq<Finding>
    requires n <= |ctx.docs|
  {
    if n == 0 then [] else FindingsUpTo(id, def, ctx, n - 1) + DocFindings(id, def, ctx, ctx.docs[n - 1])
  }

  function Findings(id: string, def: RuleDef, ctx: Context): seq<Finding> {
    FindingsUpTo(id, def, ctx, |ctx.docs|)
  }

  function Indexed(index: map<(string, string), Entry>, apiVersion: string, kind: string): Option<Entry> {
    if (apiVersion, kind) in index then Some(index[(apiVersion, kind)]) else None
  }

  method RunRemovedAPIScope(id: string, def: RuleDef, ctx: Context) returns (findings: seq<Finding>)
    ensures findings == Findings(id, def, ctx)
  {
    var target: Option<real> := None;
    if def.project == "" && ctx.kubeVersion != "" {
      target := ctx.parse(ctx.kubeVersion);
    }
    var entries := def.removedAPIs;
    var index: map<(string, string), Entry> := map[];
    for i := 0 to |entries|
      invariant forall av, kind :: Indexed(index, av, kind) == Hit(entries[..i], target, ctx.parse, av, kind)
    {
      assert entries[..i + 1][..i] == entries[..i];
      if target.Some? {
        var removed := ctx.parse(entries[i].removedIn);
        if removed.Some? && removed.value > target.value {
          continue;
        }
      }
      index := index[(entries[i].apiVersion, entries[i].kind) := entries[i]];
    }
    assert entries[..|entries|] == entries;
    findings := [];
    for i := 0 to |ctx.docs|
      invariant findings == FindingsUpTo(id, def, ctx, i)
    {
      var doc := ctx.docs[i];
      var av, kind := StringField(doc, "apiVersion"), StringField(doc, "kind");
      assert Indexed(index, av, kind) == DocHit(def, ctx, doc);
      if (av, kind) !in index {
        continue;
      }
      findings := findings + [Report(id, def, doc, index[(av, kind)])];
    }
  }

  // --------------------------------------------------------- what a finding says

  // The document's string under a key, empty when there is none.
  ghost predicate Reads(doc: Document, key: string, text: string) {
    if key in doc && doc[key].Scalar? && doc[key].kind == "string" then text == doc[key].text else text == ""
  }

  // metadata.name, empty when there is none.
  ghost predicate Named(doc: Document, name: string) {
    if "metadata" in doc && doc["metadata"].Map? then Reads(doc["metadata"].fields, "name", name) else name == ""
  }

  // Entry i lists the document's API and is in force: a project rule and a
  // target that is absent or does not parse put every entry in force, and so
  // does a removal version that does not parse.
  ghost predicate InForce(def: RuleDef, version: string, parse: string -> Option<real>,
                          av: string, kind: string, i: nat)
  {
    && i < |def.removedAPIs|
    && var e := def.removedAPIs[i];
       && e.apiVersion == av && e.kind == kind
       && (|| def.project != "" || version == "" || parse(version).None?
           || parse(e.removedIn).None? || parse(e.removedIn).value <= parse(version).value)
  }

  ghost predicate LastInForce(def: RuleDef, version: string, parse: string -> Option<real>,
                              av: string, kind: string, i: nat)
  {
    && InForce(def, version, parse, av, kind, i)
    && forall k :: i < k < |def.removedAPIs| ==> !InForce(def, version, parse, av, kind, k)
  }

  // A document is reported once, by the last entry for its API in force, with
  // that entry's removal version and replacement; and not at all if there is
  // none.
  lemma DocumentIsReported(id: string, def: RuleDef, doc: Document, version: string, parse: string -> Option<real>,
                           av: string, kind: string, name: string)
    requires Reads(doc, "apiVersion", av) && Reads(doc, "kind", kind) && Named(doc, name)
    ensures Findings(id, def, Context([doc], version, parse)) == [] <==>
      forall i: nat :: !InForce(def, version, parse, av, kind, i)
    ensures forall i: nat :: LastInForce(def, version, parse, av, kind, i) ==>
      var e := def.removedAPIs[i];
      var project := if def.project == "" then "Kubernetes" else def.project;
      var message := Message(kind, name, av, project, e.removedIn, e.replacement);
      Findings(id, def, Context([doc], version, parse)) ==
        [Finding(id, def.severity, "templates/", message, def.helpURI)]
  {
    var ctx, target := Context([doc], version, parse), Target(def, Context([doc], version, parse));
    var entries := def.removedAPIs;
    assert FindingsUpTo(id, def, ctx, 1) == FindingsUpTo(id, def, ctx, 0) + DocFindings(id, def, ctx, doc);
    hide Hit;
    if Hit(entries, target, parse, av, kind).Some? {
      var j := HitIsLastActive(entries, target, parse, av, kind);
      assert InForce(def, version, parse, av, kind, j);
    } else {
      forall i: nat ensures !InForce(def, version, parse, av, kind, i) {
        if InForce(def, version, parse, av, kind, i) { SomeHit(entries, target, parse, av, kind, i); }
      }
    }
  }

  // Documents are reported one after another, each on its own.
  lemma {:induction false} FindingsPerDocument(id: string, def: RuleDef, docs: seq<Document>, more: seq<Document>,
                                               version: string, parse: string -> Option<real>)
    ensures Findings(id, def, Context(docs + more, version, parse)) ==
      Findings(id, def, Context(docs, version, parse)) + Findings(id, def, Context(more, version, parse))
    decreases |more|
  {
    hide DocFindings, Findings;
    if more != [] {
      var front, last := more[..|more| - 1], more[|more| - 1];
      FindingsPerDocument(id, def, docs, front, version, parse);
      assert more == front + [last] && docs + more == (docs + front) + [last];
      AddDocument(id, def, docs + front, last, version, parse);
      AddDocument(id, def, front, last, version, parse);
    } else {
      assert docs + more == docs;
      NothingFound(id, def, version, parse);
    }
  }

  lemma NothingFound(id: string, def: RuleDef, version: string, parse: string -> Option<real>)
    ensures Findings(id, def, Context([], version, parse)) == []
  {
  }

  lemma AddDocument(id: string, def: RuleDef, docs: seq<Document>, last: Document,
                    version: string, parse: string -> Option<real>)
    ensures Findings(id, def, Context(docs + [last], version, parse)) ==
      Findings(id, def, Context(docs, version, parse)) + DocFindings(id, def, Context([], version, parse), last)
  {
    FirstFindings(id, def, docs, [last], version, parse, |docs|);
    hide FindingsUpTo;
  }

  lemma {:induction false} FirstFindings(id: string, def: RuleDef, docs: seq<Document>, more: seq<Document>,
                                         version: string, parse: string -> Option<real>, n: nat)
    requires n <= |docs|
    ensures FindingsUpTo(id, def, Context(docs + more, version, parse), n) ==
      FindingsUpTo(id, def, Context(docs, version, parse), n)
    decreases n
  {
    if n > 0 {
      FirstFindings(id, def, docs, more, version, parse, n - 1);
      assert (docs + more)[n - 1] == docs[n - 1];
    }
  }

  // ------------------------------------------------ splitting keeps the meaning

  // No (apiVersion, kind) is listed as removed in two different versions.
  ghost predicate Consistent(entries: seq<Entry>) {
    forall e, f :: e in entries && f in entries && e.apiVersion == f.apiVersion && e.kind == f.kind ==>
      e.removedIn == f.removedIn
  }

  // What a list of rules reports, rule IDs blanked out.
  ghost function Anonymous(rules: seq<Rule>, ctx: Context): multiset<Finding> {
    if rules == [] then multiset{}
    else Anonymous(rules[..|rules| - 1], ctx) + multiset(Findings("", rules[|rules| - 1].def, ctx))
  }

  // The findings differ from the blanked ones in the rule ID only.
  lemma BlankIds(id: string, def: RuleDef, ctx: Context, n: nat)
    requires n <= |ctx.docs|
    ensures var named, blank := FindingsUpTo(id, def, ctx, n), FindingsUpTo("", def, ctx, n);
      |named| == |blank| && forall i :: 0 <= i < |named| ==>
        named[i].ruleId == id && named[i].(ruleId := "") == blank[i]
  {
  }

  ghost function DocHits(rules: seq<Rule>, ctx: Context, doc: Document): multiset<Finding> {
    if rules == [] then multiset{}
    else DocHits(rules[..|rules| - 1], ctx, doc) + multiset(DocFindings("", rules[|rules| - 1].def, ctx, doc))
  }

  ghost function FirstDocs(ctx: Context, n: nat): Context
    requires n <= |ctx.docs|
  {
    ctx.(docs := ctx.docs[..n])
  }

  lemma FindingsOfFirstDocs(id: string, def: RuleDef, ctx: Context, m: nat, n: nat)
    requires m <= n <= |ctx.docs|
    ensures FindingsUpTo(id, def, FirstDocs(ctx, n), m) == FindingsUpTo(id, def, ctx, m)
  {
  }

  lemma FindingsNextDoc(def: RuleDef, ctx: Context, n: nat)
    requires n < |ctx.docs|
    ensures Findings("", def, FirstDocs(ctx, n + 1)) ==
      Findings("", def, FirstDocs(ctx, n)) + DocFindings("", def, ctx, ctx.docs[n])
  {
    hide DocFindings;
    FindingsOfFirstDocs("", def, ctx, n, n);
    FindingsOfFirstDocs("", def, ctx, n + 1, n + 1);
  }

  // Summing per rule or per document comes to the same.
  lemma {:induction false} RulesThenDocs(rules: seq<Rule>, ctx: Context, n: nat)
    requires n < |ctx.docs|
    ensures Anonymous(rules, FirstDocs(ctx, n + 1)) ==
      Anonymous(rules, FirstDocs(ctx, n)) + DocHits(rules, ctx, ctx.docs[n])
    decreases |rules|
  {
    if rules != [] {
      hide Findings, DocFindings, FirstDocs;
      RulesThenDocs(rules[..|rules| - 1], ctx, n);
      FindingsNextDoc(rules[|rules| - 1].def, ctx, n);
    }
  }

  lemma {:induction false} HitIsListed(entries: seq<Entry>, target: Option<real>, parse: string -> Option<real>,
                                       av: string, kind: string)
    ensures var hit := Hit(entries, target, parse, av, kind);
      hit.Some? ==> hit.value in entries && Flags(hit.value, av, kind) && Active(hit.value, target, parse)
  {
    if entries != [] { HitIsListed(entries[..|entries| - 1], target, parse, av, kind); }
  }

  lemma {:induction false} GroupMembers(entries: seq<Entry>, k: GroupKey, e: Entry)
    ensures e in Group(entries, k) <==> e in entries && GroupOf(e) == k
  {
    if entries != [] {
      assert entries == entries[..|entries| - 1] + [entries[|entries| - 1]];
      GroupMembers(entries[..|entries| - 1], k, e);
    }
  }

  // If all entries for a document sit in group k, that group alone decides it.
  lemma {:induction false} HitInGroup(entries: seq<Entry>, target: Option<real>, parse: string -> Option<real>,
                                      av: string, kind: string, k: GroupKey)
    requires forall e :: e in entries && Flags(e, av, kind) ==> GroupOf(e) == k
    ensures Hit(Group(entries, k), target, parse, av, kind) == Hit(entries, target, parse, av, kind)
  {
    if entries != [] {
      var front, last := entries[..|entries| - 1], entries[|entries| - 1];
      HitInGroup(front, target, parse, av, kind, k);
      var g := Group(entries, k);
      if GroupOf(last) == k {
        assert g == Group(front, k) + [last];
        assert g[..|g| - 1] == Group(front, k);
      } else {
        assert g == Group(front, k) && !Flags(last, av, kind);
      }
    }
  }

  lemma {:induction false} NoHitElsewhere(entries: seq<Entry>, target: Option<real>, parse: string -> Option<real>,
                                          av: string, kind: string, k: GroupKey)
    requires forall e :: e in entries && Flags(e, av, kind) ==> GroupOf(e) != k
    ensures Hit(Group(entries, k), target, parse, av, kind).None?
  {
    HitIsListed(Group(entries, k), target, parse, av, kind);
    var hit := Hit(Group(entries, k), target, parse, av, kind);
    if hit.Some? { GroupMembers(entries, k, hit.value); }
  }

  // Of the split rules, only the one for group k can report the document.
  lemma SubRuleFindings(ruleSet: string, def: RuleDef, ctx: Context, doc: Document, key: GroupKey, k: GroupKey)
    requires forall e :: e in def.removedAPIs && Flags(e, StringField(doc, "apiVersion"), StringField(doc, "kind")) ==>
      GroupOf(e) == k
    ensures DocFindings("", SubRule(ruleSet, def, key).def, ctx, doc) ==
      if key == k then DocFindings("", def, ctx, doc) else []
  {
    hide Hit, Group;
    var av, kind, target := StringField(doc, "apiVersion"), StringField(doc, "kind"), Target(def, ctx);
    if key == k {
      HitInGroup(def.removedAPIs, target, ctx.parse, av, kind, k);
    } else {
      NoHitElsewhere(def.removedAPIs, target, ctx.parse, av, kind, key);
    }
  }

  // The group keys are listed once each, so that rule exists at most once.
  lemma {:induction false} DocHitsOfSplit(ruleSet: string, def: RuleDef, ctx: Context, doc: Document,
                                          keys: seq<GroupKey>, k: GroupKey)
    requires forall i, j :: 0 <= i < j < |keys| ==> keys[i] != keys[j]
    requires forall e :: e in def.removedAPIs && Flags(e, StringField(doc, "apiVersion"), StringField(doc, "kind")) ==>
      GroupOf(e) == k
    ensures DocHits(SubRules(ruleSet, def, keys), ctx, doc) ==
      if k in keys then multiset(DocFindings("", def, ctx, doc)) else multiset{}
    decreases |keys|
  {
    hide DocFindings, SubRule, Flags, GroupOf, StringField;
    if keys != [] {
      var front, last := keys[..|keys| - 1], keys[|keys| - 1];
      DocHitsOfSplit(ruleSet, def, ctx, doc, front, k);
      SubRuleFindings(ruleSet, def, ctx, doc, last, k);
      var rules := SubRules(ruleSet, def, keys);
      assert rules[..|rules| - 1] == SubRules(ruleSet, def, front);
      assert keys == front + [last];
    }
  }

  lemma KeyOrderDistinct(entries: seq<Entry>)
    ensures forall i, j :: 0 <= i < j < |KeyOrder(entries)| ==> KeyOrder(entries)[i] != KeyOrder(entries)[j]
  {
  }

  lemma DocHitsAgree(ruleSet: string, def: RuleDef, ctx: Context, doc: Document)
    requires Consistent(def.removedAPIs)
    ensures DocHits(Split(ruleSet, def), ctx, doc) == multiset(DocFindings("", def, ctx, doc))
  {
    var entries, av, kind := def.removedAPIs, StringField(doc, "apiVersion"), StringField(doc, "kind");
    KeyOrderDistinct(entries);
    KeyOrderMembers(entries);
    if e :| e in entries && Flags(e, av, kind) {
      DocHitsOfSplit(ruleSet, def, ctx, doc, KeyOrder(entries), GroupOf(e));
    } else {
      HitIsListed(entries, Target(def, ctx), ctx.parse, av, kind);
      DocHitsOfSplit(ruleSet, def, ctx, doc, KeyOrder(entries), ("", ""));
      assert DocFindings("", def, ctx, doc) == [];
    }
  }

  lemma {:induction false} SplitAgreesOn(ruleSet: string, def: RuleDef, ctx: Context, n: nat)
    requires Consistent(def.removedAPIs) && n <= |ctx.docs|
    ensures Anonymous(Split(ruleSet, def), FirstDocs(ctx, n)) == multiset(Findings("", def, FirstDocs(ctx, n)))
    decreases n
  {
    hide Split, Findings, Anonymous, DocHits, FirstDocs, DocFindings;
    var rules := Split(ruleSet, def);
    if n == 0 {
      NoDocsNoFindings(rules, def, ctx);
    } else {
      SplitAgreesOn(ruleSet, def, ctx, n - 1);
      RulesThenDocs(rules, ctx, n - 1);
      DocHitsAgree(ruleSet, def, ctx, ctx.docs[n - 1]);
      FindingsNextDoc(def, ctx, n - 1);
    }
  }

  lemma NoDocsNoFindings(rules: seq<Rule>, def: RuleDef, ctx: Context)
    ensures Anonymous(rules, FirstDocs(ctx, 0)) == multiset{}
    ensures Findings("", def, FirstDocs(ctx, 0)) == []
  {
  }

  // Splitting a removedAPI rule never changes what is reported, on any
  // documents and any target version, exactly when the table is consistent.
  lemma SplitKeepsFindingsIff(ruleSet: string, def: RuleDef, parse: string -> Option<real>)
    ensures Consistent(def.removedAPIs) <==>
      forall docs, version :: var ctx := Context(docs, version, parse);
        Anonymous(Split(ruleSet, def), ctx) == multiset(Findings("", def, ctx))
  {
    if Consistent(def.removedAPIs) {
      forall docs, version
        ensures var ctx := Context(docs, version, parse);
          Anonymous(Split(ruleSet, def), ctx) == multiset(Findings("", def, ctx))
      {
        var ctx := Context(docs, version, parse);
        SplitAgreesOn(ruleSet, def, ctx, |docs|);
        assert docs[..|docs|] == docs;
      }
    } else {
      var e, f :| e in def.removedAPIs && f in def.removedAPIs &&
        e.apiVersion == f.apiVersion && e.kind == f.kind && e.removedIn != f.removedIn;
      var ctx := InconsistentReportsTwice(ruleSet, def, parse, e, f);
      assert Context(ctx.docs, "", parse) == ctx;
    }
  }

  lemma HitExists(entries: seq<Entry>, parse: string -> Option<real>, e: Entry)
    requires e in entries
    ensures Hit(entries, None, parse, e.apiVersion, e.kind).Some?
  {
    if entries != [] {
      assert entries == entries[..|entries| - 1] + [entries[|entries| - 1]];
    }
  }

  // One document of the doubly listed API, no target version: the split rules
  // report it from both groups, the unsplit rule once.
  lemma InconsistentReportsTwice(ruleSet: string, def: RuleDef, parse: string -> Option<real>, e: Entry, f: Entry)
    returns (ctx: Context)
    requires e in def.removedAPIs && f in def.removedAPIs
    requires e.apiVersion == f.apiVersion && e.kind == f.kind && e.removedIn != f.removedIn
    ensures ctx.kubeVersion == "" && ctx.parse == parse
    ensures |Anonymous(Split(ruleSet, def), ctx)| >= 2 && |Findings("", def, ctx)| <= 1
  {
    var doc: Document := map["apiVersion" := Scalar("string", e.apiVersion), "kind" := Scalar("string", e.kind)];
    ctx := Context([doc], "", parse);
    assert FindingsUpTo("", def, ctx, 1) == FindingsUpTo("", def, ctx, 0) + DocFindings("", def, ctx, doc);
    KeyOrderMembers(def.removedAPIs);
    var keys := KeyOrder(def.removedAPIs);
    assert GroupOf(e) in keys && GroupOf(f) in keys;
    ReportsPerGroup(ruleSet, def, ctx, keys, e, f);
  }

  lemma {:induction false} ReportsPerGroup(ruleSet: string, def: RuleDef, ctx: Context, keys: seq<GroupKey>,
                                           e: Entry, f: Entry)
    requires e in def.removedAPIs && f in def.removedAPIs
    requires e.apiVersion == f.apiVersion && e.kind == f.kind && e.removedIn != f.removedIn
    requires ctx.kubeVersion == "" && |ctx.docs| == 1
    requires StringField(ctx.docs[0], "apiVersion") == e.apiVersion && StringField(ctx.docs[0], "kind") == e.kind
    ensures |Anonymous(SubRules(ruleSet, def, keys), ctx)| >=
      (if GroupOf(e) in keys then 1 else 0) + (if GroupOf(f) in keys then 1 else 0)
    decreases |keys|
  {
    if keys != [] {
      hide Findings, SubRule, StringField;
      var front, last := keys[..|keys| - 1], keys[|keys| - 1];
      assert keys == front + [last];
      ReportsPerGroup(ruleSet, def, ctx, front, e, f);
      var rules := SubRules(ruleSet, def, keys);
      assert rules[..|rules| - 1] == SubRules(ruleSet, def, front);
      if last == GroupOf(e) {
        GroupReports(ruleSet, def, ctx, e);
      } else if last == GroupOf(f) {
        GroupReports(ruleSet, def, ctx, f);
      }
    }
  }

  lemma GroupReports(ruleSet: string, def: RuleDef, ctx: Context, e: Entry)
    requires e in def.removedAPIs && ctx.kubeVersion == "" && |ctx.docs| == 1
    requires StringField(ctx.docs[0], "apiVersion") == e.apiVersion && StringField(ctx.docs[0], "kind") == e.kind
    ensures |Findings("", SubRule(ruleSet, def, GroupOf(e)).def, ctx)| >= 1
  {
    hide Hit, Group, StringField;
    var sub := SubRule(ruleSet, def, GroupOf(e)).def;
    GroupMembers(def.removedAPIs, GroupOf(e), e);
    HitExists(sub.removedAPIs, ctx.parse, e);
    assert FindingsUpTo("", sub, ctx, 1) == FindingsUpTo("", sub, ctx, 0) + DocFindings("", sub, ctx, ctx.docs[0]);
  }

  // --------------------------------------------------------------- rule IDs

  // Two groups share an ID exactly when version, dash and kind spell the same.
  lemma SplitIdsCoincideIff(id: string, k: GroupKey, l: GroupKey)
    ensures SplitId(id, k) == SplitId(id, l) <==> k.0 + "-" + k.1 == l.0 + "-" + l.1
  {
    IdSuffix(id, k);
    IdSuffix(id, l);
  }

  lemma IdSuffix(id: string, k: GroupKey)
    ensures SplitId(id, k) == id + "_" + (k.0 + "-" + k.1)
    ensures SplitId(id, k)[|id| + 1..] == k.0 + "-" + k.1
  {
    assert SplitId(id, k) == id + "_" + (k.0 + "-" + k.1);
  }

  // Each removed API gets an ID of its own, so it can be disabled alone: the
  // IDs tell all groups apart when no kind contains a dash.
  lemma SplitIdsDistinct(id: string, k: GroupKey, l: GroupKey)
    requires '-' !in k.1 && '-' !in l.1 && SplitId(id, k) == SplitId(id, l)
    ensures k == l
  {
    LastMark(id + "_" + k.0, k.1, id + "_" + l.0, l.1, '-');
    var p := id + "_";
    assert k.0 == (p + k.0)[|p|..] && l.0 == (p + l.0)[|p|..];
  }

  // --------------------------------------------------------- target versions

  // A newer target flags at least the documents an older one flags.
  lemma {:induction false} NewerTargetFlagsMore(entries: seq<Entry>, earlier: real, later: real,
                                                parse: string -> Option<real>, av: string, kind: string)
    requires earlier <= later && Hit(entries, Some(earlier), parse, av, kind).Some?
    ensures Hit(entries, Some(later), parse, av, kind).Some?
    ensures Consistent(entries) ==>
      Hit(entries, Some(later), parse, av, kind) == Hit(entries, Some(earlier), parse, av, kind)
  {
    var front, last := entries[..|entries| - 1], entries[|entries| - 1];
    assert entries == front + [last];
    if Flags(last, av, kind) {
      if !Active(last, Some(earlier), parse) {
        NewerTargetFlagsMore(front, earlier, later, parse, av, kind);
        HitIsListed(front, Some(earlier), parse, av, kind);
        var hit := Hit(front, Some(earlier), parse, av, kind).value;
        assert hit.removedIn != last.removedIn;
        assert hit in entries && last in entries;
        assert !Consistent(entries);
      }
    } else {
      NewerTargetFlagsMore(front, earlier, later, parse, av, kind);
    }
  }

  // Both targets parse, and the newer is no lower.
  predicate Raises(parse: string -> Option<real>, older: string, newer: string) {
    && older != "" && parse(older).Some?
    && newer != "" && parse(newer).Some?
    && parse(older).value <= parse(newer).value
  }

  // Some target below `at` makes e active: its own removal version if that
  // parses, and otherwise any target that parses.
  ghost predicate ActiveBelow(e: Entry, parse: string -> Option<real>, at: real) {
    match parse(e.removedIn)
    case Some(removed) => removed < at
    case None => exists w :: w != "" && parse(w).Some? && parse(w).value < at
  }

  // Entry j is listed after entry i of the same API and removed later; and no
  // entry listed after j hides it from a target at its own removal version.
  ghost predicate Overtakes(entries: seq<Entry>, parse: string -> Option<real>, i: nat, j: nat)
    requires i < j < |entries|
  {
    var later := entries[j];
    && Flags(entries[i], later.apiVersion, later.kind)
    && parse(later.removedIn).Some?
    && ActiveBelow(entries[i], parse, parse(later.removedIn).value)
    && forall k :: j < k < |entries| && Flags(entries[k], later.apiVersion, later.kind) ==>
         !Active(entries[k], parse(later.removedIn), parse)
  }

  ghost predicate NeverOvertaken(entries: seq<Entry>, parse: string -> Option<real>) {
    forall i: nat, j: nat :: i < j < |entries| ==> !Overtakes(entries, parse, i, j)
  }

  // A table that lists no API with two removal versions is one of these.
  lemma ConsistentNeverOvertaken(entries: seq<Entry>, parse: string -> Option<real>)
    requires Consistent(entries)
    ensures NeverOvertaken(entries, parse)
  {
    forall i: nat, j: nat | i < j < |entries| ensures !Overtakes(entries, parse, i, j) {
      var e, f := entries[i], entries[j];
      if Flags(e, f.apiVersion, f.kind) { assert e in entries && f in entries; }
    }
  }

  // Entry i is the one the index ends up with.
  ghost predicate LastActive(entries: seq<Entry>, target: Option<real>, parse: string -> Option<real>,
                             av: string, kind: string, i: nat)
  {
    && i < |entries| && Flags(entries[i], av, kind) && Active(entries[i], target, parse)
    && forall k :: i < k < |entries| ==> !(Flags(entries[k], av, kind) && Active(entries[k], target, parse))
  }

  lemma {:induction false} HitIsLastActive(entries: seq<Entry>, target: Option<real>, parse: string -> Option<real>,
                                           av: string, kind: string) returns (i: nat)
    requires Hit(entries, target, parse, av, kind).Some?
    ensures LastActive(entries, target, parse, av, kind, i)
    ensures Hit(entries, target, parse, av, kind) == Some(entries[i])
  {
    i := |entries| - 1;
    if !(Flags(entries[i], av, kind) && Active(entries[i], target, parse)) {
      i := HitIsLastActive(entries[..|entries| - 1], target, parse, av, kind);
    }
  }

  lemma {:induction false} LastActiveIsHit(entries: seq<Entry>, target: Option<real>, parse: string -> Option<real>,
                                           av: string, kind: string, i: nat)
    requires LastActive(entries, target, parse, av, kind, i)
    ensures Hit(entries, target, parse, av, kind) == Some(entries[i])
  {
    if i < |entries| - 1 {
      LastActiveIsHit(entries[..|entries| - 1], target, parse, av, kind, i);
    }
  }

  // Where nothing is overtaken, raising the target keeps the entry that flags.
  lemma HitKept(entries: seq<Entry>, older: string, newer: string, parse: string -> Option<real>,
                av: string, kind: string)
    requires NeverOvertaken(entries, parse) && Raises(parse, older, newer)
    requires Hit(entries, parse(older), parse, av, kind).Some?
    ensures Hit(entries, parse(newer), parse, av, kind) == Hit(entries, parse(older), parse, av, kind)
  {
    NewerTargetFlagsMore(entries, parse(older).value, parse(newer).value, parse, av, kind);
    var i := HitIsLastActive(entries, parse(older), parse, av, kind);
    var j := HitIsLastActive(entries, parse(newer), parse, av, kind);
    if i < j {
      assert Overtakes(entries, parse, i, j);
    }
  }

  // Where j overtakes i, some rise of the target moves a flag to entry j, from
  // an entry with another removal version.
  lemma HitMoves(entries: seq<Entry>, parse: string -> Option<real>, i: nat, j: nat)
    returns (older: string, newer: string, before: Entry)
    requires parse("").None? && i < j < |entries| && Overtakes(entries, parse, i, j)
    ensures Raises(parse, older, newer)
    ensures var later := entries[j];
      && Hit(entries, parse(older), parse, later.apiVersion, later.kind) == Some(before)
      && Hit(entries, parse(newer), parse, later.apiVersion, later.kind) == Some(later)
      && before.removedIn != later.removedIn
  {
    var later := entries[j];
    var av, kind := later.apiVersion, later.kind;
    newer := later.removedIn;
    if parse(entries[i].removedIn).Some? {
      older := entries[i].removedIn;
    } else {
      older :| older != "" && parse(older).Some? && parse(older).value < parse(newer).value;
    }
    LastActiveIsHit(entries, parse(newer), parse, av, kind, j);
    SomeHit(entries, parse(older), parse, av, kind, i);
    HitIsListed(entries, parse(older), parse, av, kind);
    before := Hit(entries, parse(older), parse, av, kind).value;
  }

  lemma {:induction false} SomeHit(entries: seq<Entry>, target: Option<real>, parse: string -> Option<real>,
                                   av: string, kind: string, i: nat)
    requires i < |entries| && Flags(entries[i], av, kind) && Active(entries[i], target, parse)
    ensures Hit(entries, target, parse, av, kind).Some?
  {
    if i < |entries| - 1 {
      SomeHit(entries[..|entries| - 1], target, parse, av, kind, i);
    }
  }

  // Where nothing is overtaken, and always for a project rule, raising a target
  // version that parses keeps every finding, message included.
  lemma {:induction false} NewerTargetKeepsFindings(id: string, def: RuleDef, ctx: Context, newer: string, n: nat)
    requires def.project != "" || NeverOvertaken(def.removedAPIs, ctx.parse)
    requires n <= |ctx.docs| && Raises(ctx.parse, ctx.kubeVersion, newer)
    ensures multiset(FindingsUpTo(id, def, ctx, n)) <= multiset(FindingsUpTo(id, def, ctx.(kubeVersion := newer), n))
    decreases n
  {
    if n > 0 {
      hide Hit, NeverOvertaken;
      NewerTargetKeepsFindings(id, def, ctx, newer, n - 1);
      var doc, next := ctx.docs[n - 1], ctx.(kubeVersion := newer);
      if def.project == "" && DocHit(def, ctx, doc).Some? {
        HitKept(
          def.removedAPIs, ctx.kubeVersion, newer, ctx.parse,
          StringField(doc, "apiVersion"), StringField(doc, "kind"));
      }
      assert multiset(DocFindings(id, def, ctx, doc)) <= multiset(DocFindings(id, def, next, doc));
    }
  }

  // On any documents, no rise of the target loses a finding.
  ghost predicate RisesKeepFindings(id: string, def: RuleDef, parse: string -> Option<real>) {
    forall docs, older, newer :: Raises(parse, older, newer) ==>
      var before := Findings(id, def, Context(docs, older, parse));
      var after := Findings(id, def, Context(docs, newer, parse));
      multiset(before) <= multiset(after)
  }

  // One document of an API, as a context's only one.
  function OneDoc(e: Entry, version: string, parse: string -> Option<real>): Context {
    Context([map["apiVersion" := Scalar("string", e.apiVersion), "kind" := Scalar("string", e.kind)]], version, parse)
  }

  lemma OneDocFindings(id: string, def: RuleDef, e: Entry, version: string, parse: string -> Option<real>)
    ensures var ctx := OneDoc(e, version, parse); Findings(id, def, ctx) == DocFindings(id, def, ctx, ctx.docs[0])
    ensures var doc := OneDoc(e, version, parse).docs[0];
      StringField(doc, "apiVersion") == e.apiVersion && StringField(doc, "kind") == e.kind
  {
    var ctx := OneDoc(e, version, parse);
    assert FindingsUpTo(id, def, ctx, 1) == FindingsUpTo(id, def, ctx, 0) + DocFindings(id, def, ctx, ctx.docs[0]);
  }

  // An overtaken entry loses its finding to the one that overtakes it: the
  // document stays flagged, under the later of the two removals.
  lemma OvertakingReplacesFinding(id: string, def: RuleDef, parse: string -> Option<real>, i: nat, j: nat)
    returns (older: string, newer: string, before: Entry)
    requires parse("").None? && def.project == ""
    requires i < j < |def.removedAPIs| && Overtakes(def.removedAPIs, parse, i, j)
    ensures Raises(parse, older, newer)
    ensures var later := def.removedAPIs[j];
      var doc := OneDoc(later, older, parse).docs[0];
      && before.removedIn != later.removedIn
      && Findings(id, def, OneDoc(later, older, parse)) == [Report(id, def, doc, before)]
      && Findings(id, def, OneDoc(later, newer, parse)) == [Report(id, def, doc, later)]
  {
    hide Hit, Overtakes;
    older, newer, before := HitMoves(def.removedAPIs, parse, i, j);
    OneDocFindings(id, def, def.removedAPIs[j], older, parse);
    OneDocFindings(id, def, def.removedAPIs[j], newer, parse);
  }

  // No rise of the target ever loses a finding exactly when the rule belongs to
  // a project or no entry of its table is overtaken. semver rejects "".
  lemma NewerTargetKeepsFindingsIff(id: string, def: RuleDef, parse: string -> Option<real>)
    requires parse("").None?
    ensures RisesKeepFindings(id, def, parse) <==> def.project != "" || NeverOvertaken(def.removedAPIs, parse)
  {
    hide Findings;
    if def.project != "" || NeverOvertaken(def.removedAPIs, parse) {
      forall docs, older, newer | Raises(parse, older, newer)
        ensures multiset(Findings(id, def, Context(docs, older, parse)))
             <= multiset(Findings(id, def, Context(docs, newer, parse)))
      {
        AllFindingsKept(id, def, docs, older, newer, parse);
      }
    } else {
      var i: nat, j: nat :| i < j < |def.removedAPIs| && Overtakes(def.removedAPIs, parse, i, j);
      var older, newer, before := OvertakingReplacesFinding(id, def, parse, i, j);
      var later := def.removedAPIs[j];
      var doc := OneDoc(later, older, parse).docs[0];
      assert OneDoc(later, older, parse) == Context([doc], older, parse);
      assert OneDoc(later, newer, parse) == Context([doc], newer, parse);
    }
  }

  lemma AllFindingsKept(id: string, def: RuleDef, docs: seq<Document>, older: string, newer: string,
                        parse: string -> Option<real>)
    requires def.project != "" || NeverOvertaken(def.removedAPIs, parse)
    requires Raises(parse, older, newer)
    ensures multiset(Findings(id, def, Context(docs, older, parse)))
         <= multiset(Findings(id, def, Context(docs, newer, parse)))
  {
    NewerTargetKeepsFindings(id, def, Context(docs, older, parse), newer, |docs|);
  }

  // The shortest such table. Listed the other way round it is as inconsistent,
  // and nothing is overtaken.
  lemma InconsistentCanReplaceFinding(parse: string -> Option<real>)
    requires parse("1.22") == Some(1.22) && parse("1.25") == Some(1.25)
    ensures var e, f := Entry("v1", "K", "1.22", "a"), Entry("v1", "K", "1.25", "b");
      && Overtakes([e, f], parse, 0, 1)
      && !Consistent([f, e]) && NeverOvertaken([f, e], parse)
    ensures
      var e, f := Entry("v1", "K", "1.22", "a"), Entry("v1", "K", "1.25", "b");
      var def := RuleDef("r", "error", "removedAPI", "", "", "", [e, f]);
      var before, after := OneDoc(e, "1.22", parse), OneDoc(e, "1.25", parse);
      && Findings("r", def, before) == [Report("r", def, before.docs[0], e)]
      && Findings("r", def, after) == [Report("r", def, after.docs[0], f)]
  {
    var e, f := Entry("v1", "K", "1.22", "a"), Entry("v1", "K", "1.25", "b");
    var def := RuleDef("r", "error", "removedAPI", "", "", "", [e, f]);
    assert e in [f, e] && f in [f, e];
    LastActiveIsHit([e, f], parse("1.22"), parse, "v1", "K", 0);
    LastActiveIsHit([e, f], parse("1.25"), parse, "v1", "K", 1);
    hide Hit;
    OneDocFindings("r", def, e, "1.22", parse);
    OneDocFindings("r", def, e, "1.25", parse);
  }
}
