// internal/snapshot/snapshot.go, lines 116-197: the sorted-key node tree whose
// text a snapshot comparison looks at.
module SnapshotNodes {
  import opened Values

  // A yaml.Node. Scalars are assumed to be encoded injectively and never as
  // the null node, so a scalar node keeps the scalar.
  datatype Node =
    | NullNode
    | ScalarNode(kind: string, text: string)
    | SequenceNode(content: seq<Node>)
    | MappingNode(content: seq<Node>)   // keys and values alternate

  // ------------------------------------------------------------ string order

  // Byte-wise lexicographic order, as sort.Strings has it.
  predicate Less(a: string, b: string) {
    if b == "" then false
    else if a == "" then true
    else a[0] < b[0] || (a[0] == b[0] && Less(a[1..], b[1..]))
  }

  lemma {:induction false} LessTrichotomy(a: string, b: string)
    ensures Less(a, b) || a == b || Less(b, a)
    ensures !(Less(a, b) && Less(b, a)) && !(Less(a, b) && a == b)
  {
    if a != "" && b != "" {
      LessTrichotomy(a[1..], b[1..]);
      assert a == [a[0]] + a[1..] && b == [b[0]] + b[1..];
    }
  }

  lemma {:induction false} LessTransitive(a: string, b: string, c: string)
    requires Less(a, b) && Less(b, c)
    ensures Less(a, c)
  {
    if a != "" { if a[0] == b[0] == c[0] { LessTransitive(a[1..], b[1..], c[1..]); } }
  }

  lemma HeadOfPrefix(a: string, b: string, i: nat)
    requires i <= |a| && i <= |b| && a[..i] == b[..i]
    ensures i > 0 ==> a[0] == b[0]
  {
    if i > 0 { assert a[..i][0] == a[0] && b[..i][0] == b[0]; }
  }

  // The string that ends first, or is smaller where they first differ.
  lemma {:induction false} LessIsLexicographic(a: string, b: string)
    ensures Less(a, b) <==>
      || (a != b && a <= b)
      || exists i :: 0 <= i < |a| && i < |b| && a[..i] == b[..i] && a[i] < b[i]
  {
    if a != "" && b != "" {
      LessIsLexicographic(a[1..], b[1..]);
      assert a == [a[0]] + a[1..] && b == [b[0]] + b[1..];
      if a[0] < b[0] {
        assert a[..0] == b[..0];
      } else if a[0] == b[0] {
        if i :| 0 <= i < |a[1..]| && i < |b[1..]| && a[1..][..i] == b[1..][..i] && a[1..][i] < b[1..][i] {
          assert a[..i + 1] == [a[0]] + a[1..][..i] && b[..i + 1] == [b[0]] + b[1..][..i];
          assert a[i + 1] < b[i + 1];
        }
        if i :| 0 <= i < |a| && i < |b| && a[..i] == b[..i] && a[i] < b[i] {
          assert a[1..][..i - 1] == a[..i][1..] && b[1..][..i - 1] == b[..i][1..];
        }
      } else {
        forall i | 0 <= i < |a| && i < |b| && a[..i] == b[..i] ensures i == 0 { HeadOfPrefix(a, b, i); }
      }
    }
  }

  ghost predicate Increasing(s: seq<string>) {
    forall i, j :: 0 <= i < j < |s| ==> Less(s[i], s[j])
  }

  // The sorted keys are determined by the set of keys.
  lemma {:induction false} IncreasingIsUnique(s: seq<string>, t: seq<string>)
    requires Increasing(s) && Increasing(t) && forall k :: k in s <==> k in t
    ensures s == t
    decreases |s|
  {
    if s == [] {
      HasMember(t);
    } else {
      assert s[0] in t && t != [];
      assert t[0] in s;
      LessTrichotomy(s[0], t[0]);
      assert s[0] == t[0];
      forall k ensures k in s[1..] <==> k in t[1..] {
        TailMembers(s, k);
        TailMembers(t, k);
      }
      IncreasingIsUnique(s[1..], t[1..]);
      assert s == [s[0]] + s[1..] && t == [t[0]] + t[1..];
    }
  }

  lemma HasMember(s: seq<string>)
    ensures s != [] ==> exists k :: k in s
  {
    if s != [] { assert s[0] in s; }
  }

  lemma TailMembers(s: seq<string>, k: string)
    requires Increasing(s) && s != []
    ensures k in s[1..] <==> k in s && k != s[0]
  {
    LessTrichotomy(s[0], s[0]);
  }

  // Where k goes in a sorted slice.
  function Insert(s: seq<string>, k: string): seq<string> {
    if s == [] || Less(k, s[0]) then [k] + s else [s[0]] + Insert(s[1..], k)
  }

  lemma {:induction false} InsertKeepsOrder(s: seq<string>, k: string)
    requires Increasing(s) && k !in s
    ensures Increasing(Insert(s, k))
    ensures forall l :: l in Insert(s, k) <==> l in s || l == k
  {
    if s != [] {
      if Less(k, s[0]) {
        forall j | 0 < j < |s| ensures Less(k, s[j]) { LessTransitive(k, s[0], s[j]); }
      } else {
        LessTrichotomy(k, s[0]);
        InsertKeepsOrder(s[1..], k);
        forall l | l in Insert(s[1..], k) ensures Less(s[0], l) {
          if l != k { TailMembers(s, l); }
        }
        assert s == [s[0]] + s[1..];
      }
    }
  }

  ghost function SortedKeys(keys: set<string>): (s: seq<string>)
    ensures Increasing(s) && forall k :: k in s <==> k in keys
  {
    if keys == {} then []
    else
      var k :| k in keys;
      InsertKeepsOrder(SortedKeys(keys - {k}), k);
      Insert(SortedKeys(keys - {k}), k)
  }

  // sortedKeys: collected in whatever order Go ranges over the map, then
  // sorted (the library sort is written out as insertion).
  method CollectSortedKeys(m: map<string, Value>) returns (keys: seq<string>)
    ensures keys == SortedKeys(m.Keys)
  {
    keys := [];
    var rest := m.Keys;
    while rest != {}
      invariant rest <= m.Keys
      invariant Increasing(keys) && forall k :: k in keys <==> k in m.Keys - rest
      decreases rest
    {
      var k :| k in rest;
      rest := rest - {k};
      InsertKeepsOrder(keys, k);
      keys := Insert(keys, k);
    }
    IncreasingIsUnique(keys, SortedKeys(m.Keys));
  }

  // --------------------------------------------------------------- node tree

  ghost function ToNode(v: Value): Node
    decreases v
  {
    match v
    case Null => NullNode
    case Scalar(kind, text) => ScalarNode(kind, text)
    case List(items) => SequenceNode(seq(|items|, i requires 0 <= i < |items| => ToNode(items[i])))
    case Map(m) =>
      var keys := SortedKeys(m.Keys);
      MappingNode(seq(2 * |keys|, i requires 0 <= i < 2 * |keys| =>
        if i % 2 == 0 then ScalarNode("!!str", keys[i / 2])
        else assert keys[i / 2] in m; ToNode(m[keys[i / 2]])))
  }

  lemma MapShape(m: map<string, Value>)
    ensures ToNode(Map(m)).MappingNode? && |ToNode(Map(m)).content| == 2 * |SortedKeys(m.Keys)|
  {
  }

  lemma MapContent(m: map<string, Value>, i: nat)
    requires i < |SortedKeys(m.Keys)|
    ensures SortedKeys(m.Keys)[i] in m
    ensures ToNode(Map(m)).MappingNode? && |ToNode(Map(m)).content| == 2 * |SortedKeys(m.Keys)|
    ensures ToNode(Map(m)).content[2 * i] == ScalarNode("!!str", SortedKeys(m.Keys)[i])
    ensures ToNode(Map(m)).content[2 * i + 1] == ToNode(m[SortedKeys(m.Keys)[i]])
  {
    hide SortedKeys;
  }

  method ToYAMLNode(v: Value) returns (node: Node)
    ensures node == ToNode(v)
    decreases v, 1
  {
    match v {
      case Map(m) =>
        node := MapToYAMLNode(m);
      case List(items) =>
        var content: seq<Node> := [];
        for i := 0 to |items|
          invariant |content| == i
          invariant forall j :: 0 <= j < i ==> content[j] == ToNode(items[j])
        {
          var item := ToYAMLNode(items[i]);
          content := content + [item];
        }
        return SequenceNode(content);
      case Null =>
        return NullNode;
      case Scalar(kind, text) =>
        return ScalarNode(kind, text);
    }
  }

  method MapToYAMLNode(m: map<string, Value>) returns (node: Node)
    ensures node == ToNode(Map(m))
    decreases Map(m), 0
  {
    hide ToNode, SortedKeys;
    var keys := CollectSortedKeys(m);
    var content: seq<Node> := [];
    MapShape(m);
    ghost var whole := ToNode(Map(m)).content;
    for i := 0 to |keys|
      invariant content == whole[..2 * i]
    {
      MapContent(m, i);
      var value := ToYAMLNode(m[keys[i]]);
      content := content + [ScalarNode("!!str", keys[i]), value];
    }
    assert whole[..2 * |keys|] == whole;
    return MappingNode(content);
  }

  // Equal trees mean equal values: the comparison decides structural equality.
  lemma {:induction false} NodesDecideEquality(v: Value, w: Value)
    ensures ToNode(v) == ToNode(w) <==> v == w
    decreases v
  {
    if ToNode(v) == ToNode(w) {
      match v {
        case Map(m) => MapNodesDecideEquality(m, w.fields);
        case List(items) =>
          assert |items| == |ToNode(v).content| == |w.items|;
          forall i | 0 <= i < |items| ensures items[i] == w.items[i] {
            assert ToNode(v).content[i] == ToNode(items[i]) && ToNode(w).content[i] == ToNode(w.items[i]);
            NodesDecideEquality(items[i], w.items[i]);
          }
        case _ =>
      }
    }
  }

  lemma {:induction false} MapNodesDecideEquality(m: map<string, Value>, n: map<string, Value>)
    requires ToNode(Map(m)) == ToNode(Map(n))
    ensures m == n
    decreases Map(m), 0
  {
    var keys, others := SortedKeys(m.Keys), SortedKeys(n.Keys);
    hide ToNode, SortedKeys;
    MapShape(m);
    MapShape(n);
    forall i: nat | i < |keys| ensures keys[i] == others[i] {
      MapContent(m, i);
      MapContent(n, i);
    }
    assert keys == others;
    assert m.Keys == n.Keys;
    forall k | k in m ensures m[k] == n[k] {
      var i: nat :| i < |keys| && keys[i] == k;
      MapContent(m, i);
      MapContent(n, i);
      NodesDecideEquality(m[k], n[k]);
    }
  }
}
