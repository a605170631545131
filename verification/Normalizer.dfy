// internal/snapshot/normalize.go: what a snapshot ignores in a document.
module Normalizer {
  import opened Values

  const HELM_ANNOTATIONS: set<string> := {
    "helm.sh/hook-weight",
    "helm.sh/hook",
    "helm.sh/hook-delete-policy",
    "kubectl.kubernetes.io/last-applied-configuration"
  }

  predicate NullTimestamp(key: string, v: Value) {
    key == "creationTimestamp" && v.Null?
  }

  // ---------------------------------------------------------- specification

  function Normalize(v: Value): Value
    decreases v, 0
  {
    match v
    case Map(m) =>
      Map(map k | k in m && !NullTimestamp(k, m[k]) ::
            if k == "metadata" then NormalizeMetadata(m[k]) else Normalize(m[k]))
    case List(items) => List(seq(|items|, i requires 0 <= i < |items| => Normalize(items[i])))
    case _ => v
  }

  function NormalizeMetadata(v: Value): Value
    decreases v, 1
  {
    if !v.Map? then Normalize(v)
    else
      var m := v.fields;
      Map(map k | k in m && !NullTimestamp(k, m[k]) ::
            if k == "annotations" then NormalizeAnnotations(m[k]) else Normalize(m[k]))
  }

  function NormalizeAnnotations(v: Value): Value
    decreases v, 1
  {
    if !v.Map? then Normalize(v)
    else
      var m := v.fields;
      var result := map k | k in m && k !in HELM_ANNOTATIONS :: Normalize(m[k]);
      if result == map[] then Null else Map(result)
  }

  // ------------------------------------------------------------- operations

  method NormalizeValue(v: Value) returns (r: Value)
    ensures r == Normalize(v)
    decreases v, 0
  {
    match v {
      case Map(m) =>
        var result: map<string, Value> := map[];
        var rest := m.Keys;
        while rest != {}
          invariant rest <= m.Keys
          invariant result == (map k | k in m && k !in rest && !NullTimestamp(k, m[k]) ::
            if k == "metadata" then NormalizeMetadata(m[k]) else Normalize(m[k]))
          decreases rest
        {
          var k :| k in rest;
          rest := rest - {k};
          if k == "creationTimestamp" && m[k].Null? {
            continue;
          }
          var item;
          if k == "metadata" {
            item := NormalizeMetadataValue(m[k]);
          } else {
            item := NormalizeValue(m[k]);
          }
          result := result[k := item];
        }
        return Map(result);
      case List(items) =>
        var result := [];
        for i := 0 to |items|
          invariant |result| == i && forall j :: 0 <= j < i ==> result[j] == Normalize(items[j])
        {
          var item := NormalizeValue(items[i]);
          result := result + [item];
        }
        return List(result);
      case _ =>
        return v;
    }
  }

  method NormalizeMetadataValue(v: Value) returns (r: Value)
    ensures r == NormalizeMetadata(v)
    decreases v, 1
  {
    if !v.Map? {
      r := NormalizeValue(v);
      return;
    }
    var m := v.fields;
    var result: map<string, Value> := map[];
    var rest := m.Keys;
    while rest != {}
      invariant rest <= m.Keys
      invariant result == (map k | k in m && k !in rest && !NullTimestamp(k, m[k]) ::
        if k == "annotations" then NormalizeAnnotations(m[k]) else Normalize(m[k]))
      decreases rest
    {
      var k :| k in rest;
      rest := rest - {k};
      if k == "annotations" {
        var annotations := NormalizeAnnotationsValue(m[k]);
        result := result[k := annotations];
        continue;
      }
      if k == "creationTimestamp" && m[k].Null? {
        continue;
      }
      var item := NormalizeValue(m[k]);
      result := result[k := item];
    }
    return Map(result);
  }

  method NormalizeAnnotationsValue(v: Value) returns (r: Value)
    ensures r == NormalizeAnnotations(v)
    decreases v, 1
  {
    if !v.Map? {
      r := NormalizeValue(v);
      return;
    }
    var m := v.fields;
    var result: map<string, Value> := map[];
    var rest := m.Keys;
    while rest != {}
      invariant rest <= m.Keys
      invariant result == map k | k in m && k !in rest && k !in HELM_ANNOTATIONS :: Normalize(m[k])
      decreases rest
    {
      var k :| k in rest;
      rest := rest - {k};
      if k in HELM_ANNOTATIONS {
        continue;
      }
      var item := NormalizeValue(m[k]);
      result := result[k := item];
    }
    assert result == map k | k in m && k !in HELM_ANNOTATIONS :: Normalize(m[k]);
    if |result| == 0 {
      return Null;
    }
    return Map(result);
  }

  // ------------------------------------------------------------ normal forms

  // Documents with nothing to strip: no null creationTimestamp, and under
  // metadata.annotations neither Helm annotations nor an empty map.
  ghost predicate IsNormal(v: Value)
    decreases v, 0
  {
    match v
    case Map(m) => forall k :: k in m ==>
      !NullTimestamp(k, m[k]) && (if k == "metadata" then IsNormalMetadata(m[k]) else IsNormal(m[k]))
    case List(items) => forall i :: 0 <= i < |items| ==> IsNormal(items[i])
    case _ => true
  }

  ghost predicate IsNormalMetadata(v: Value)
    decreases v, 1
  {
    if !v.Map? then IsNormal(v)
    else forall k :: k in v.fields ==>
      !NullTimestamp(k, v.fields[k]) &&
      (if k == "annotations" then IsNormalAnnotations(v.fields[k]) else IsNormal(v.fields[k]))
  }

  ghost predicate IsNormalAnnotations(v: Value)
    decreases v, 1
  {
    if !v.Map? then IsNormal(v)
    else
      && v.fields != map[]
      && forall k :: k in v.fields ==> k !in HELM_ANNOTATIONS && IsNormal(v.fields[k])
  }

  lemma {:induction false} NormalizeIsNormal(v: Value)
    ensures IsNormal(Normalize(v))
    ensures !v.Null? ==> !Normalize(v).Null?
    decreases v, 0
  {
    match v {
      case Map(m) =>
        forall k | k in m && !NullTimestamp(k, m[k])
          ensures !NullTimestamp(k, Normalize(v).fields[k])
          ensures if k == "metadata" then IsNormalMetadata(NormalizeMetadata(m[k])) else IsNormal(Normalize(m[k]))
        {
          if k == "metadata" { NormalizeMetadataIsNormal(m[k]); } else { NormalizeIsNormal(m[k]); }
        }
      case List(items) =>
        forall i | 0 <= i < |items| ensures IsNormal(Normalize(items[i])) { NormalizeIsNormal(items[i]); }
      case _ =>
    }
  }

  lemma {:induction false} NormalizeMetadataIsNormal(v: Value)
    ensures IsNormalMetadata(NormalizeMetadata(v))
    decreases v, 1
  {
    if v.Map? {
      var m := v.fields;
      forall k | k in m && !NullTimestamp(k, m[k])
        ensures !NullTimestamp(k, NormalizeMetadata(v).fields[k])
        ensures if k == "annotations" then IsNormalAnnotations(NormalizeAnnotations(m[k]))
                else IsNormal(Normalize(m[k]))
      {
        NormalizeIsNormal(m[k]);
        if k == "annotations" { NormalizeAnnotationsIsNormal(m[k]); }
      }
    } else {
      NormalizeIsNormal(v);
    }
  }

  lemma {:induction false} NormalizeAnnotationsIsNormal(v: Value)
    ensures IsNormalAnnotations(NormalizeAnnotations(v))
    decreases v, 1
  {
    if v.Map? {
      forall k | k in v.fields ensures IsNormal(Normalize(v.fields[k])) { NormalizeIsNormal(v.fields[k]); }
    } else {
      NormalizeIsNormal(v);
    }
  }

  lemma {:induction false} NormalIsFixed(v: Value)
    requires IsNormal(v)
    ensures Normalize(v) == v
    decreases v, 0
  {
    match v {
      case Map(m) =>
        forall k | k in m ensures Normalize(v).fields[k] == m[k] {
          if k == "metadata" { NormalMetadataIsFixed(m[k]); } else { NormalIsFixed(m[k]); }
        }
      case List(items) =>
        forall i | 0 <= i < |items| ensures Normalize(items[i]) == items[i] { NormalIsFixed(items[i]); }
      case _ =>
    }
  }

  lemma {:induction false} NormalMetadataIsFixed(v: Value)
    requires IsNormalMetadata(v)
    ensures NormalizeMetadata(v) == v
    decreases v, 1
  {
    if v.Map? {
      forall k | k in v.fields ensures NormalizeMetadata(v).fields[k] == v.fields[k] {
        if k == "annotations" { NormalAnnotationsAreFixed(v.fields[k]); } else { NormalIsFixed(v.fields[k]); }
      }
    } else {
      NormalIsFixed(v);
    }
  }

  lemma {:induction false} NormalAnnotationsAreFixed(v: Value)
    requires IsNormalAnnotations(v)
    ensures NormalizeAnnotations(v) == v
    decreases v, 1
  {
    if v.Map? {
      var m := v.fields;
      forall k | k in m ensures Normalize(m[k]) == m[k] { NormalIsFixed(m[k]); }
      assert m == map k | k in m && k !in HELM_ANNOTATIONS :: Normalize(m[k]);
    } else {
      NormalIsFixed(v);
    }
  }

  // Normalize is idempotent, and leaves alone exactly the normal documents.
  lemma NormalizeFixesExactlyNormal(v: Value)
    ensures Normalize(Normalize(v)) == Normalize(v)
    ensures Normalize(v) == v <==> IsNormal(v)
  {
    NormalizeIsNormal(v);
    NormalIsFixed(Normalize(v));
    if IsNormal(v) { NormalIsFixed(v); }
  }

  // ------------------------------------------------------- only noise is lost

  // w is v with some of what may be stripped missing, and nothing else changed.
  ghost predicate Strips(v: Value, w: Value)
    decreases v, 0
  {
    match v
    case Map(m) =>
      && w.Map?
      && w.fields.Keys <= m.Keys
      && (forall k :: k in m && k !in w.fields ==> NullTimestamp(k, m[k]))
      && (forall k :: k in w.fields ==>
            if k == "metadata" then StripsMetadata(m[k], w.fields[k]) else Strips(m[k], w.fields[k]))
    case List(items) =>
      w.List? && |w.items| == |items| && forall i :: 0 <= i < |items| ==> Strips(items[i], w.items[i])
    case _ => w == v
  }

  ghost predicate StripsMetadata(v: Value, w: Value)
    decreases v, 1
  {
    if !v.Map? then Strips(v, w)
    else
      && w.Map?
      && w.fields.Keys <= v.fields.Keys
      && (forall k :: k in v.fields && k !in w.fields ==> NullTimestamp(k, v.fields[k]))
      && (forall k :: k in w.fields ==>
            if k == "annotations" then StripsAnnotations(v.fields[k], w.fields[k])
            else Strips(v.fields[k], w.fields[k]))
  }

  // Annotations of which nothing is left become null.
  ghost predicate StripsAnnotations(v: Value, w: Value)
    decreases v, 1
  {
    if !v.Map? then Strips(v, w)
    else if w.Null? then v.fields.Keys <= HELM_ANNOTATIONS
    else
      && w.Map?
      && w.fields.Keys <= v.fields.Keys
      && v.fields.Keys - w.fields.Keys <= HELM_ANNOTATIONS
      && (forall k :: k in w.fields ==> Strips(v.fields[k], w.fields[k]))
  }

  lemma {:induction false} NormalizeStrips(v: Value)
    ensures Strips(v, Normalize(v))
    decreases v, 0
  {
    match v {
      case Map(m) =>
        forall k | k in m && !NullTimestamp(k, m[k])
          ensures if k == "metadata" then StripsMetadata(m[k], NormalizeMetadata(m[k]))
                  else Strips(m[k], Normalize(m[k]))
        {
          if k == "metadata" { NormalizeMetadataStrips(m[k]); } else { NormalizeStrips(m[k]); }
        }
      case List(items) =>
        forall i | 0 <= i < |items| ensures Strips(items[i], Normalize(items[i])) { NormalizeStrips(items[i]); }
      case _ =>
    }
  }

  lemma {:induction false} NormalizeMetadataStrips(v: Value)
    ensures StripsMetadata(v, NormalizeMetadata(v))
    decreases v, 1
  {
    if v.Map? {
      var m := v.fields;
      forall k | k in m && !NullTimestamp(k, m[k])
        ensures if k == "annotations" then StripsAnnotations(m[k], NormalizeAnnotations(m[k]))
                else Strips(m[k], Normalize(m[k]))
      {
        if k == "annotations" { NormalizeAnnotationsStrips(m[k]); } else { NormalizeStrips(m[k]); }
      }
    } else {
      NormalizeStrips(v);
    }
  }

  lemma {:induction false} NormalizeAnnotationsStrips(v: Value)
    ensures StripsAnnotations(v, NormalizeAnnotations(v))
    decreases v, 1
  {
    if v.Map? {
      var m := v.fields;
      forall k | k in m ensures Strips(m[k], Normalize(m[k])) { NormalizeStrips(m[k]); }
      var kept := map k | k in m && k !in HELM_ANNOTATIONS :: Normalize(m[k]);
      forall k | k in m && k !in HELM_ANNOTATIONS ensures kept != map[] { assert k in kept; }
    } else {
      NormalizeStrips(v);
    }
  }

  lemma {:induction false} StrippedIsNormalized(v: Value, w: Value)
    requires Strips(v, w) && IsNormal(w)
    ensures w == Normalize(v)
    decreases v, 0
  {
    match v {
      case Map(m) =>
        forall k | k in w.fields
          ensures !NullTimestamp(k, m[k]) && Normalize(v).fields[k] == w.fields[k]
        {
          if k == "metadata" {
            StrippedMetadataIsNormalized(m[k], w.fields[k]);
          } else {
            StrippedIsNormalized(m[k], w.fields[k]);
          }
        }
        assert w.fields == Normalize(v).fields;
      case List(items) =>
        forall i | 0 <= i < |items| ensures w.items[i] == Normalize(items[i]) {
          StrippedIsNormalized(items[i], w.items[i]);
        }
        assert w.items == Normalize(v).items;
      case _ =>
    }
  }

  lemma {:induction false} StrippedMetadataIsNormalized(v: Value, w: Value)
    requires StripsMetadata(v, w) && IsNormalMetadata(w)
    ensures w == NormalizeMetadata(v)
    decreases v, 1
  {
    if v.Map? {
      forall k | k in w.fields
        ensures !NullTimestamp(k, v.fields[k]) && NormalizeMetadata(v).fields[k] == w.fields[k]
      {
        if k == "annotations" {
          StrippedAnnotationsAreNormalized(v.fields[k], w.fields[k]);
        } else {
          StrippedIsNormalized(v.fields[k], w.fields[k]);
        }
      }
      assert w.fields == NormalizeMetadata(v).fields;
    } else {
      StrippedIsNormalized(v, w);
    }
  }

  lemma {:induction false} StrippedAnnotationsAreNormalized(v: Value, w: Value)
    requires StripsAnnotations(v, w) && IsNormalAnnotations(w)
    ensures w == NormalizeAnnotations(v)
    decreases v, 1
  {
    if !v.Map? {
      StrippedIsNormalized(v, w);
    } else if w.Map? {
      forall k | k in w.fields ensures Normalize(v.fields[k]) == w.fields[k] {
        StrippedIsNormalized(v.fields[k], w.fields[k]);
      }
      assert w.fields == map k | k in v.fields && k !in HELM_ANNOTATIONS :: Normalize(v.fields[k]);
    }
  }

  // Normalize loses everything it may and nothing more.
  lemma NormalizeIsLargestStripping(v: Value, w: Value)
    ensures w == Normalize(v) <==> Strips(v, w) && IsNormal(w)
  {
    NormalizeIsNormal(v);
    NormalizeStrips(v);
    if Strips(v, w) && IsNormal(w) { StrippedIsNormalized(v, w); }
  }

  // ----------------------------------------------------- what goes, spelled out

  // On a map a null creationTimestamp goes, and values are normalised.
  lemma EntriesOf(m: map<string, Value>)
    ensures Normalize(Map(m)).Map?
    ensures var n := Normalize(Map(m)).fields;
      && (forall k :: k in n <==> k in m && !(k == "creationTimestamp" && m[k] == Null))
      && (forall k :: k in n && k != "metadata" ==> n[k] == Normalize(m[k]))
      && ("metadata" in n && !m["metadata"].Map? ==> n["metadata"] == Normalize(m["metadata"]))
  {
  }

  // The same inside metadata, where annotations are a case of their own.
  lemma MetadataOf(m: map<string, Value>, metadata: map<string, Value>)
    requires "metadata" in m && m["metadata"] == Map(metadata)
    ensures "metadata" in Normalize(Map(m)).fields && Normalize(Map(m)).fields["metadata"].Map?
    ensures var n := Normalize(Map(m)).fields["metadata"].fields;
      && (forall k :: k in n <==> k in metadata && !(k == "creationTimestamp" && metadata[k] == Null))
      && (forall k :: k in n && k != "annotations" ==> n[k] == Normalize(metadata[k]))
      && ("annotations" in n && !metadata["annotations"].Map? ==>
            n["annotations"] == Normalize(metadata["annotations"]))
  {
    assert Normalize(Map(m)).fields["metadata"] == NormalizeMetadata(Map(metadata));
    if "annotations" in metadata && !metadata["annotations"].Map? {
      assert NormalizeAnnotations(metadata["annotations"]) == Normalize(metadata["annotations"]);
    }
  }

  // Of the annotations the three Helm hook ones and kubectl's record of the
  // last applied configuration go; if nothing stays, null does.
  lemma AnnotationsOf(m: map<string, Value>, metadata: map<string, Value>, annotations: map<string, Value>)
    requires "metadata" in m && m["metadata"] == Map(metadata)
    requires "annotations" in metadata && metadata["annotations"] == Map(annotations)
    ensures Normalize(Map(m)).Map? && "metadata" in Normalize(Map(m)).fields
    ensures var n := Normalize(Map(m)).fields["metadata"]; n.Map? && "annotations" in n.fields
    ensures var n := Normalize(Map(m)).fields["metadata"].fields["annotations"];
      var dropped := {"helm.sh/hook", "helm.sh/hook-weight", "helm.sh/hook-delete-policy",
        "kubectl.kubernetes.io/last-applied-configuration"};
      if annotations.Keys <= dropped then n == Null
      else n == Map(map k | k in annotations && k !in dropped :: Normalize(annotations[k]))
  {
    var result := map k | k in annotations && k !in HELM_ANNOTATIONS :: Normalize(annotations[k]);
    assert Normalize(Map(m)).fields["metadata"] == NormalizeMetadata(Map(metadata));
    assert NormalizeMetadata(Map(metadata)).fields["annotations"] == NormalizeAnnotations(Map(annotations));
    assert NormalizeAnnotations(Map(annotations)) == if result == map[] then Null else Map(result);
    if !(annotations.Keys <= HELM_ANNOTATIONS) {
      var k :| k in annotations && k !in HELM_ANNOTATIONS;
      assert k in result;
    }
  }
}
