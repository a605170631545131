// internal/matchers/http.go, lines 764-851: the recursive JSONPath evaluator,
// and how it relates to the scanner of internal/path.
module JsonPaths {
  import opened Wrappers
  import opened Values
  import opened Paths
  import opened PathLaws

  datatype Answer =
    | Found(value: Value)
    | Missing
    | BadStart
    | NotAnIndex(segment: string)
    | OutOfBounds(index: int, length: nat)

  // ------------------------------------------------------------- evaluation

  function EvalJsonPath(expr: string, data: Value): Answer {
    if !("$." <= expr) && expr != "$" then BadStart
    else if expr == "$" then Found(data)
    else Traverse(expr[2..], data)
  }

  // Terminates on every string: each split leaves strictly less to read.
  function Traverse(path: string, data: Value): Answer
    decreases |path|
  {
    if path == "" then Found(data)
    else
      var (segment, rest) := SplitSegment(path);
      match data
      case Map(fields) =>
        if segment in fields then Traverse(rest, fields[segment]) else Missing
      case List(items) =>
        var i := ParseArrayIndex(segment);
        if i.None? then NotAnIndex(segment)
        else if i.value < 0 || i.value >= |items| then OutOfBounds(i.value, |items|)
        else Traverse(rest, items[i.value])
      case _ =>
        if segment != "" then Missing else Found(data)
  }

  function TrimDot(s: string): string {
    if s != "" && s[0] == '.' then s[1..] else s
  }

  function SplitSegment(path: string): (r: (string, string))
    requires path != ""
    ensures |r.1| < |path|
  {
    if path[0] == '[' then
      var end := IndexOf(path, ']');
      if end.None? then (path, "")
      else (path[1..end.value], TrimDot(path[end.value + 1..]))
    else
      var dot, bracket := IndexOf(path, '.'), IndexOf(path, '[');
      if dot.None? && bracket.None? then (path, "")
      else if dot.None? || (bracket.Some? && bracket.value < dot.value) then
        (path[..bracket.value], path[bracket.value..])
      else
        (path[..dot.value], path[dot.value + 1..])
  }

  // fmt.Sscanf(s, "%d"): spaces but no newline, an optional sign, then as many
  // digits as there are; what follows them is ignored.
  function ParseArrayIndex(s: string): Option<int> {
    var t := SkipSpace(s);
    var signed := t != "" && (t[0] == '+' || t[0] == '-');
    var digits := DigitPrefix(if signed then t[1..] else t);
    if digits == "" then None
    else
      var magnitude: int := Number(digits);
      var value := if signed && t[0] == '-' then -magnitude else magnitude;
      if -MAX_INT - 1 <= value <= MAX_INT then Some(value) else None
  }

  function SkipSpace(s: string): string {
    if s != "" && IsSpace(s[0]) && s[0] != '\n' then SkipSpace(s[1..]) else s
  }

  function DigitPrefix(s: string): (d: string)
    ensures AllDigits(d)
  {
    if s != "" && IsDigit(s[0]) then [s[0]] + DigitPrefix(s[1..]) else ""
  }

  // ---------------------------------------------- what a plain path computes

  // Paths both languages can write: bare keys and canonical indices.
  predicate PlainSegment(segment: Segment) {
    match segment
    case Key(k) => Bare(k)
    case Index(n) => n <= MAX_INT
  }

  predicate Plain(segments: seq<Segment>) {
    forall i :: 0 <= i < |segments| ==> PlainSegment(segments[i])
  }

  function Text(segment: Segment): string {
    match segment
    case Key(k) => k
    case Index(n) => Decimal(n)
  }

  lemma DigitPrefixOfDigits(s: string)
    requires AllDigits(s)
    ensures DigitPrefix(s) == s
  {
    if s != "" { assert s[0] in s; }
  }

  lemma IndexTextParses(n: nat)
    requires n <= MAX_INT
    ensures ParseArrayIndex(Decimal(n)) == Some(n)
  {
    var d := Decimal(n);
    assert d[0] in d;
    assert SkipSpace(d) == d;
    DigitPrefixOfDigits(d);
    NumberOfDecimal(n);
  }

  lemma PlainIs(segments: seq<Segment>)
    ensures Plain(segments) <==> forall segment :: segment in segments ==>
      match segment
      case Key(k) => k != "" && '.' !in k && '[' !in k
      case Index(n) => n <= 0x7FFF_FFFF_FFFF_FFFF
  {
    hide PlainSegment, Plain;
    PlainMembers(segments);
    forall segment ensures PlainSegment(segment) <==>
      match segment
      case Key(k) => k != "" && '.' !in k && '[' !in k
      case Index(n) => n <= 0x7FFF_FFFF_FFFF_FFFF
    {
      PlainSegmentIs(segment);
    }
  }

  lemma PlainMembers(segments: seq<Segment>)
    ensures Plain(segments) <==> forall segment :: segment in segments ==> PlainSegment(segment)
  {
    hide PlainSegment;
    forall i | 0 <= i < |segments| ensures segments[i] in segments {}
  }

  lemma PlainSegmentIs(segment: Segment)
    ensures PlainSegment(segment) <==>
      match segment
      case Key(k) => k != "" && '.' !in k && '[' !in k
      case Index(n) => n <= 0x7FFF_FFFF_FFFF_FFFF
  {
  }

  lemma PlainHead(segments: seq<Segment>)
    requires Plain(segments) && segments != []
    ensures PlainSegment(segments[0])
  {
  }

  // The rest of a path starts with "." or "[", and what follows the "." is the
  // rest as a path of its own.
  lemma ShapeOfRest(rest: seq<Segment>)
    requires Plain(rest)
    ensures var t, u := Render(rest, false), Render(rest, true);
      (t == u == "") || (t != "" && t[0] == '.' && t[1..] == u) || (t != "" && t[0] == '[' && t == u)
  {
    hide Decimal, Plain;
    if rest != [] {
      assert PlainSegment(rest[0]) by { PlainHead(rest); }
      var t, u, tail := Render(rest, false), Render(rest, true), Render(rest[1..], false);
      if rest[0].Key? {
        assert t == "." + rest[0].key + tail && u == "" + rest[0].key + tail;
        assert t[1..] == u;
      } else {
        assert t == u == Bracketed(rest[0]) + tail;
      }
    }
  }

  lemma SplitKey(k: string, rest: seq<Segment>)
    requires Bare(k) && Plain(rest)
    ensures SplitSegment(k + Render(rest, false)) == (k, Render(rest, true))
  {
    hide Render, Plain, IndexOf;
    ShapeOfRest(rest);
    var t := Render(rest, false);
    var s := k + t;
    IndexOfBeyond(k, t, '.');
    IndexOfBeyond(k, t, '[');
    assert s[0] == k[0] && k[0] in k;
    assert s[..|k|] == k && s[|k|..] == t;
    if t == "" {
      assert s == k;
    } else {
      assert s[|k| + 1..] == t[1..];
    }
  }

  lemma SplitIndex(n: nat, rest: seq<Segment>)
    requires n <= MAX_INT && Plain(rest)
    ensures SplitSegment(Bracketed(Index(n)) + Render(rest, false)) == (Decimal(n), Render(rest, true))
  {
    hide Render, Plain, IndexOf, Decimal;
    ShapeOfRest(rest);
    var d, t := Decimal(n), Render(rest, false);
    var s := Bracketed(Index(n)) + t;
    assert s[..|d| + 1] == "[" + d && s[|d| + 1] == ']';
    IndexOfAt(s, |d| + 1);
    assert s[1..|d| + 1] == d && s[|d| + 2..] == t;
  }

  lemma PlainParts(segments: seq<Segment>)
    requires segments != [] && Plain(segments)
    ensures PlainSegment(segments[0]) && Plain(segments[1..])
    ensures Bracketed(segments[0]) != ""
  {
    hide Decimal;
  }

  lemma SplitRendered(segments: seq<Segment>)
    requires segments != [] && Plain(segments)
    ensures Render(segments, true) != ""
    ensures SplitSegment(Render(segments, true)) == (Text(segments[0]), Render(segments[1..], true))
  {
    hide SplitSegment, Bracketed, Plain, Decimal;
    PlainParts(segments);
    match segments[0]
    case Key(k) =>
      assert Render(segments, true) == k + Render(segments[1..], false);
      SplitKey(k, segments[1..]);
    case Index(n) => SplitIndex(n, segments[1..]);
  }

  // The walk the evaluator makes: any segment is a key on a map and an index
  // on a list.
  function LooseWalk(data: Value, segments: seq<Segment>): Answer {
    if segments == [] then Found(data)
    else
      var text := Text(segments[0]);
      match data
      case Map(fields) =>
        if text in fields then LooseWalk(fields[text], segments[1..]) else Missing
      case List(items) =>
        var i := ParseArrayIndex(text);
        if i.None? then NotAnIndex(text)
        else if i.value < 0 || i.value >= |items| then OutOfBounds(i.value, |items|)
        else LooseWalk(items[i.value], segments[1..])
      case _ => Missing
  }

  lemma {:induction false} EvaluatorWalksLoosely(data: Value, segments: seq<Segment>)
    requires Plain(segments)
    ensures EvalJsonPath("$." + Render(segments, true), data) == LooseWalk(data, segments)
  {
    var path := Render(segments, true);
    assert ("$." + path)[2..] == path;
    TraverseWalksLoosely(data, segments);
  }

  lemma {:induction false} TraverseWalksLoosely(data: Value, segments: seq<Segment>)
    requires Plain(segments)
    ensures Traverse(Render(segments, true), data) == LooseWalk(data, segments)
    decreases |segments|
  {
    if segments != [] {
      hide SplitSegment, ParseArrayIndex, Render;
      SplitRendered(segments);
      assert PlainSegment(segments[0]) && Text(segments[0]) != "";
      var i := ParseArrayIndex(Text(segments[0]));
      match data {
        case Map(fields) =>
          if Text(segments[0]) in fields { TraverseWalksLoosely(fields[Text(segments[0])], segments[1..]); }
        case List(items) =>
          if i.Some? && 0 <= i.value < |items| { TraverseWalksLoosely(items[i.value], segments[1..]); }
        case _ =>
      }
    }
  }

  // Somewhere along the loose walk an index meets a map or a key meets a list.
  predicate Crosses(data: Value, segments: seq<Segment>) {
    if segments == [] then false
    else
      var text := Text(segments[0]);
      match data
      case Map(fields) => segments[0].Index? || (text in fields && Crosses(fields[text], segments[1..]))
      case List(items) =>
        segments[0].Key? || (segments[0].index < |items| && Crosses(items[segments[0].index], segments[1..]))
      case _ => false
  }

  // On one plain path the two languages find the same value, and either finds
  // one exactly when the other does, unless the walk crosses kinds.
  lemma {:induction false} LanguagesAgree(data: Value, segments: seq<Segment>)
    requires Plain(segments)
    ensures Walk(data, segments).Some? ==>
      LooseWalk(data, segments) == Found(Walk(data, segments).value) && !Crosses(data, segments)
    ensures !Crosses(data, segments) && LooseWalk(data, segments).Found? ==> Walk(data, segments).Some?
    decreases |segments|
  {
    if segments != [] {
      hide ParseArrayIndex, Decimal;
      assert PlainSegment(segments[0]);
      if segments[0].Index? { IndexTextParses(segments[0].index); }
      match data {
        case Map(fields) =>
          if Text(segments[0]) in fields { LanguagesAgree(fields[Text(segments[0])], segments[1..]); }
        case List(items) =>
          if segments[0].Index? && segments[0].index < |items| {
            LanguagesAgree(items[segments[0].index], segments[1..]);
          }
        case _ =>
      }
    }
  }

  // Whatever path.Get finds, evalJSONPath finds under "$.".
  lemma JsonPathExtendsPath(doc: Value, segments: seq<Segment>, v: Value)
    requires Plain(segments) && Lookup(doc, Render(segments, true)) == Ok(Some(v))
    ensures EvalJsonPath("$." + Render(segments, true), doc) == Found(v)
  {
    RoundTrip(segments);
    EvaluatorWalksLoosely(doc, segments);
    LanguagesAgree(doc, segments);
  }

  // What the evaluator finds, Get finds exactly when the walk stays within
  // kinds.
  lemma JsonPathFindsNoMore(doc: Value, segments: seq<Segment>)
    requires Plain(segments)
    ensures var answer := EvalJsonPath("$." + Render(segments, true), doc);
      answer.Found? ==>
        (Lookup(doc, Render(segments, true)) == Ok(Some(answer.value)) <==> !Crosses(doc, segments))
  {
    RoundTrip(segments);
    EvaluatorWalksLoosely(doc, segments);
    LanguagesAgree(doc, segments);
  }

  // A crossing path on which they differ: key "0" of a list.
  lemma CrossingCanDiffer(v: Value)
    ensures EvalJsonPath("$.0", List([v])) == Found(v)
    ensures Lookup(List([v]), "0") == Ok(None)
  {
    hide Render, Scan, EvalJsonPath, LooseWalk;
    var data, segments := List([v]), [Key("0")];
    RenderZero();
    assert "$." + "0" == "$.0";
    WalksOfZero(v);
    EvaluatorWalksLoosely(data, segments);
    RoundTrip(segments);
  }

  lemma RenderZero()
    ensures Render([Key("0")], true) == "0"
  {
    assert [Key("0")][1..] == [];
    assert Render([], false) == "" && "" + "0" + "" == "0";
  }

  lemma WalksOfZero(v: Value)
    ensures LooseWalk(List([v]), [Key("0")]) == Found(v)
    ensures Walk(List([v]), [Key("0")]) == None
  {
    assert Decimal(0) == "0";
    IndexTextParses(0);
    hide ParseArrayIndex, Decimal;
    assert [Key("0")][1..] == [];
    assert LooseWalk(v, []) == Found(v);
  }

  // -------------------------------------------------------- on every expression

  // An expression starts with "$." or is "$", which is the document itself.
  lemma ExpressionStarts(expr: string, data: Value)
    ensures EvalJsonPath(expr, data) == BadStart <==> expr != "$" && !(|expr| >= 2 && expr[..2] == "$.")
    ensures EvalJsonPath("$", data) == Found(data)
    ensures EvalJsonPath("$.", data) == Found(data)
  {
    if |expr| >= 2 && expr[..2] == "$." { TraverseStarted(expr[2..], data); }
    assert "$."[2..] == "";
  }

  lemma TraverseStarted(path: string, data: Value)
    ensures Traverse(path, data) != BadStart
  {
  }

  // What a split takes off: a key up to the next "." or "[", or what is between
  // "[" and "]", with the dot that follows; an unclosed bracket is all one
  // segment.
  lemma SplitCases(k: string, rest: string)
    requires '.' !in k && '[' !in k
    ensures k != "" ==> SplitSegment(k) == (k, "")
    ensures SplitSegment(k + ("." + rest)) == (k, rest)
    ensures k != "" ==> SplitSegment(k + ("[" + rest)) == (k, "[" + rest)
  {
    hide SplitSegment;
    if k != "" {
      SplitWhole(k);
      SplitAtBracket(k, rest);
    }
    SplitAtDot(k, rest);
  }

  lemma SplitWhole(k: string)
    requires k != "" && '.' !in k && '[' !in k
    ensures SplitSegment(k) == (k, "")
  {
    hide IndexOf;
    assert k[0] in k;
  }

  lemma SplitAtDot(k: string, rest: string)
    requires '.' !in k && '[' !in k
    ensures SplitSegment(k + ("." + rest)) == (k, rest)
  {
    hide IndexOf;
    var s := k + ("." + rest);
    assert s[0] == (if k == "" then '.' else k[0]) && (k != "" ==> k[0] in k);
    assert s[..|k|] == k && s[|k| + 1..] == rest;
    IndexOfBeyond(k, "." + rest, '.');
    IndexOfBeyond(k, "." + rest, '[');
  }

  lemma SplitAtBracket(k: string, rest: string)
    requires k != "" && '.' !in k && '[' !in k
    ensures SplitSegment(k + ("[" + rest)) == (k, "[" + rest)
  {
    hide IndexOf;
    var s := k + ("[" + rest);
    assert s[0] == k[0] && k[0] in k;
    assert s[..|k|] == k && s[|k|..] == "[" + rest;
    IndexOfBeyond(k, "[" + rest, '.');
    IndexOfBeyond(k, "[" + rest, '[');
    assert s[|k|] == '[';
  }

  lemma SplitBracketCases(k: string, rest: string)
    requires ']' !in k
    ensures SplitSegment("[" + k) == ("[" + k, "")
    ensures SplitSegment("[" + k + "]" + rest) == (k, if rest != "" && rest[0] == '.' then rest[1..] else rest)
  {
    hide IndexOf;
    var s := "[" + k + "]" + rest;
    assert s[..|k| + 1] == "[" + k && s[|k| + 1] == ']';
    IndexOfAt(s, |k| + 1);
    assert s[1..|k| + 1] == k && s[|k| + 2..] == rest;
  }

  // What a segment does, on any path: look the text up in a map, read it as an
  // index into a list; on anything else an empty segment ends the walk there and
  // any other is missing.
  lemma EvaluatorTakesSegment(path: string, data: Value)
    requires path != ""
    ensures var (segment, rest) := SplitSegment(path);
      EvalJsonPath("$." + path, data) ==
        match data
        case Map(fields) => if segment in fields then EvalJsonPath("$." + rest, fields[segment]) else Missing
        case List(items) =>
          (match ParseArrayIndex(segment)
           case None => NotAnIndex(segment)
           case Some(i) =>
             if 0 <= i < |items| then EvalJsonPath("$." + rest, items[i]) else OutOfBounds(i, |items|))
        case _ => if segment == "" then Found(data) else Missing
  {
    hide ParseArrayIndex, SplitSegment;
    var (segment, rest) := SplitSegment(path);
    assert ("$." + path)[2..] == path && ("$." + rest)[2..] == rest;
  }

  // The text of a list index: blanks, a sign or none, digits, and then anything
  // that does not go on with a digit.
  lemma IndexPrefixParses(blanks: string, sign: string, digits: string, rest: string)
    requires (forall c :: c in blanks ==> c == ' ' || c == '\t') && (sign == "" || sign == "+" || sign == "-")
    requires digits != "" && AllDigits(digits) && (rest == "" || !IsDigit(rest[0]))
    requires Number(digits) <= 0x7FFF_FFFF_FFFF_FFFF
    ensures ParseArrayIndex(blanks + (sign + (digits + rest))) ==
      Some(if sign == "-" then 0 - Number(digits) else Number(digits))
  {
    hide Number, SkipSpace, DigitPrefix;
    var t := sign + (digits + rest);
    assert digits[0] in digits && (digits + rest)[0] == digits[0];
    assert t[|sign|..] == digits + rest && t[0] == (if sign == "" then digits[0] else sign[0]);
    PrefixOfDigits(digits, rest);
    BlanksSkipped(blanks, t);
  }

  lemma PrefixOfDigits(digits: string, rest: string)
    requires AllDigits(digits) && (rest == "" || !IsDigit(rest[0]))
    ensures DigitPrefix(digits + rest) == digits
  {
    if digits == "" {
      assert digits + rest == rest;
    } else {
      assert digits[0] in digits && (digits + rest)[1..] == digits[1..] + rest;
      PrefixOfDigits(digits[1..], rest);
    }
  }

  lemma BlanksSkipped(blanks: string, t: string)
    requires (forall c :: c in blanks ==> c == ' ' || c == '\t') && t != "" && !IsSpace(t[0])
    ensures SkipSpace(blanks + t) == t
  {
    if blanks == "" {
      assert blanks + t == t;
    } else {
      assert blanks[0] in blanks && (blanks + t)[1..] == blanks[1..] + t;
      forall c | c in blanks[1..] ensures c in blanks {}
      BlanksSkipped(blanks[1..], t);
    }
  }

  // One more segment of a plain path: a key or an index by its text on a map,
  // a number on a list; anything else is missing, no index or out of bounds.
  lemma EvaluatorSteps(data: Value, front: seq<Segment>, last: Segment)
    requires Plain(front + [last])
    ensures EvalJsonPath("$." + Render(front + [last], true), data) ==
      match EvalJsonPath("$." + Render(front, true), data)
      case Found(v) =>
        var text := match last { case Key(k) => k case Index(n) => Decimal(n) };
        (match v
         case Map(fields) => if text in fields then Found(fields[text]) else Missing
         case List(items) =>
           (match ParseArrayIndex(text)
            case None => NotAnIndex(text)
            case Some(i) => if 0 <= i < |items| then Found(items[i]) else OutOfBounds(i, |items|))
         case _ => Missing)
      case other => other
  {
    hide Render, Scan, EvalJsonPath, ParseArrayIndex, Decimal;
    PlainFront(front, last);
    EvaluatorWalksLoosely(data, front + [last]);
    EvaluatorWalksLoosely(data, front);
    LooseWalkSteps(data, front, last);
  }

  lemma PlainFront(front: seq<Segment>, last: Segment)
    requires Plain(front + [last])
    ensures Plain(front)
  {
    forall i | 0 <= i < |front| ensures PlainSegment(front[i]) { assert front[i] == (front + [last])[i]; }
  }

  lemma {:induction false} LooseWalkSteps(data: Value, front: seq<Segment>, last: Segment)
    ensures LooseWalk(data, front + [last]) ==
      match LooseWalk(data, front)
      case Found(v) => LooseWalk(v, [last])
      case other => other
    decreases |front|
  {
    hide ParseArrayIndex, Text;
    if front == [] {
      assert front + [last] == [last];
    } else {
      assert (front + [last])[1..] == front[1..] + [last];
      var text := Text(front[0]);
      match data {
        case Map(fields) => if text in fields { LooseWalkSteps(fields[text], front[1..], last); }
        case List(items) =>
          var i := ParseArrayIndex(text);
          if i.Some? && 0 <= i.value < |items| { LooseWalkSteps(items[i.value], front[1..], last); }
        case _ =>
      }
    }
  }
}
