// What the path language promises: paths compose with ".", and every list of
// segments that can be written at all can be written canonically and read back.
module PathLaws {
  import opened Wrappers
  import opened Values
  import opened Paths

  // ------------------------------------------------------------- composition

  lemma IndexOfPrefix(a: string, b: string, c: char)
    requires IndexOf(a, c).Some?
    ensures IndexOf(a + b, c) == IndexOf(a, c)
  {
    if a[0] != c {
      assert (a + b)[1..] == a[1..] + b;
      IndexOfPrefix(a[1..], b, c);
    }
  }

  // A bracket that closes inside p, after n characters, is read the same
  // whatever follows it.
  lemma BracketPrefix(p: string) returns (segment: Segment, n: nat)
    requires p != "" && p[0] == '[' && BracketError(p).None?
    ensures 0 < n <= |p|
    ensures forall u :: ScanBracket(p[..n] + u) == Then([segment], Scan(u, ""))
  {
    if IsQuote(p[1]) {
      var end := IndexOf(p[2..], p[1]).value;
      segment, n := Key(p[2..end + 2]), end + 4;
      forall u ensures ScanBracket(p[..n] + u) == Then([segment], Scan(u, "")) {
        assert p[..n] == ['[', p[1]] + p[2..end + 2] + [p[1], ']'];
        assert p[2..][..end] == p[2..end + 2];
        ScanQuoted(p[2..end + 2], p[1], u);
      }
    } else {
      var c := IndexOf(p, ']').value;
      segment, n := Index(Atoi(TrimSpace(p[1..c])).value), c + 1;
      forall u ensures ScanBracket(p[..n] + u) == Then([segment], Scan(u, "")) {
        ScanInteger(p, c, u);
      }
    }
  }

  lemma ScanInteger(p: string, c: nat, u: string)
    requires 1 < |p| && p[0] == '[' && !IsQuote(p[1]) && IndexOf(p, ']') == Some(c)
    requires var n := Atoi(TrimSpace(p[1..c])); n.Some? && n.value >= 0
    ensures ScanBracket(p[..c + 1] + u) == Then([Index(Atoi(TrimSpace(p[1..c])).value)], Scan(u, ""))
  {
    hide Scan, Atoi, TrimSpace, IndexOf;
    var s := p[..c + 1] + u;
    if c == 1 { EmptyIsNoInteger(); }
    assert s[..c] == p[..c] && s[c] == p[c];
    IndexOfAt(s, c);
    assert s[1..c] == p[1..c] && s[c + 1..] == u;
  }

  lemma EmptyIsNoInteger()
    ensures Atoi(TrimSpace("")).None?
  {
  }

  // p continues with t after its first bracket.
  lemma BracketThen(p: string, t: string) returns (segment: Segment, n: nat)
    requires p != "" && p[0] == '[' && BracketError(p).None?
    ensures 0 < n <= |p|
    ensures ScanBracket(p) == Then([segment], Scan(p[n..], ""))
    ensures ScanBracket(p + t) == Then([segment], Scan(p[n..] + t, ""))
  {
    hide Scan, ScanBracket;
    segment, n := BracketPrefix(p);
    assert p[..n] + p[n..] == p && p[..n] + (p[n..] + t) == p + t;
  }

  // What is wrong with the first bracket of p itself, if anything.
  function BracketError(p: string): (e: Option<ParseError>)
    requires p != "" && p[0] == '['
    ensures e.Some? ==> ScanBracket(p) == Err(e.value)
    ensures ScanBracket(p).Ok? ==> e.None?
  {
    if |p| == 1 then Some(UnmatchedBracket)
    else if IsQuote(p[1]) then
      var end := IndexOf(p[2..], p[1]);
      if end.None? then Some(UnterminatedQuote)
      else if end.value + 3 >= |p| || p[end.value + 3] != ']' then Some(MissingClose)
      else None
    else
      var close := IndexOf(p, ']');
      if close.None? then Some(UnmatchedBracket)
      else
        var n := Atoi(TrimSpace(p[1..close.value]));
        if n.None? then Some(NonInteger)
        else if n.value < 0 then Some(NegativeIndex)
        else None
  }

  // A path that parses can be continued by anything that starts with "." or
  // "[": the continuation is parsed as if it stood alone.
  lemma {:induction false} ScanContinues(p: string, t: string, key: string)
    requires Scan(p, key).Ok? && t != "" && (t[0] == '.' || t[0] == '[')
    ensures Scan(p + t, key) == Then(Scan(p, key).value, Scan(t, ""))
    decreases |p|
  {
    if p == "" {
      assert p + t == t;
      ThenNothing(if t[0] == '.' then Scan(t[1..], "") else ScanBracket(t));
    } else if p[0] == '[' {
      var segment, n := BracketThen(p, t);
      ScanContinues(p[n..], t, "");
      ThenTwice([segment], Scan(p[n..], "").value, Scan(t, ""));
      ThenTwice(Flush(key), [segment] + Scan(p[n..], "").value, Scan(t, ""));
    } else {
      assert (p + t)[1..] == p[1..] + t;
      if p[0] == '.' {
        ScanContinues(p[1..], t, "");
        ThenTwice(Flush(key), Scan(p[1..], "").value, Scan(t, ""));
      } else {
        ScanContinues(p[1..], t, key + [p[0]]);
      }
    }
  }

  // parse(p.q) is parse(p) followed by parse(q).
  lemma ScanConcat(p: string, q: string)
    requires Scan(p, "").Ok?
    ensures Scan(p + "." + q, "") == Then(Scan(p, "").value, Scan(q, ""))
  {
    var t := "." + q;
    assert p + "." + q == p + t && t[1..] == q;
    ScanContinues(p, t, "");
    ThenNothing(Scan(q, ""));
  }

  lemma WalkConcat(doc: Value, a: seq<Segment>, b: seq<Segment>)
    ensures Walk(doc, a + b) == if Walk(doc, a).Some? then Walk(Walk(doc, a).value, b) else None
  {
    if a == [] {
      assert a + b == b;
    } else {
      assert (a + b)[1..] == a[1..] + b;
    }
  }

  // Looking up p.q is looking up q in what p finds; where p parses, p.q parses
  // exactly when q does.
  lemma LookupConcat(doc: Value, p: string, q: string)
    requires Lookup(doc, p).Ok?
    ensures Lookup(doc, p + "." + q) ==
      match Scan(q, "")
      case Err(e) => Err(e)
      case Ok(_) => match Lookup(doc, p).value
                    case None => Ok(None)
                    case Some(v) => Lookup(v, q)
  {
    ScanConcat(p, q);
    if Scan(q, "").Ok? {
      WalkConcat(doc, Scan(p, "").value, Scan(q, "").value);
    }
  }

  // --------------------------------------------------------------- rendering

  // Keys that need no brackets.
  predicate Bare(key: string) {
    key != "" && '.' !in key && '[' !in key
  }

  lemma BareIsNonempty(key: string)
    requires Bare(key)
    ensures key != ""
  {
  }

  // Keys some path can name: bare, or free of at least one quote character.
  predicate Expressible(segment: Segment) {
    match segment
    case Key(k) => Bare(k) || '"' !in k || '\'' !in k
    case Index(n) => n <= MAX_INT
  }

  function Bracketed(segment: Segment): string {
    match segment
    case Index(n) => "[" + Decimal(n) + "]"
    case Key(k) => if '"' !in k then "[\"" + k + "\"]" else "['" + k + "']"
  }

  // The canonical path; a bare key is set off by "." unless it comes first.
  function Render(segments: seq<Segment>, first: bool): string {
    if segments == [] then ""
    else
      var rest := Render(segments[1..], false);
      if segments[0].Key? && Bare(segments[0].key) then (if first then "" else ".") + segments[0].key + rest
      else Bracketed(segments[0]) + rest
  }

  lemma ScanBareKey(k: string, t: string, key: string)
    requires '.' !in k && '[' !in k
    ensures Scan(k + t, key) == Scan(t, key + k)
    decreases |k|
  {
    if k == "" {
      assert k + t == t && key + k == key;
    } else {
      assert k[0] in k;
      assert (k + t)[1..] == k[1..] + t;
      assert key + [k[0]] + k[1..] == key + k;
      ScanBareKey(k[1..], t, key + [k[0]]);
    }
  }

  lemma IndexOfAt(s: string, i: nat)
    requires i < |s| && s[i] !in s[..i]
    ensures IndexOf(s, s[i]) == Some(i)
  {
    if i > 0 {
      assert s[0] in s[..i];
      assert s[1..][..i - 1] == s[1..i];
      forall c | c in s[1..i] ensures c in s[..i] {}
      IndexOfAt(s[1..], i - 1);
    }
  }

  lemma IndexOfBeyond(k: string, t: string, c: char)
    requires c !in k
    ensures IndexOf(k + t, c).Some? ==> IndexOf(k + t, c).value >= |k|
    ensures t != "" && t[0] == c ==> IndexOf(k + t, c) == Some(|k|)
    ensures c !in t ==> IndexOf(k + t, c).None?
  {
    var s := k + t;
    var r := IndexOf(s, c);
    forall i | 0 <= i < |k| ensures s[i] != c { assert s[i] == k[i]; }
    if t != "" && t[0] == c {
      assert s[|k|] == c && s[..|k|] == k;
      IndexOfAt(s, |k|);
    }
  }

  lemma ScanIndex(n: nat, t: string)
    requires n <= MAX_INT
    ensures ScanBracket(Bracketed(Index(n)) + t) == Then([Index(n)], Scan(t, ""))
  {
    hide Scan, Atoi, TrimSpace, IndexOf, Decimal;
    var d := Decimal(n);
    var s := Bracketed(Index(n)) + t;
    assert s[1] == d[0] && d[0] in d;
    assert s[..|d| + 1] == "[" + d;
    assert s[|d| + 1] == ']' && ']' !in s[..|d| + 1];
    IndexOfAt(s, |d| + 1);
    assert s[1..|d| + 1] == d && s[|d| + 2..] == t;
    AtoiOfDecimal(n);
  }

  lemma ScanQuoted(k: string, quote: char, t: string)
    requires IsQuote(quote) && quote !in k
    ensures ScanBracket(['[', quote] + k + [quote, ']'] + t) == Then([Key(k)], Scan(t, ""))
  {
    var s := ['[', quote] + k + [quote, ']'] + t;
    assert s[2..] == k + [quote, ']'] + t;
    assert s[2..][..|k|] == k;
    IndexOfAt(s[2..], |k|);
    assert s[2..|k| + 2] == k && s[|k| + 4..] == t;
  }

  lemma ScanBracketed(segment: Segment, t: string)
    requires Expressible(segment) && !(segment.Key? && Bare(segment.key))
    ensures ScanBracket(Bracketed(segment) + t) == Then([segment], Scan(t, ""))
  {
    match segment
    case Index(n) =>
      ScanIndex(n, t);
    case Key(k) =>
      var quote := if '"' !in k then '"' else '\'';
      ScanQuoted(k, quote, t);
      assert Bracketed(segment) == ['[', quote] + k + [quote, ']'];
  }

  lemma ScanDotKey(k: string, t: string, key: string, rest: seq<Segment>)
    requires Bare(k) && Scan(t, k) == Ok([Key(k)] + rest)
    ensures Scan("." + k + t, key) == Ok(Flush(key) + ([Key(k)] + rest))
  {
    hide Scan, ScanBracket;
    var s := "." + k + t;
    assert s[0] == '.' && s[1..] == k + t;
    hide Bare;
    ScanBareKey(k, t, "");
    assert "" + k == k;
    ScanOfDot(s, key);
  }

  lemma ScanOfDot(s: string, key: string)
    requires s != "" && s[0] == '.'
    ensures Scan(s, key) == Then(Flush(key), Scan(s[1..], ""))
  {
  }

  lemma ScanBracketedThen(segment: Segment, t: string, key: string, rest: seq<Segment>)
    requires Expressible(segment) && !(segment.Key? && Bare(segment.key))
    requires Scan(t, "") == Ok(rest)
    ensures Scan(Bracketed(segment) + t, key) == Ok(Flush(key) + ([segment] + rest))
  {
    ScanBracketed(segment, t);
  }

  lemma {:induction false} ScanRendered(segments: seq<Segment>, key: string)
    requires forall segment :: segment in segments ==> Expressible(segment)
    ensures Scan(Render(segments, false), key) == Ok(Flush(key) + segments)
    decreases |segments|
  {
    if segments == [] {
      assert Flush(key) + segments == Flush(key);
    } else {
      hide Scan, Bracketed, Bare;
      var head, rest := segments[0], segments[1..];
      assert [head] + rest == segments;
      if head.Key? && Bare(head.key) {
        ScanRendered(rest, head.key);
        assert head.key != "" by { BareIsNonempty(head.key); }
        ScanDotKey(head.key, Render(rest, false), key, rest);
      } else {
        ScanRendered(rest, "");
        assert [] + rest == rest;
        ScanBracketedThen(head, Render(rest, false), key, rest);
      }
    }
  }

  // Rendering and parsing give the segments back.
  lemma RoundTrip(segments: seq<Segment>)
    requires forall segment :: segment in segments ==> Expressible(segment)
    ensures Scan(Render(segments, true), "") == Ok(segments)
  {
    hide Scan, Bracketed;
    if segments != [] && segments[0].Key? && Bare(segments[0].key) {
      var k, rest := segments[0].key, Render(segments[1..], false);
      ScanRendered(segments[1..], k);
      assert Render(segments, true) == k + rest;
      ScanBareKey(k, rest, "");
      assert "" + k == k;
      assert [segments[0]] + segments[1..] == segments;
    } else {
      ScanRendered(segments, "");
      assert [] + segments == segments;
    }
  }

  lemma {:induction false} ParsedIsExpressible(s: string, key: string, segment: Segment)
    requires Scan(s, key).Ok? && segment in Scan(s, key).value
    requires '.' !in key && '[' !in key
    ensures Expressible(segment)
    decreases |s|
  {
    if s == "" {
    } else if s[0] == '.' {
      if segment !in Flush(key) { ParsedIsExpressible(s[1..], "", segment); }
    } else if s[0] == '[' {
      if segment !in Flush(key) {
        if IsQuote(s[1]) {
          var e := IndexOf(s[2..], s[1]).value + 2;
          assert s[2..][..e - 2] == s[2..e];
          if segment != Key(s[2..e]) { ParsedIsExpressible(s[e + 2..], "", segment); }
        } else {
          var close := IndexOf(s, ']').value;
          var n := Atoi(TrimSpace(s[1..close])).value;
          if segment != Index(n) { ParsedIsExpressible(s[close + 1..], "", segment); }
        }
      }
    } else {
      ParsedIsExpressible(s[1..], key + [s[0]], segment);
    }
  }

  // The segment lists some path denotes are exactly the expressible ones.
  lemma DenotableIffExpressible(segments: seq<Segment>)
    ensures (exists expr :: Scan(expr, "") == Ok(segments)) <==>
      forall segment :: segment in segments ==> Expressible(segment)
  {
    if expr :| Scan(expr, "") == Ok(segments) {
      forall segment | segment in segments ensures Expressible(segment) {
        ParsedIsExpressible(expr, "", segment);
      }
    }
    if forall segment :: segment in segments ==> Expressible(segment) {
      RoundTrip(segments);
    }
  }

  // ------------------------------------------------------------------- lookup

  // The empty path and "." denote the document itself.
  lemma EmptyPathFindsDocument(doc: Value)
    ensures Lookup(doc, "") == Lookup(doc, ".") == Ok(Some(doc))
    ensures Render([], true) == ""
  {
  }

  // One more segment goes one step further: a key into a map that has it, an
  // index into a list that is long enough, and nowhere else. From the document
  // itself on, this is what every canonical path finds.
  lemma LookupSteps(doc: Value, front: seq<Segment>, last: Segment)
    requires forall segment :: segment in front + [last] ==> Expressible(segment)
    ensures Lookup(doc, Render(front, true)).Ok?
    ensures Lookup(doc, Render(front + [last], true)) == Ok(
      match Lookup(doc, Render(front, true)).value
      case None => None
      case Some(v) =>
        match (last, v)
        case (Key(k), Map(fields)) => if k in fields then Some(fields[k]) else None
        case (Index(i), List(items)) => if i < |items| then Some(items[i]) else None
        case _ => None)
  {
    hide Scan, Expressible, Render;
    forall segment | segment in front ensures segment in front + [last] {}
    RoundTrip(front);
    RoundTrip(front + [last]);
    WalkConcat(doc, front, [last]);
  }

  // Any path that parses finds what the canonical path of its segments finds.
  lemma LookupByCanonicalPath(doc: Value, expr: string)
    requires Scan(expr, "").Ok?
    ensures Lookup(doc, expr) == Lookup(doc, Render(Scan(expr, "").value, true))
  {
    var segments := Scan(expr, "").value;
    forall segment | segment in segments ensures Expressible(segment) {
      ParsedIsExpressible(expr, "", segment);
    }
    RoundTrip(segments);
  }

  // A document made to hold v at the end of the segments: one-entry maps, and
  // lists just long enough.
  function Nest(segments: seq<Segment>, v: Value): Value {
    if segments == [] then v
    else
      var inner := Nest(segments[1..], v);
      match segments[0]
      case Key(k) => Map(map[k := inner])
      case Index(i) => List(seq(i + 1, j => if j == i then inner else Null))
  }

  lemma {:induction false} WalkNested(segments: seq<Segment>, v: Value)
    ensures Walk(Nest(segments, v), segments) == Some(v)
  {
    if segments != [] { WalkNested(segments[1..], v); }
  }

  // What is put under a path is found there, quoted keys and all.
  lemma NestedIsFound(segments: seq<Segment>, v: Value)
    requires forall segment :: segment in segments ==> Expressible(segment)
    ensures Lookup(Nest(segments, v), Render(segments, true)) == Ok(Some(v))
  {
    RoundTrip(segments);
    WalkNested(segments, v);
  }

  // ------------------------------------------------------------ malformed paths

  // The ways a bracket can fail, after any path that parses. x is what follows
  // the "[" up to the first "]", if there is one.
  lemma MalformedBrackets(p: string, x: string, t: string)
    requires Scan(p, "").Ok? && ']' !in x && (x == "" || !IsQuote(x[0]))
    ensures Scan(p + ("[" + x), "") == Err(UnmatchedBracket)
    ensures var n := Atoi(TrimSpace(x));
      n.None? ==> Scan(p + ("[" + x + "]" + t), "") == Err(NonInteger)
    ensures var n := Atoi(TrimSpace(x));
      n.Some? && n.value < 0 ==> Scan(p + ("[" + x + "]" + t), "") == Err(NegativeIndex)
  {
    hide Scan, Atoi, TrimSpace;
    var cut, closed := "[" + x, "[" + x + "]" + t;
    ScanContinues(p, cut, "");
    ScanContinues(p, closed, "");
    ScanOfBracket(cut);
    ScanOfBracket(closed);
    assert ']' !in cut;
    assert closed[..|x| + 1] == "[" + x && closed[|x| + 1] == ']';
    IndexOfAt(closed, |x| + 1);
    assert closed[1..|x| + 1] == x;
    if x != "" { assert closed[1] == x[0]; }
  }

  // The same for a quoted key k: it must be closed by its own quote and "]".
  lemma MalformedQuotes(p: string, quote: char, k: string, t: string)
    requires Scan(p, "").Ok? && IsQuote(quote) && quote !in k
    ensures Scan(p + (['[', quote] + k), "") == Err(UnterminatedQuote)
    ensures t == "" || t[0] != ']' ==> Scan(p + (['[', quote] + k + [quote] + t), "") == Err(MissingClose)
  {
    hide Scan, ScanBracket;
    var cut, closed := ['[', quote] + k, ['[', quote] + k + [quote] + t;
    ScanContinues(p, cut, "");
    ScanContinues(p, closed, "");
    ScanOfBracket(cut);
    ScanOfBracket(closed);
    ScanCutQuote(quote, k);
    if t == "" || t[0] != ']' { ScanLooseQuote(quote, k, t); }
  }

  lemma ScanCutQuote(quote: char, k: string)
    requires IsQuote(quote) && quote !in k
    ensures ScanBracket(['[', quote] + k) == Err(UnterminatedQuote)
  {
    hide Scan;
    var cut := ['[', quote] + k;
    assert cut[2..] == k;
  }

  lemma ScanLooseQuote(quote: char, k: string, t: string)
    requires IsQuote(quote) && quote !in k && (t == "" || t[0] != ']')
    ensures ScanBracket(['[', quote] + k + [quote] + t) == Err(MissingClose)
  {
    hide Scan;
    var closed := ['[', quote] + k + [quote] + t;
    assert closed[2..] == k + [quote] + t && closed[2..][..|k|] == k;
    IndexOfAt(closed[2..], |k|);
    if t != "" { assert closed[|k| + 3] == t[0]; }
  }

  lemma ScanOfBracket(s: string)
    requires s != "" && s[0] == '['
    ensures Scan(s, "") == ScanBracket(s)
  {
    ThenNothing(ScanBracket(s));
  }

  // ------------------------------------------------------------ joining halves

  lemma TrimKeeps(x: string, c: char)
    requires c in x && !IsSpace(c)
    ensures c in TrimSpace(x)
  {
    TrimLeftKeeps(x, c);
    TrimRightKeeps(TrimLeft(x), c);
  }

  lemma TrimLeftKeeps(x: string, c: char)
    requires c in x && !IsSpace(c)
    ensures c in TrimLeft(x)
  {
    if IsSpace(x[0]) {
      assert x == [x[0]] + x[1..];
      TrimLeftKeeps(x[1..], c);
    }
  }

  lemma TrimRightKeeps(x: string, c: char)
    requires c in x && !IsSpace(c)
    ensures c in TrimRight(x)
  {
    if IsSpace(x[|x| - 1]) {
      assert x == x[..|x| - 1] + [x[|x| - 1]];
      TrimRightKeeps(x[..|x| - 1], c);
    }
  }

  // A character no integer contains.
  lemma NotAnInteger(x: string, c: char)
    requires c in x && !IsSpace(c) && !IsDigit(c) && c != '+' && c != '-'
    ensures Atoi(TrimSpace(x)).None?
  {
    TrimKeeps(x, c);
    var s := TrimSpace(x);
    if s[0] != c {
      assert s == [s[0]] + s[1..];
      assert c in s[1..];
    }
  }

  // A bracket that fails inside p still fails with a dot after it, unless it
  // is a quote left open: no integer contains a dot.
  lemma BracketStaysBroken(p: string, t: string)
    requires p != "" && p[0] == '[' && BracketError(p).Some? && BracketError(p) != Some(UnterminatedQuote)
    requires t != "" && t[0] == '.'
    ensures ScanBracket(p + t).Err?
  {
    hide Scan, Atoi, TrimSpace, IndexOf, IsSpace;
    var s := p + t;
    if |p| > 1 && IsQuote(p[1]) {
      assert s[2..] == p[2..] + t;
      IndexOfPrefix(p[2..], t, p[1]);
    } else if IndexOf(p, ']').Some? {
      IndexOfPrefix(p, t, ']');
      var c := IndexOf(p, ']').value;
      assert s[1..c] == p[1..c];
    } else {
      var close := IndexOf(s, ']');
      if close.Some? {
        assert ']' !in p && close.value > |p|;
        assert s[1..close.value][|p| - 1] == '.';
        DotIsNoInteger(s[1..close.value]);
      }
    }
  }

  lemma DotIsNoInteger(x: string)
    requires '.' in x
    ensures Atoi(TrimSpace(x)).None?
  {
    NotAnInteger(x, '.');
  }

  // Only a quote left open can be mended by what comes after a dot.
  lemma {:induction false} OnlyOpenQuotesRevive(p: string, t: string, key: string)
    requires Scan(p, key).Err? && Scan(p, key).error != UnterminatedQuote
    requires t != "" && t[0] == '.'
    ensures Scan(p + t, key).Err?
    decreases |p|
  {
    if p[0] == '[' {
      if BracketError(p).Some? {
        BracketStaysBroken(p, t);
      } else {
        var segment, n := BracketThen(p, t);
        OnlyOpenQuotesRevive(p[n..], t, "");
      }
    } else {
      assert (p + t)[1..] == p[1..] + t;
      OnlyOpenQuotesRevive(p[1..], t, if p[0] == '.' then "" else key + [p[0]]);
    }
  }

  // A quote is left open after a path that parses.
  lemma {:induction false} OpenQuoteOf(p: string, key: string) returns (p0: string, quote: char, k: string)
    requires Scan(p, key) == Err(UnterminatedQuote)
    ensures p == p0 + (['[', quote] + k) && Scan(p0, key).Ok? && IsQuote(quote) && quote !in k
    decreases |p|
  {
    if p[0] == '[' {
      if BracketError(p).Some? {
        p0, quote, k := "", p[1], p[2..];
      } else {
        var segment, n := BracketPrefix(p);
        assert p[..n] + p[n..] == p;
        p0, quote, k := OpenQuoteOf(p[n..], "");
        assert ScanBracket(p[..n] + p0) == Then([segment], Scan(p0, ""));
        p0 := p[..n] + p0;
      }
    } else {
      p0, quote, k := OpenQuoteOf(p[1..], if p[0] == '.' then "" else key + [p[0]]);
      assert ([p[0]] + p0)[1..] == p0;
      p0 := [p[0]] + p0;
    }
  }

  // An open quote joins up with a half that closes it, and only with such a
  // half: q1 is the rest of the key.
  ghost predicate Closes(p: string, q: string, p0: string, quote: char, k: string, q1: string, q2: string) {
    && IsQuote(quote) && quote !in k && quote !in q1
    && p == p0 + (['[', quote] + k) && q == q1 + ([quote, ']'] + q2)
    && Scan(p0, "").Ok? && Scan(q2, "").Ok?
  }

  // Such halves join: the key runs on across the dot.
  lemma ClosingHalvesJoin(p: string, q: string, p0: string, quote: char, k: string, q1: string, q2: string)
    requires Closes(p, q, p0, quote, k, q1, q2)
    ensures Scan(p, "") == Err(UnterminatedQuote)
    ensures Scan(p + "." + q, "") == Ok(Scan(p0, "").value + ([Key(k + "." + q1)] + Scan(q2, "").value))
  {
    hide Scan;
    MalformedQuotes(p0, quote, k, "");
    var key := k + "." + q1;
    var bracket := ['[', quote] + key + [quote, ']'] + q2;
    assert p + "." + q == p0 + bracket;
    ScanContinues(p0, bracket, "");
    ScanOfBracket(bracket);
    ScanQuoted(key, quote, q2);
  }

  lemma QuotedParts(quote: char, open: string)
    requires IsQuote(quote) && ScanBracket(['[', quote] + open).Ok?
    ensures var end := IndexOf(open, quote);
      && end.Some? && end.value + 1 < |open| && open[end.value + 1] == ']'
      && Scan(open[end.value + 2..], "").Ok?
  {
    hide Scan, IndexOf;
    var bracket := ['[', quote] + open;
    assert bracket[2..] == open;
    var end := IndexOf(open, quote);
    if end.Some? && end.value + 1 < |open| {
      assert bracket[end.value + 4..] == open[end.value + 2..];
    }
  }

  // What an open quote needs in order to parse: its key to be closed.
  lemma ClosedAt(quote: char, k: string, t: string) returns (e: nat)
    requires IsQuote(quote) && quote !in k
    requires ScanBracket(['[', quote] + (k + t)).Ok?
    ensures e + 1 < |t| && t[e] == quote && t[e + 1] == ']' && quote !in t[..e]
    ensures Scan(t[e + 2..], "").Ok?
  {
    hide Scan, ScanBracket, IndexOf;
    var open := k + t;
    QuotedParts(quote, open);
    IndexOfBeyond(k, t, quote);
    var end := IndexOf(open, quote).value;
    e := end - |k|;
    assert t[e] == open[end] && t[e + 1] == open[end + 1];
    assert open[end + 2..] == t[e + 2..];
    forall i | 0 <= i < e ensures t[i] != quote { assert open[..end][|k| + i] == t[i]; }
  }

  lemma OpenQuoteNeedsClosing(p0: string, quote: char, k: string, q: string) returns (q1: string, q2: string)
    requires Scan(p0, "").Ok? && IsQuote(quote) && quote !in k
    requires Scan(p0 + (['[', quote] + k) + "." + q, "").Ok?
    ensures Closes(p0 + (['[', quote] + k), q, p0, quote, k, q1, q2)
  {
    hide Scan, ScanBracket;
    var t := "." + q;
    var bracket := ['[', quote] + (k + t);
    assert p0 + (['[', quote] + k) + "." + q == p0 + bracket;
    ScanContinues(p0, bracket, "");
    ScanOfBracket(bracket);
    var e := ClosedAt(quote, k, t);
    assert t[0] == '.' && t[1..] == q;
    q1, q2 := q[..e - 1], q[e + 1..];
    assert q[e - 1] == quote && q[e] == ']';
    assert q == q1 + ([quote, ']'] + q2);
    assert t[e + 2..] == q2;
    forall c | c in q1 ensures c in t[..e] { DotThenKey(q, e - 1, c); }
  }

  lemma DotThenKey(q: string, n: nat, c: char)
    requires n <= |q| && c in q[..n]
    ensures c in ("." + q)[..n + 1]
  {
    assert ("." + q)[..n + 1] == "." + q[..n];
  }

  // p.q parses exactly when both halves do, or when p ends inside a quoted key
  // that q closes.
  lemma JoinParsesIff(p: string, q: string)
    ensures Scan(p + "." + q, "").Ok? <==>
      || (Scan(p, "").Ok? && Scan(q, "").Ok?)
      || exists p0, quote, k, q1, q2 :: Closes(p, q, p0, quote, k, q1, q2)
  {
    hide Scan, Closes;
    if p0, quote, k, q1, q2 :| Closes(p, q, p0, quote, k, q1, q2) {
      ClosingHalvesJoin(p, q, p0, quote, k, q1, q2);
    }
    if Scan(p, "").Ok? {
      ScanConcat(p, q);
    } else if Scan(p, "").error != UnterminatedQuote {
      assert p + "." + q == p + ("." + q);
      OnlyOpenQuotesRevive(p, "." + q, "");
    } else if Scan(p + "." + q, "").Ok? {
      var p0, quote, k := OpenQuoteOf(p, "");
      var q1, q2 := OpenQuoteNeedsClosing(p0, quote, k, q);
    }
  }

  lemma ScanOfNothing()
    ensures Scan("", "") == Ok([])
  {
  }

  // Two halves that are each malformed and join into a path that parses.
  lemma MalformedHalvesCanJoin()
    ensures Scan("[\"a", "") == Err(UnterminatedQuote) && Scan("[b\"]", "") == Err(NonInteger)
    ensures Scan("[\"a" + "." + "[b\"]", "") == Ok([Key("a.[b")])
  {
    hide Scan, Atoi, TrimSpace;
    var p, q := "[\"a", "[b\"]";
    assert p == "" + (['[', '"'] + "a") && q == "[b" + (['"', ']'] + "");
    ScanOfNothing();
    ClosingHalvesJoin(p, q, "", '"', "a", "[b", "");
    assert "a" + "." + "[b" == "a.[b";
    assert [] + ([Key("a.[b")] + []) == [Key("a.[b")];
    assert "b\""[0] == 'b';
    NotAnInteger("b\"", 'b');
    MalformedBrackets("", "b\"", "");
    assert q == "" + ("[" + "b\"" + "]" + "");
  }
}
