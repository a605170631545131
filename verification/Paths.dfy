// internal/path/path.go: the scanner for dotted and bracketed paths, and the
// lookup built on it.
module Paths {
  import opened Wrappers
  import opened Values

  datatype Segment = Key(key: string) | Index(index: nat)

  datatype ParseError = UnmatchedBracket | UnterminatedQuote | MissingClose | NonInteger | NegativeIndex

  type Parsed = Result<seq<Segment>, ParseError>

  const MAX_INT := 0x7FFF_FFFF_FFFF_FFFF

  // ------------------------------------------------ strings and integers

  // strings.IndexByte.
  function IndexOf(s: string, c: char): (r: Option<nat>)
    ensures r.Some? ==> r.value < |s| && s[r.value] == c && c !in s[..r.value]
    ensures r.None? ==> c !in s
  {
    if s == "" then None
    else if s[0] == c then Some(0)
    else
      var rest := IndexOf(s[1..], c);
      if rest.None? then None
      else
        assert s[..rest.value + 1] == [s[0]] + s[1..][..rest.value];
        Some(rest.value + 1)
  }

  // unicode.IsSpace.
  predicate IsSpace(c: char) {
    || c in "\t\n\U{b}\U{c}\r \U{85}\U{a0}\U{1680}\U{2028}\U{2029}\U{202f}\U{205f}\U{3000}"
    || '\U{2000}' <= c <= '\U{200a}'
  }

  function TrimLeft(s: string): string {
    if s != "" && IsSpace(s[0]) then TrimLeft(s[1..]) else s
  }

  function TrimRight(s: string): string {
    if s != "" && IsSpace(s[|s| - 1]) then TrimRight(s[..|s| - 1]) else s
  }

  // strings.TrimSpace.
  function TrimSpace(s: string): string {
    TrimRight(TrimLeft(s))
  }

  predicate IsDigit(c: char) {
    '0' <= c <= '9'
  }

  predicate AllDigits(s: string) {
    forall c :: c in s ==> IsDigit(c)
  }

  function DigitValue(c: char): nat
    requires IsDigit(c)
  {
    c as int - '0' as int
  }

  function Number(digits: string): nat
    requires AllDigits(digits)
  {
    if digits == "" then 0
    else
      assert digits[|digits| - 1] in digits;
      10 * Number(digits[..|digits| - 1]) + DigitValue(digits[|digits| - 1])
  }

  // strconv.Atoi on a 64-bit platform: an optional sign, decimal digits, and
  // an error when the value does not fit.
  function Atoi(s: string): Option<int> {
    var signed := s != "" && (s[0] == '+' || s[0] == '-');
    var digits := if signed then s[1..] else s;
    if digits == "" || !AllDigits(digits) then None
    else
      var magnitude: int := Number(digits);
      var value := if signed && s[0] == '-' then -magnitude else magnitude;
      if -MAX_INT - 1 <= value <= MAX_INT then Some(value) else None
  }

  // The canonical decimal numeral of n.
  function Decimal(n: nat): (s: string)
    ensures s != "" && AllDigits(s)
  {
    var last := [('0' as int + n % 10) as char];
    if n < 10 then last else Decimal(n / 10) + last
  }

  lemma NumberOfDecimal(n: nat)
    ensures Number(Decimal(n)) == n
  {
    if n >= 10 {
      var s := Decimal(n);
      assert s[..|s| - 1] == Decimal(n / 10);
      NumberOfDecimal(n / 10);
    }
  }

  lemma DigitsNotTrimmed(s: string)
    requires AllDigits(s)
    ensures TrimSpace(s) == s
  {
    if s != "" {
      assert s[0] in s && s[|s| - 1] in s;
    }
  }

  lemma AtoiOfDecimal(n: nat)
    requires n <= MAX_INT
    ensures Atoi(TrimSpace(Decimal(n))) == Some(n)
  {
    DigitsNotTrimmed(Decimal(n));
    NumberOfDecimal(n);
    assert Decimal(n)[0] in Decimal(n);
  }

  // ----------------------------------------------------------- specification

  function Flush(key: string): seq<Segment> {
    if key == "" then [] else [Key(key)]
  }

  function Then(segments: seq<Segment>, r: Parsed): Parsed {
    if r.Ok? then Ok(segments + r.value) else r
  }

  // What remains to be parsed, with the bare key collected so far.
  function Scan(s: string, key: string): Parsed
    decreases |s|
  {
    if s == "" then Ok(Flush(key))
    else if s[0] == '.' then Then(Flush(key), Scan(s[1..], ""))
    else if s[0] == '[' then Then(Flush(key), ScanBracket(s))
    else Scan(s[1..], key + [s[0]])
  }

  predicate IsQuote(c: char) {
    c == '"' || c == '\''
  }

  function ScanBracket(s: string): Parsed
    requires s != "" && s[0] == '['
    decreases |s|, 0
  {
    if |s| == 1 then Err(UnmatchedBracket)
    else if IsQuote(s[1]) then
      var end := IndexOf(s[2..], s[1]);
      if end.None? then Err(UnterminatedQuote)
      else
        var e := end.value + 2;
        if e + 1 >= |s| || s[e + 1] != ']' then Err(MissingClose)
        else Then([Key(s[2..e])], Scan(s[e + 2..], ""))
    else
      var close := IndexOf(s, ']');
      if close.None? then Err(UnmatchedBracket)
      else
        var n := Atoi(TrimSpace(s[1..close.value]));
        if n.None? then Err(NonInteger)
        else if n.value < 0 then Err(NegativeIndex)
        else Then([Index(n.value)], Scan(s[close.value + 1..], ""))
  }

  function Walk(doc: Value, segments: seq<Segment>): Option<Value> {
    if segments == [] then Some(doc)
    else match segments[0]
      case Index(i) => if doc.List? && i < |doc.items| then Walk(doc.items[i], segments[1..]) else None
      case Key(k) => if doc.Map? && k in doc.fields then Walk(doc.fields[k], segments[1..]) else None
  }

  // Value found, not found, or a parse error.
  function Lookup(doc: Value, expr: string): Result<Option<Value>, ParseError> {
    match Scan(expr, "")
    case Ok(segments) => Ok(Walk(doc, segments))
    case Err(e) => Err(e)
  }

  // -------------------------------------------------------------- operations

  lemma ThenTwice(a: seq<Segment>, b: seq<Segment>, r: Parsed)
    ensures Then(a, Then(b, r)) == Then(a + b, r)
  {
    if r.Ok? { assert a + (b + r.value) == (a + b) + r.value; }
  }

  method Parse(expr: string) returns (r: Parsed)
    ensures r == Scan(expr, "")
  {
    var segments: seq<Segment>, key, idx := [], "", 0;
    assert expr[0..] == expr;
    ThenNothing(Scan(expr, ""));
    while idx < |expr|
      invariant idx <= |expr|
      invariant Scan(expr, "") == Then(segments, Scan(expr[idx..], key))
    {
      ghost var s := expr[idx..];
      assert s[1..] == expr[idx + 1..];
      if expr[idx] == '.' {
        ThenTwice(segments, Flush(key), Scan(s[1..], ""));
        segments, key := segments + Flush(key), "";
        idx := idx + 1;
      } else if expr[idx] == '[' {
        ThenTwice(segments, Flush(key), ScanBracket(s));
        segments, key := segments + Flush(key), "";
        var bracket := ParseBracket(expr, idx);
        if bracket.Err? {
          return Err(bracket.error);
        }
        var (segment, next) := bracket.value;
        ThenTwice(segments, [segment], Scan(expr[next..], ""));
        segments, idx := segments + [segment], next;
      } else {
        key := key + [expr[idx]];
        idx := idx + 1;
      }
    }
    return Ok(segments + Flush(key));
  }

  // The '[' case of the scanner: the segment and where to go on.
  method ParseBracket(expr: string, idx: nat) returns (r: Result<(Segment, nat), ParseError>)
    requires idx < |expr| && expr[idx] == '['
    ensures r.Ok? ==> idx < r.value.1 <= |expr|
    ensures ScanBracket(expr[idx..]) ==
      if r.Ok? then Then([r.value.0], Scan(expr[r.value.1..], "")) else Err(r.error)
  {
    hide Scan, Atoi, TrimSpace, IndexOf;
    ghost var s := expr[idx..];
    if idx + 1 >= |expr| {
      return Err(UnmatchedBracket);
    }
    if IsQuote(expr[idx + 1]) {
      assert s[2..] == expr[idx + 2..];
      var end := IndexOf(expr[idx + 2..], expr[idx + 1]);
      if end.None? {
        return Err(UnterminatedQuote);
      }
      var e := end.value + idx + 2;
      if e + 1 >= |expr| || expr[e + 1] != ']' {
        return Err(MissingClose);
      }
      assert s[2..end.value + 2] == expr[idx + 2..e] && s[end.value + 4..] == expr[e + 2..];
      return Ok((Key(expr[idx + 2..e]), e + 2));
    }
    var close := IndexOf(expr[idx..], ']');
    if close.None? {
      return Err(UnmatchedBracket);
    }
    var c := close.value + idx;
    assert s[1..close.value] == expr[idx + 1..c] && s[close.value + 1..] == expr[c + 1..];
    var n := Atoi(TrimSpace(expr[idx + 1..c]));
    if n.None? {
      return Err(NonInteger);
    }
    if n.value < 0 {
      return Err(NegativeIndex);
    }
    return Ok((Index(n.value), c + 1));
  }

  lemma ThenNothing(r: Parsed)
    ensures Then([], r) == r
  {
    if r.Ok? { assert [] + r.value == r.value; }
  }

  method Get(doc: Value, expr: string) returns (r: Result<Option<Value>, ParseError>)
    ensures r == Lookup(doc, expr)
    ensures Scan(expr, "").Err? ==> r == Err(Scan(expr, "").error)
  {
    if expr == "" || expr == "." {
      assert expr == "." ==> expr[1..] == "" && Scan(expr, "") == Then([], Scan("", ""));
      return Ok(Some(doc));
    }
    var parsed := Parse(expr);
    if parsed.Err? {
      return Err(parsed.error);
    }
    var segments, cur := parsed.value, doc;
    for i := 0 to |segments|
      invariant Walk(doc, segments) == Walk(cur, segments[i..])
    {
      match segments[i] {
        case Index(n) =>
          if !cur.List? || n >= |cur.items| { return Ok(None); }
          cur := cur.items[n];
        case Key(k) =>
          if !cur.Map? || k !in cur.fields { return Ok(None); }
          cur := cur.fields[k];
      }
    }
    return Ok(Some(cur));
  }
}
