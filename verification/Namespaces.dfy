// internal/runner/apply.go, lines 711-748: per-test namespace names.
module Namespaces {
  predicate IsAlnum(c: char) {
    'a' <= c <= 'z' || '0' <= c <= '9'
  }

  predicate IsSeparator(c: char) {
    c in "-_ /."
  }

  // strings.ToLower, as far as its result can be an ASCII letter: two non-ASCII
  // capitals fold into ASCII, the others stay outside and are dropped.
  function Lower(c: char): char {
    if 'A' <= c <= 'Z' then (c as int + 32) as char
    else if c == '\U{212a}' then 'k'
    else if c == '\U{130}' then 'i'
    else c
  }

  // ---------------------------------------------------------- specification

  predicate EndsInDash(b: string) {
    b != "" && b[|b| - 1] == '-'
  }

  // What the builder holds after s.
  function Built(s: string): string {
    if s == "" then ""
    else
      var b, c := Built(s[..|s| - 1]), Lower(s[|s| - 1]);
      if IsAlnum(c) then b + [c]
      else if IsSeparator(c) && b != "" && !EndsInDash(b) then b + "-"
      else b
  }

  function TrimLeft(s: string): string {
    if s != "" && s[0] == '-' then TrimLeft(s[1..]) else s
  }

  function TrimRight(s: string): string {
    if EndsInDash(s) then TrimRight(s[..|s| - 1]) else s
  }

  function Sanitize(s: string): string {
    TrimRight(TrimLeft(Built(s)))
  }

  // ------------------------------------------------------------- operations

  method SanitizeDNSLabel(s: string) returns (r: string)
    ensures r == Sanitize(s)
  {
    var b, prevDash := "", false;
    for i := 0 to |s|
      invariant b == Built(s[..i])
      invariant prevDash == EndsInDash(b)
    {
      assert s[..i + 1][..i] == s[..i];
      var c := Lower(s[i]);
      if IsAlnum(c) {
        b := b + [c];
        prevDash := false;
      } else if IsSeparator(c) {
        if !prevDash && |b| > 0 {
          b := b + "-";
          prevDash := true;
        }
      }
    }
    assert s[..|s|] == s;
    r := TrimRight(TrimLeft(b));
  }

  // suffix is what randHex(8) returns: eight hexadecimal digits.
  method AllocateNamespace(displayName: string, suffix: string) returns (name: string)
    requires |suffix| == 8 && forall c :: c in suffix ==> '0' <= c <= '9' || 'a' <= c <= 'f'
    ensures |name| <= 63 && IsDNSLabel(name)
    ensures var clean := Sanitize(displayName);
      name == "vg-" + (if clean == "" then "test" else if |clean| > 51 then clean[..51] else clean) + "-" + suffix
  {
    var budget := 63 - |"vg-"| - 1 - |suffix|;
    var clean := SanitizeDNSLabel(displayName);
    SanitizedIsCanonical(displayName);
    if |clean| > budget {
      clean := clean[..budget];
    }
    if clean == "" {
      clean := "test";
    }
    name := "vg-" + clean + "-" + suffix;
    forall c | c in name ensures IsLabelChar(c) {}
    assert name[|name| - 1] == suffix[7] && suffix[7] in suffix;
  }

  // -------------------------------------------------------------- properties

  predicate IsLabelChar(c: char) {
    IsAlnum(c) || c == '-'
  }

  // A DNS label: section 2.1 of RFC 1123 and section 2.3.4 of RFC 1035.
  predicate IsDNSLabel(s: string) {
    && 1 <= |s| <= 63
    && (forall c :: c in s ==> IsLabelChar(c))
    && IsAlnum(s[0]) && IsAlnum(s[|s| - 1])
  }

  predicate NoDoubleDash(s: string) {
    forall i :: 0 <= i < |s| - 1 ==> !(s[i] == '-' && s[i + 1] == '-')
  }

  // Label characters, with no leading, trailing or doubled dash.
  predicate Canonical(s: string) {
    && (forall c :: c in s ==> IsLabelChar(c))
    && (s != "" ==> s[0] != '-' && s[|s| - 1] != '-')
    && NoDoubleDash(s)
  }

  lemma {:induction false} BuiltShape(s: string)
    ensures forall c :: c in Built(s) ==> IsLabelChar(c)
    ensures Built(s) != "" ==> Built(s)[0] != '-'
    ensures NoDoubleDash(Built(s))
  {
    if s != "" { BuiltShape(s[..|s| - 1]); }
  }

  lemma LastDashIsSingle(b: string)
    requires NoDoubleDash(b) && EndsInDash(b) && b[0] != '-'
    ensures |b| >= 2 && b[|b| - 2] != '-'
  {
    var i := |b| - 2;
    assert b[i + 1] == '-';
  }

  // The name is what is built, less the one dash that can be left at its end.
  lemma TrimOfBuilt(s: string)
    ensures var b := Built(s);
      Sanitize(s) == if b != "" && b[|b| - 1] == '-' then b[..|b| - 1] else b
  {
    BuiltShape(s);
    var b := Built(s);
    assert TrimLeft(b) == b;
    if EndsInDash(b) {
      LastDashIsSingle(b);
      assert !EndsInDash(b[..|b| - 1]);
    }
  }

  lemma SanitizedIsCanonical(s: string)
    ensures Canonical(Sanitize(s))
  {
    BuiltShape(s);
    TrimOfBuilt(s);
    var b, r := Built(s), Sanitize(s);
    if EndsInDash(b) { LastDashIsSingle(b); }
    forall c | c in r ensures IsLabelChar(c) { assert c in b; }
  }

  lemma {:induction false} CanonicalIsBuilt(s: string)
    requires (forall c :: c in s ==> IsLabelChar(c)) && (s != "" ==> s[0] != '-') && NoDoubleDash(s)
    ensures Built(s) == s
  {
    if s != "" {
      var front, last := s[..|s| - 1], s[|s| - 1];
      CanonicalIsBuilt(front);
      assert s == front + [last] && last in s;
      if |s| >= 2 { assert !(s[|s| - 2] == '-' && s[|s| - 1] == '-'); }
      assert Lower(last) == last;
    }
  }

  // The sanitiser leaves alone exactly the canonical strings, so running it
  // again changes nothing.
  lemma SanitizeFixesExactlyCanonical(s: string)
    ensures Sanitize(s) == s <==> Canonical(s)
    ensures Sanitize(Sanitize(s)) == Sanitize(s)
  {
    SanitizedIsCanonical(s);
    CanonicalIsBuilt(Sanitize(s));
    TrimOfBuilt(Sanitize(s));
    if Canonical(s) {
      CanonicalIsBuilt(s);
      TrimOfBuilt(s);
    }
  }

  // The letters and digits of a name, lower-cased.
  function Letters(s: string): string {
    if s == "" then ""
    else Letters(s[..|s| - 1]) + (if IsAlnum(Lower(s[|s| - 1])) then [Lower(s[|s| - 1])] else "")
  }

  // No letter or digit is lost, added or reordered.
  lemma {:induction false} BuiltKeepsLetters(s: string)
    ensures Letters(Built(s)) == Letters(s)
  {
    if s != "" {
      var front, c := s[..|s| - 1], Lower(s[|s| - 1]);
      BuiltKeepsLetters(front);
      var b := Built(front);
      assert (b + [c])[..|b|] == b && (b + "-")[..|b|] == b;
      assert IsAlnum(c) ==> Lower(c) == c;
    }
  }

  lemma SanitizeKeepsLetters(s: string)
    ensures Letters(Sanitize(s)) == Letters(s)
  {
    BuiltKeepsLetters(s);
    TrimOfBuilt(s);
  }

  // ------------------------------------------------- what becomes of a character

  // What each character adds to the builder: a letter or digit itself, in lower
  // case (the Kelvin sign and the dotted capital I are letters too), a separator
  // one dash between others, and anything else nothing.
  lemma BuiltNext(s: string, c: char)
    ensures Built("") == ""
    ensures var b := Built(s);
      Built(s + [c]) ==
        if 'a' <= c <= 'z' || '0' <= c <= '9' then b + [c]
        else if 'A' <= c <= 'Z' then b + ["abcdefghijklmnopqrstuvwxyz"[c as int - 'A' as int]]
        else if c in ['-', '_', ' ', '/', '.'] then (if b == "" || b[|b| - 1] == '-' then b else b + "-")
        else if c == '\U{212a}' then b + "k"
        else if c == '\U{130}' then b + "i"
        else b
  {
    assert (s + [c])[..|s|] == s;
    if 'A' <= c <= 'Z' { LowerIs(c); }
  }

  lemma LowerIs(c: char)
    requires 'A' <= c <= 'Z'
    ensures Lower(c) == "abcdefghijklmnopqrstuvwxyz"[c as int - 'A' as int]
  {
    var i := c as int - 'A' as int;
    AlphabetIs(i);
  }

  lemma AlphabetIs(i: nat)
    requires i < 26
    ensures "abcdefghijklmnopqrstuvwxyz"[i] == ('a' as int + i) as char
  {
  }
}
