// internal/path/path.go, line 99: which texts between brackets are indices.
module PathIntegers {
  import opened Wrappers
  import opened Paths
  import opened PathLaws

  predicate AllZeros(z: string) {
    forall c :: c in z ==> c == '0'
  }

  lemma NumberOfPadded(z: string, n: nat)
    requires AllZeros(z)
    ensures AllDigits(z + Decimal(n)) && Number(z + Decimal(n)) == n
    decreases n
  {
    var d, s := Decimal(n), z + Decimal(n);
    forall c | c in s ensures IsDigit(c) {}
    assert s[|s| - 1] == d[|d| - 1] && s[..|s| - 1] == z + d[..|d| - 1];
    if n >= 10 {
      assert d[..|d| - 1] == Decimal(n / 10);
      NumberOfPadded(z, n / 10);
    } else {
      assert z + d[..|d| - 1] == z;
      NumberOfZeros(z);
    }
  }

  lemma NumberOfZeros(z: string)
    requires AllZeros(z)
    ensures AllDigits(z) && Number(z) == 0
  {
    if z != "" {
      var front, last := z[..|z| - 1], z[|z| - 1];
      assert last in z;
      forall c | c in front ensures c == '0' { assert c in z; }
      NumberOfZeros(front);
    }
  }

  // Every string of digits is a canonical numeral after some zeros.
  lemma {:induction false} DigitsArePadded(s: string) returns (z: string)
    requires s != "" && AllDigits(s)
    ensures AllZeros(z) && s == z + Decimal(Number(s))
    decreases |s|
  {
    var front, last := s[..|s| - 1], s[|s| - 1];
    assert s == front + [last] && last in s;
    hide Decimal, Number;
    forall c | c in front ensures IsDigit(c) { assert c in s; }
    AppendDigit(front, last);
    if front == "" {
      z := "";
    } else {
      z := DigitsArePadded(front);
      if Number(front) == 0 { z := z + "0"; }
    }
  }

  // A digit more, in terms of numerals.
  lemma AppendDigit(front: string, last: char)
    requires AllDigits(front) && IsDigit(last)
    ensures AllDigits(front + [last]) && Decimal(0) == "0"
    ensures var n := Number(front);
      Decimal(Number(front + [last])) == if front == "" || n == 0 then [last] else Decimal(n) + [last]
  {
    hide Decimal;
    var s := front + [last];
    assert s[..|s| - 1] == front && s[|s| - 1] == last;
    DecimalAppends(Number(front), last);
  }

  lemma DecimalAppends(n: nat, last: char)
    requires IsDigit(last)
    ensures Decimal(10 * n + DigitValue(last)) == if n == 0 then [last] else Decimal(n) + [last]
    ensures Decimal(0) == "0"
  {
    var d := DigitValue(last);
    assert (10 * n + d) / 10 == n && (10 * n + d) % 10 == d;
  }

  // The text of an index: a sign or none, leading zeros or none, and a numeral
  // in the range of a 64-bit int; nothing else is an integer.
  lemma IntegersAre(s: string, value: int)
    ensures Atoi(s) == Some(value) <==>
      && -0x8000_0000_0000_0000 <= value <= 0x7FFF_FFFF_FFFF_FFFF
      && exists z, n :: IsNumeral(s, value, z, n)
  {
    if Atoi(s) == Some(value) {
      var z, n := NumeralOf(s, value);
    }
    if z, n :| IsNumeral(s, value, z, n) && -0x8000_0000_0000_0000 <= value <= 0x7FFF_FFFF_FFFF_FFFF {
      NumeralIsRead(s, value, z, n);
    }
  }

  ghost predicate IsNumeral(s: string, value: int, z: string, n: nat) {
    && AllZeros(z)
    && (|| (value == n && (s == z + Decimal(n) || s == "+" + (z + Decimal(n))))
        || (value + n == 0 && s == "-" + (z + Decimal(n))))
  }

  lemma NumeralOf(s: string, value: int) returns (z: string, n: nat)
    requires Atoi(s) == Some(value)
    ensures IsNumeral(s, value, z, n)
  {
    hide Decimal;
    var signed := s[0] == '+' || s[0] == '-';
    var digits := if signed then s[1..] else s;
    z := DigitsArePadded(digits);
    n := Number(digits);
    assert signed ==> s == [s[0]] + digits;
  }

  lemma NumeralIsRead(s: string, value: int, z: string, n: nat)
    requires IsNumeral(s, value, z, n)
    requires -0x8000_0000_0000_0000 <= value <= 0x7FFF_FFFF_FFFF_FFFF
    ensures Atoi(s) == Some(value)
  {
    hide Decimal;
    NumberOfPadded(z, n);
    var d := z + Decimal(n);
    assert d[0] in d;
    assert s == d || s[1..] == d;
  }

  // White space around an index does not count.
  lemma SpacesAroundIndex(a: string, s: string, b: string)
    requires forall c :: c in a + b ==> c in " \t\r\n\U{b}\U{c}"
    requires s != "" && !IsSpace(s[0]) && !IsSpace(s[|s| - 1])
    ensures TrimSpace(a + s + b) == s
  {
    TrimLeftSpaces(a, s + b);
    assert a + s + b == a + (s + b);
    TrimRightSpaces(s, b);
  }

  lemma TrimLeftSpaces(a: string, t: string)
    requires (forall c :: c in a ==> c in " \t\r\n\U{b}\U{c}") && t != "" && !IsSpace(t[0])
    ensures TrimLeft(a + t) == t
  {
    if a == "" {
      assert a + t == t;
    } else {
      assert a[0] in a && (a + t)[1..] == a[1..] + t;
      TrimLeftSpaces(a[1..], t);
    }
  }

  lemma TrimRightSpaces(t: string, b: string)
    requires (forall c :: c in b ==> c in " \t\r\n\U{b}\U{c}") && t != "" && !IsSpace(t[|t| - 1])
    ensures TrimRight(t + b) == t
  {
    if b == "" {
      assert t + b == t;
    } else {
      assert b[|b| - 1] in b && (t + b)[..|t + b| - 1] == t + b[..|b| - 1];
      TrimRightSpaces(t, b[..|b| - 1]);
    }
  }

  // So an index may be written with leading zeros and white space around it.
  lemma PaddedIndexParses(a: string, z: string, n: nat, b: string)
    requires forall c :: c in a + b ==> c in " \t\r\n\U{b}\U{c}"
    requires AllZeros(z) && n <= 0x7FFF_FFFF_FFFF_FFFF
    ensures Scan("[" + (a + (z + Decimal(n)) + b) + "]", "") == Ok([Index(n)])
  {
    hide Scan, Atoi, TrimSpace, IsSpace;
    var d := z + Decimal(n);
    var x := a + d + b;
    var s := "[" + x + "]";
    PaddedIsPlain(a, z, n, b);
    SpacesAroundIndex(a, d, b);
    assert IsNumeral(d, n, z, n);
    IntegersAre(d, n);
    assert s[..|x| + 1] == "[" + x && s[|x| + 1] == ']';
    IndexOfAt(s, |x| + 1);
    assert s[1..|x| + 1] == x && s[|x| + 2..] == "" && s[1] == x[0];
    ScanOfNothing();
    ScanOfBracket(s);
    assert [Index(n)] + [] == [Index(n)];
  }

  lemma PaddedIsPlain(a: string, z: string, n: nat, b: string)
    requires forall c :: c in a + b ==> c in " \t\r\n\U{b}\U{c}"
    requires AllZeros(z)
    ensures var d := z + Decimal(n);
      d != "" && !IsSpace(d[0]) && !IsSpace(d[|d| - 1]) &&
      (forall c :: c in a + d + b ==> c != ']' && !IsQuote(c))
  {
    hide Decimal, IsSpace;
    var d := z + Decimal(n);
    NumberOfPadded(z, n);
    assert d[0] in d && d[|d| - 1] in d;
    DigitIsNoSpace(d[0]);
    DigitIsNoSpace(d[|d| - 1]);
    DigitsAmongSpaces(a, d, b);
  }

  lemma DigitIsNoSpace(c: char)
    requires IsDigit(c)
    ensures !IsSpace(c)
  {
  }

  lemma DigitsAmongSpaces(a: string, d: string, b: string)
    requires (forall c :: c in a + b ==> c in " \t\r\n\U{b}\U{c}") && AllDigits(d)
    ensures forall c :: c in a + d + b ==> c != ']' && !IsQuote(c)
  {
    forall c | c in a + d + b ensures c != ']' && !IsQuote(c) {
      if c !in d { assert c in a + b; }
    }
  }
}
