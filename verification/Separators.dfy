// When a separator character can be found again in a joined string.
module Separators {
  lemma NoMarkBeyond(a: string, x: string, mark: char, i: int)
    requires mark !in x && |a| < i < |a + [mark] + x|
    ensures (a + [mark] + x)[i] != mark
  {
    assert (a + [mark] + x)[i] == x[i - |a| - 1];
  }

  // Split at the last mark: the right-hand parts are free of it.
  lemma LastMark(a: string, x: string, b: string, y: string, mark: char)
    requires a + [mark] + x == b + [mark] + y && mark !in x && mark !in y
    ensures a == b && x == y
  {
    var s, t := a + [mark] + x, b + [mark] + y;
    assert s[|a|] == mark && t[|b|] == mark;
    if |a| < |b| {
      NoMarkBeyond(a, x, mark, |b|);
    } else if |b| < |a| {
      NoMarkBeyond(b, y, mark, |a|);
    } else {
      assert a == s[..|a|] && b == t[..|a|];
      assert x == s[|a| + 1..] && y == t[|a| + 1..];
    }
  }

  lemma NoMarkBefore(a: string, x: string, mark: char, i: int)
    requires mark !in a && 0 <= i < |a|
    ensures (a + [mark] + x)[i] != mark
  {
    assert (a + [mark] + x)[i] == a[i];
  }

  // Split at the first mark: the left-hand parts are free of it.
  lemma FirstMark(a: string, x: string, b: string, y: string, mark: char)
    requires a + [mark] + x == b + [mark] + y && mark !in a && mark !in b
    ensures a == b && x == y
  {
    var s, t := a + [mark] + x, b + [mark] + y;
    assert s[|a|] == mark && t[|b|] == mark;
    if |a| < |b| {
      NoMarkBefore(b, y, mark, |a|);
    } else if |b| < |a| {
      NoMarkBefore(a, x, mark, |b|);
    } else {
      assert a == s[..|a|] && b == t[..|a|];
      assert x == s[|a| + 1..] && y == t[|a| + 1..];
    }
  }
}
