// Result and option types shared by every module: Go's (value, error) and
// (value, bool) returns, and a slice of errors aligned with its inputs.
module Wrappers {
  datatype Option<+T> = None | Some(value: T)

  datatype Result<+T, +E> = Ok(value: T) | Err(error: E)

  // The first non-nil error, in index order.
  function FirstSome<T>(s: seq<Option<T>>): (r: Option<T>)
    ensures r.None? <==> forall i :: 0 <= i < |s| ==> s[i].None?
    ensures r.Some? ==> exists i :: 0 <= i < |s| && s[i] == r && forall j :: 0 <= j < i ==> s[j].None?
  {
    if s == [] then None
    else if s[0].Some? then s[0]
    else
      var rest := FirstSome(s[1..]);
      assert forall j :: 1 <= j < |s| ==> s[j] == s[1..][j - 1];
      assert rest.Some? ==> exists i :: 1 <= i < |s| && s[i] == rest && forall j :: 0 <= j < i ==> s[j].None? by {
        if rest.Some? {
          var k :| 0 <= k < |s[1..]| && s[1..][k] == rest && forall j :: 0 <= j < k ==> s[1..][j].None?;
          assert s[k + 1] == rest;
        }
      }
      rest
  }

}
