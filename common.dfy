/** Small building blocks shared by both job files: an optional value and the
    first-match search that lodash's `_.find` performs. */
module Common {

  /** A value that may be missing (`undefined` on the JavaScript side). */
  datatype Option<T> = None | Some(value: T) {
    /** The value, or `default` when it is missing, as `_.get(obj, path, default)` returns. */
    function GetOr(default: T): T {
      if Some? then value else default
    }
  }

  /** The first element of `s` that satisfies `p`, scanning from the front, or
      None when no element does. */
  function Find<T(==)>(s: seq<T>, p: T -> bool): (r: Option<T>)
    ensures r.None? <==> forall j :: 0 <= j < |s| ==> !p(s[j])
    ensures r.Some? ==>
      exists i :: 0 <= i < |s| && s[i] == r.value && p(s[i]) && forall j :: 0 <= j < i ==> !p(s[j])
  {
    if s == [] then None
    else if p(s[0]) then
      Some(s[0])
    else
      var r := Find(s[1..], p);
      assert forall j :: 1 <= j < |s| ==> s[j] == s[1..][j - 1];
      if r.Some? then
        var i :| 0 <= i < |s[1..]| && s[1..][i] == r.value && p(s[1..][i]) && forall j :: 0 <= j < i ==> !p(s[1..][j]);
        assert s[i + 1] == r.value && forall j :: 0 <= j < i + 1 ==> !p(s[j]);
        r
      else
        r
  }

  /** Finding the element at an index whose predecessors all fail `p`. */
  lemma {:induction false} FindAt<T>(s: seq<T>, p: T -> bool, i: nat)
    requires i < |s| && p(s[i])
    requires forall j :: 0 <= j < i ==> !p(s[j])
    ensures Find(s, p) == Some(s[i])
  {
    var r := Find(s, p);
    var k :| 0 <= k < |s| && s[k] == r.value && p(s[k]) && forall j :: 0 <= j < k ==> !p(s[j]);
    assert !(k < i) && !(i < k);
  }
}
