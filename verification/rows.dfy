/** The one search every table lookup shares: `rows[0]` of a `SELECT ... WHERE`,
    that is, the first row in table order that the condition selects. */
module Rows {
  import opened Wrappers

  /** Row `k` is selected and no row before it is. */
  predicate FirstAt<T>(rows: seq<T>, p: T -> bool, k: int) {
    0 <= k < |rows| && p(rows[k]) && forall j :: 0 <= j < k ==> !p(rows[j])
  }

  /** The first row of `rows` that satisfies `p`, if any. */
  function First<T(==)>(rows: seq<T>, p: T -> bool): (r: Option<T>)
    ensures r.Some? ==> r.value in rows && p(r.value)
    ensures r.Some? ==> exists k :: FirstAt(rows, p, k) && rows[k] == r.value
    ensures r.None? <==> forall i :: 0 <= i < |rows| ==> !p(rows[i])
  {
    if rows == [] then None
    else if p(rows[0]) then
      assert FirstAt(rows, p, 0);
      Some(rows[0])
    else
      var r := First(rows[1..], p);
      assert forall i :: 1 <= i < |rows| ==> rows[i] == rows[1..][i - 1];
      if r.Some? then
        var k :| FirstAt(rows[1..], p, k) && rows[1..][k] == r.value;
        assert FirstAt(rows, p, k + 1);
        r
      else r
  }
}
