/** Nullable values and first-match lookup shared by every module. */
module Wrappers {

  /** A nullable column or an absent request field. */
  datatype Option<T> = None | Some(value: T)

  /** A point in time, in whole seconds. */
  type Time = nat

  /**
   * Index of the first element satisfying `p`: the `->where(...)->first()`
   * of a query over a table kept in id order.
   */
  function FirstWhere<T>(s: seq<T>, p: T -> bool): (r: Option<nat>)
    ensures r.Some? ==> r.value < |s| && p(s[r.value])
    ensures r.Some? ==> forall k :: 0 <= k < r.value ==> !p(s[k])
    ensures r.None? <==> forall k :: 0 <= k < |s| ==> !p(s[k])
  {
    if s == [] then None
    else if p(s[0]) then Some(0)
    else match FirstWhere(s[1..], p)
      case None => None
      case Some(i) => Some(i + 1)
  }
}
