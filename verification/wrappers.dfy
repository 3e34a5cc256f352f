/** Optional values and fallible results, used for Go's nil pointers and
    (value, error) pairs. */
module Wrappers {

  datatype Option<+T> = None | Some(value: T)

  datatype Result<+R, +E> = Ok(value: R) | Err(error: E)

  /** `f` applied to each element in turn, or None as soon as it fails on one. */
  function MapAll<A, B>(xs: seq<A>, f: A -> Option<B>): (r: Option<seq<B>>)
    ensures r.Some? ==> |r.value| == |xs|
  {
    if |xs| == 0 then Some([])
    else
      var init := MapAll(xs[..|xs| - 1], f);
      var last := f(xs[|xs| - 1]);
      if init.None? || last.None? then None else Some(init.value + [last.value])
  }

  /** MapAll succeeds exactly when `f` succeeds on every element, and then
      holds the results position by position. */
  lemma {:induction false} MapAllElements<A, B>(xs: seq<A>, f: A -> Option<B>)
    ensures MapAll(xs, f).Some? <==> forall k :: 0 <= k < |xs| ==> f(xs[k]).Some?
    ensures MapAll(xs, f).Some? ==> forall k :: 0 <= k < |xs| ==> f(xs[k]) == Some(MapAll(xs, f).value[k])
  {
    if |xs| > 0 {
      var init := xs[..|xs| - 1];
      MapAllElements(init, f);
      assert forall k :: 0 <= k < |init| ==> init[k] == xs[k];
    }
  }
}
