// Option and Result, used throughout the model: an optional value
// (JavaScript's null/undefined/NaN outcomes) and a value-or-error result
// (a JavaScript exception carrying its message).
module Wrappers {

  datatype Option<+T> = None | Some(value: T)

  datatype Result<+T, +E> = Ok(value: T) | Err(error: E)

  /**
   * xs.map(f) where f may throw: every result in order, or the error of the
   * first element f fails on (later elements are never reached).
   */
  function MapAll<A, B, E>(xs: seq<A>, f: A -> Result<B, E>): (r: Result<seq<B>, E>)
    ensures r.Ok? <==> forall i :: 0 <= i < |xs| ==> f(xs[i]).Ok?
    ensures r.Ok? ==> (|r.value| == |xs|
                       && forall i :: 0 <= i < |xs| ==> f(xs[i]) == Ok(r.value[i]))
    ensures r.Err? ==> exists i :: (0 <= i < |xs| && f(xs[i]) == Err(r.error)
                                    && forall k :: 0 <= k < i ==> f(xs[k]).Ok?)
  {
    if xs == [] then Ok([])
    else
      match f(xs[0])
      case Err(e) => Err(e)
      case Ok(y) =>
        match MapAll(xs[1..], f)
        case Err(e) =>
          ghost var i :| 0 <= i < |xs| - 1 && f(xs[1..][i]) == Err(e)
                         && forall k :: 0 <= k < i ==> f(xs[1..][k]).Ok?;
          assert f(xs[i + 1]) == Err(e);
          Err(e)
        case Ok(ys) => Ok([y] + ys)
  }

  /** One element of a successful MapAll. */
  lemma MapAllAt<A, B, E>(xs: seq<A>, f: A -> Result<B, E>, ys: seq<B>, i: nat)
    requires MapAll(xs, f) == Ok(ys) && i < |xs|
    ensures i < |ys| && f(xs[i]) == Ok(ys[i])
  {
  }
}
