/** Failure-compatible result types shared by the parsing and fitting modules. */
module Wrappers {

  /** An optional value. */
  datatype Option<+T> = None | Some(value: T)

  /** Either a value or the error that stopped the computation. */
  datatype Result<+R, +E> = Success(value: R) | Failure(error: E) {

    predicate IsFailure() {
      Failure?
    }

    function PropagateFailure<U>(): Result<U, E>
      requires Failure?
    {
      Failure(error)
    }

    function Extract(): R
      requires Success?
    {
      value
    }
  }

  /** Gathers the values of `rs` in order, or stops at the first failure,
      the way a loop that raises on its first bad item does. */
  function Collect<R, E>(rs: seq<Result<R, E>>): (r: Result<seq<R>, E>)
    ensures r.Success? <==> forall k :: 0 <= k < |rs| ==> rs[k].Success?
    ensures r.Success? ==> |r.value| == |rs| && forall k :: 0 <= k < |rs| ==> rs[k] == Success(r.value[k])
    ensures r.Failure? ==>
      exists k :: 0 <= k < |rs| && rs[k] == Failure(r.error) && forall j :: 0 <= j < k ==> rs[j].Success?
  {
    if rs == [] then Success([])
    else
      match rs[0]
      case Failure(e) => Failure(e)
      case Success(v) =>
        var rest := Collect(rs[1..]);
        match rest
        case Failure(e) =>
          assert forall j :: 1 <= j < |rs| ==> rs[j] == rs[1..][j - 1];
          Failure(e)
        case Success(vs) =>
          assert forall j :: 1 <= j < |rs| ==> rs[j] == rs[1..][j - 1];
          Success([v] + vs)
  }
}
