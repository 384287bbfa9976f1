/** Failure-compatible wrappers shared by every module of the model:
    `Option` for values a lookup may not find, `Result` for calls that
    can end in a parsing failure. */
module Wrappers {

  datatype Option<+T> = None | Some(value: T) {

    /** The wrapped value, or `default` when there is none. */
    function GetOr(default: T): T {
      match this
      case Some(v) => v
      case None => default
    }
  }

  datatype Result<+R, +E> = Success(value: R) | Failure(error: E)

  /** `f` applied to every element in order, stopping at the first
      failure: what a Python loop does when a call inside it raises. */
  function MapResult<A, B, E>(xs: seq<A>, f: A -> Result<B, E>): (r: Result<seq<B>, E>)
    ensures r.Success? ==> |r.value| == |xs|
  {
    if |xs| == 0 then Success([])
    else
      match f(xs[0])
      case Failure(err) => Failure(err)
      case Success(y) =>
        match MapResult(xs[1..], f)
        case Failure(err) => Failure(err)
        case Success(ys) => Success([y] + ys)
  }

  /** The loop completes exactly when every call succeeds, and then holds
      every call's value in order. */
  lemma {:induction false} MapResultSuccess<A, B, E>(xs: seq<A>, f: A -> Result<B, E>)
    ensures MapResult(xs, f).Success? <==> forall i :: 0 <= i < |xs| ==> f(xs[i]).Success?
    ensures MapResult(xs, f).Success? ==>
      forall i :: 0 <= i < |xs| ==> MapResult(xs, f).value[i] == f(xs[i]).value
  {
    if |xs| > 0 {
      MapResultSuccess(xs[1..], f);
      assert forall i :: 1 <= i < |xs| ==> xs[1..][i - 1] == xs[i];
    }
  }

  /** A failing loop fails with the error of its first failing call. */
  lemma {:induction false} MapResultFailure<A, B, E>(xs: seq<A>, f: A -> Result<B, E>) returns (i: nat)
    requires MapResult(xs, f).Failure?
    ensures i < |xs| && f(xs[i]).Failure?
    ensures forall j :: 0 <= j < i ==> f(xs[j]).Success?
    ensures MapResult(xs, f).error == f(xs[i]).error
  {
    if f(xs[0]).Failure? {
      i := 0;
    } else {
      var k := MapResultFailure(xs[1..], f);
      i := k + 1;
      assert xs[1..][k] == xs[i];
      forall j | 0 < j < i ensures f(xs[j]).Success? {
        assert xs[1..][j - 1] == xs[j];
      }
    }
  }
}
