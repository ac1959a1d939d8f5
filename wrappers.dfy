/** Option and Result, the two failure-carrying types the Rust code uses
    (`Option<T>` and `anyhow::Result<T>`). */
module Wrappers {

  datatype Option<+T> = None | Some(value: T) {
    function GetOr(default: T): T {
      match this
      case Some(v) => v
      case None => default
    }
  }

  datatype Result<+T, +E> = Success(value: T) | Failure(error: E)

  /** Maps `f` over `xs` in order and stops at the first failure: what
      `.map(f).collect::<Result<Vec<_>, _>>()` does, and also what a `map`
      whose closure panics does, since the panic happens at the first
      element that fails. */
  function MapAll<T, U, E>(xs: seq<T>, f: T -> Result<U, E>): (r: Result<seq<U>, E>)
    ensures r.Success? <==> forall i :: 0 <= i < |xs| ==> f(xs[i]).Success?
    ensures r.Success? ==> |r.value| == |xs| && forall i :: 0 <= i < |xs| ==> r.value[i] == f(xs[i]).value
    ensures r.Failure? ==> exists i :: 0 <= i < |xs| && f(xs[i]) == Failure(r.error)
                                       && forall j :: 0 <= j < i ==> f(xs[j]).Success?
  {
    if xs == [] then Success([])
    else
      match f(xs[0])
      case Failure(e) => Failure(e)
      case Success(u) =>
        var rest := MapAll(xs[1..], f);
        match rest
        case Failure(e) =>
          assert exists i :: 0 <= i < |xs| && f(xs[i]) == Failure(e)
                             && forall j :: 0 <= j < i ==> f(xs[j]).Success? by {
            var i :| 0 <= i < |xs| - 1 && f(xs[1..][i]) == Failure(e)
                     && forall j :: 0 <= j < i ==> f(xs[1..][j]).Success?;
            assert forall j :: 0 <= j < i + 1 ==> f(xs[j]).Success? by {
              forall j | 0 <= j < i + 1 ensures f(xs[j]).Success? {
                if j > 0 { assert xs[j] == xs[1..][j - 1]; }
              }
            }
            assert f(xs[i + 1]) == Failure(e);
          }
          Failure(e)
        case Success(us) =>
          assert forall i :: 1 <= i < |xs| ==> xs[i] == xs[1..][i - 1];
          Success([u] + us)
  }
}
