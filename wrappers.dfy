/** Option and Result, the two failure-carrying types the date-time code is written
    with, and `FindMap`, the first-match-wins search over a list of candidates. */
module Wrappers {

  datatype Option<+T> = None | Some(value: T) {

    /** Turns a missing value into the given error, like Rust's `Option::ok_or`. */
    function OkOr<E>(error: E): (r: Result<T, E>)
      ensures r.Ok? <==> Some?
      ensures Some? ==> r.value == value
      ensures None? ==> r.error == error
    {
      match this
      case Some(v) => Ok(v)
      case None => Err(error)
    }
  }

  /** Failure-compatible, so that `:-` propagates an `Err` the way Rust's `?` does. */
  datatype Result<+T, +E> = Ok(value: T) | Err(error: E) {

    predicate IsFailure() {
      Err?
    }

    function PropagateFailure<U>(): Result<U, E>
      requires Err?
    {
      Err(error)
    }

    function Extract(): T
      requires Ok?
    {
      value
    }
  }

  /** Applies `f` to the elements of `xs` in order and returns the first `Some`,
      or `None` when every element gives `None` (Rust's `Iterator::find_map`). */
  function FindMap<T, U>(xs: seq<T>, f: T -> Option<U>): (r: Option<U>)
    ensures r.None? <==> forall i :: 0 <= i < |xs| ==> f(xs[i]).None?
    ensures r.Some? ==> exists i :: 0 <= i < |xs| && f(xs[i]) == r
                                 && forall j :: 0 <= j < i ==> f(xs[j]).None?
  {
    if xs == [] then None
    else if f(xs[0]).Some? then f(xs[0])
    else
      var r := FindMap(xs[1..], f);
      assert forall i :: 1 <= i < |xs| ==> xs[i] == xs[1..][i - 1];
      if r.Some? then
        ghost var k :| 0 <= k < |xs[1..]| && f(xs[1..][k]) == r
                       && forall j :: 0 <= j < k ==> f(xs[1..][j]).None?;
        assert f(xs[k + 1]) == r;
        r
      else r
  }

  /** On a one-element list, `FindMap` is just the one application. */
  lemma FindMapSingleton<T, U>(x: T, f: T -> Option<U>)
    ensures FindMap([x], f) == f(x)
  {
  }
}
