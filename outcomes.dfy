/** Failure-carrying values shared by the whole model. The program reports
    each of these conditions by raising (and so ending the command); here
    they are returned. */
module Outcomes {
  datatype Option<T> = None | Some(value: T)

  datatype Error =
    | InvalidDate        // month+day text whose day does not exist that year
    | EmptyWeekdayList   // a weekday-only due text with no recognised day: max() of nothing
    | InvalidIndex       // a display index outside the current listing

  datatype Result<T> = Ok(value: T) | Err(error: Error)

  /** f applied to each element and its position, in order, stopping at the
      first error: what a loop that raises on a bad element builds. */
  function MapAll<T, U>(f: (int, T) -> Result<U>, xs: seq<T>): Result<seq<U>> {
    if |xs| == 0 then Ok([])
    else
      var n := |xs| - 1;
      match MapAll(f, xs[..n])
      case Err(e) => Err(e)
      case Ok(ys) =>
        match f(n, xs[n])
        case Err(e) => Err(e)
        case Ok(y) => Ok(ys + [y])
  }

  /** The map succeeds exactly when f does on every element, and then holds
      f's values in order. */
  lemma {:induction false} MapAllOk<T, U>(f: (int, T) -> Result<U>, xs: seq<T>)
    ensures MapAll(f, xs).Ok? <==> forall k :: 0 <= k < |xs| ==> f(k, xs[k]).Ok?
    ensures MapAll(f, xs).Ok? ==>
      && |MapAll(f, xs).value| == |xs|
      && forall k :: 0 <= k < |xs| ==> MapAll(f, xs).value[k] == f(k, xs[k]).value
    decreases |xs|
  {
    if |xs| > 0 {
      var n := |xs| - 1;
      MapAllOk(f, xs[..n]);
      assert forall k :: 0 <= k < n ==> xs[..n][k] == xs[k];
    }
  }

  /** One more element mapped. */
  lemma MapAllStep<T, U>(f: (int, T) -> Result<U>, xs: seq<T>, n: int)
    requires 0 <= n < |xs| && MapAll(f, xs[..n]).Ok?
    ensures MapAll(f, xs[..n + 1]) ==
      if f(n, xs[n]).Ok? then Ok(MapAll(f, xs[..n]).value + [f(n, xs[n]).value]) else Err(f(n, xs[n]).error)
  {
    assert xs[..n + 1][..n] == xs[..n];
  }

  /** The map fails with the error of the first element f fails on. */
  lemma {:induction false} MapAllFirstError<T, U>(f: (int, T) -> Result<U>, xs: seq<T>, n: int)
    requires 0 <= n < |xs| && MapAll(f, xs[..n]).Ok? && f(n, xs[n]).Err?
    ensures MapAll(f, xs) == Err(f(n, xs[n]).error)
    decreases |xs|
  {
    var m := |xs| - 1;
    if n == m {
      assert xs[..n] == xs[..m];
    } else {
      var init := xs[..m];
      assert init[..n] == xs[..n] && init[n] == xs[n];
      MapAllFirstError(f, init, n);
    }
  }
}
