/** Optional and fallible results shared by the other modules. */
module Wrappers {

  /** A value that may be missing; `None` stands for pandas' NaN / null. */
  datatype Option<+T> = None | Some(value: T)
  {
    function GetOr(default: T): T
    {
      match this
      case Some(v) => v
      case None => default
    }
  }

  /** The outcome of a step that raises an exception in Python. */
  datatype Result<+T> = Ok(value: T) | Err(error: Error)

  /** The Python exception a step raises. */
  datatype Error = KeyError(key: string) | IndexError | ValueError(reason: string) | TypeError

  /**
   * A list comprehension whose element may raise: the values in order, or
   * the error of the first element that fails.
   */
  function Collect<S, T>(xs: seq<S>, f: S -> Result<T>): (r: Result<seq<T>>)
    ensures r.Ok? <==> forall i :: 0 <= i < |xs| ==> f(xs[i]).Ok?
    ensures r.Ok? ==> |r.value| == |xs| && forall i :: 0 <= i < |xs| ==> r.value[i] == f(xs[i]).value
    ensures r.Err? ==> exists i :: (0 <= i < |xs| && f(xs[i]) == Err(r.error) &&
      forall k :: 0 <= k < i ==> f(xs[k]).Ok?)
    decreases |xs|
  {
    if |xs| == 0 then Ok([])
    else
      var head := f(xs[0]);
      if head.Err? then Err(head.error)
      else
        var tail := Collect(xs[1..], f);
        assert forall i :: 1 <= i < |xs| ==> xs[1..][i - 1] == xs[i];
        if tail.Err? then Err(tail.error) else Ok([head.value] + tail.value)
  }
}
