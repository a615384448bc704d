/** Optional values, used for the results of calls that may produce nothing
    (an image that cannot be decoded, an output name that was not given),
    and the smaller of two numbers, which slicing and the layout share. */
module Wrappers {

  /** Python's `min` of two natural numbers. */
  function Min(a: nat, b: nat): nat {
    if a <= b then a else b
  }

  datatype Option<+T> = None | Some(value: T) {

    /** The wrapped value, or `default` when there is none. */
    function GetOr(default: T): T {
      match this
      case Some(v) => v
      case None => default
    }
  }
}
