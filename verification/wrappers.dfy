/** Option and Result values used for the model's absent attributes and its
    error path. */
module Wrappers {

  /** A value that may be absent (an attribute missing from a dict). */
  datatype Option<+T> = None | Some(value: T) {

    /** The carried value, or `default` when there is none
        (Python's `dict.get(key, default)`). */
    function GetOr(default: T): (r: T)
      ensures Some? ==> r == value
      ensures None? ==> r == default
    {
      match this
      case Some(v) => v
      case None => default
    }
  }

  /** Either a computed value or the error that a Python call would raise. */
  datatype Result<+R, +E> = Success(value: R) | Failure(error: E)
}
