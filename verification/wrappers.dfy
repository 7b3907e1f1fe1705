/** Failure-carrying datatypes shared by the whole model.

    Python code in the modelled system signals absence with `None` and
    failure with exceptions; both become values here. */
module Wrappers {

  /** `None`/`Some` — Python's optional value. */
  datatype Option<+T> = None | Some(value: T) {

    /** The value, or `default` when absent. */
    function GetOr(default: T): T {
      match this
      case Some(v) => v
      case None => default
    }
  }

  /** A computation that either returns a value or raises an exception
      (the exception is described by `error`). */
  datatype Result<+R, +E> = Success(value: R) | Failure(error: E)

  /** Puts `x` in front of a sequence that may be absent. */
  function Prepend<T>(x: T, o: Option<seq<T>>): Option<seq<T>> {
    match o
    case Some(t) => Some([x] + t)
    case None => None
  }
}
