/** Failure-carrying datatypes used across the model in place of Python's
    `None` returns and caught exceptions. */
module Wrappers {

  /** A value that may be missing: Python's `Optional[T]`. */
  datatype Option<+T> = None | Some(value: T) {

    /** The wrapped value, or `default` when missing (Python's `d.get(k, default)`). */
    function GetOr(default: T): T {
      match this
      case Some(v) => v
      case None => default
    }
  }

  /** Either a value or an error: a call that returns or raises. */
  datatype Result<+R, +E> = Ok(value: R) | Err(error: E)

  /** The one-element or empty sequence an optional value stands for. */
  function OptionToSeq<T>(o: Option<T>): (r: seq<T>)
    ensures |r| <= 1
    ensures o.Some? <==> |r| == 1
    ensures o.Some? ==> r[0] == o.value
  {
    match o
    case Some(v) => [v]
    case None => []
  }
}
