/** Optional values and results shared by the rest of the model. */
module Wrappers {

  /** A value that may be absent: an optional request field, a missing match. */
  datatype Option<+T> = None | Some(value: T) {

    /** The wrapped value, or `default` when absent (JavaScript's `??`). */
    function GetOr(default: T): T {
      match this
      case Some(v) => v
      case None => default
    }

    /** Zero or one elements, for appending an optional value to a list. */
    function ToSeq(): (s: seq<T>)
      ensures |s| <= 1
      ensures Some? <==> |s| == 1
      ensures Some? ==> s[0] == value
    {
      match this
      case Some(v) => [v]
      case None => []
    }
  }

  /** Either a value or an error description. */
  datatype Result<+R, +E> = Success(value: R) | Failure(error: E)
}
