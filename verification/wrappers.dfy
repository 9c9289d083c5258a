/** Nullable values and error-carrying results, as the C# code uses `null`
    and exceptions. */
module Wrappers {

  /** `None` stands for C#'s `null`. */
  datatype Option<+T> = None | Some(value: T) {
    function GetOr(default: T): T {
      match this
      case Some(v) => v
      case None => default
    }
  }

  /** The outcome of an operation that may throw before producing a value. */
  datatype Result<+R, +E> = Success(value: R) | Failure(error: E)
}
