/** Failure-carrying result types shared by the word-square modules. */
module Wrappers {

  /** A value that may be absent (Java's `Optional`, or a nullable reference). */
  datatype Option<+T> = None | Some(value: T)
  {
    /** The wrapped value, or `default` when absent (Java's `Optional.orElse`). */
    function GetOr(default: T): T
    {
      match this
      case Some(v) => v
      case None => default
    }
  }

  /** Either a value or the error that was raised instead of producing it. */
  datatype Result<+T, +E> = Success(value: T) | Failure(error: E)
}
