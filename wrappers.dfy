/** Optional values and fallible results, used for the nullable references and
    thrown exceptions of the modelled code. */
module Wrappers {

  /** A value that may be absent (`null` / `undefined` in the source). */
  datatype Option<+T> = None | Some(value: T) {
    function GetOr(default: T): T {
      match this
      case Some(v) => v
      case None => default
    }
  }

  /** Either a value or the error that the source would throw. */
  datatype Result<+R, +E> = Success(value: R) | Failure(error: E)
}
