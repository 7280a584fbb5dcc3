/** Optional values and Java-style failures shared by every module of the model. */
module Wrappers {

  /** A value that may be Java's `null`. */
  datatype Option<+T> = None | Some(value: T) {
    function GetOr(default: T): T {
      match this
      case Some(v) => v
      case None => default
    }
  }

  /** The runtime exceptions the modelled code can raise. */
  datatype JavaException = NullPointerException

  /** The outcome of a call that either returns normally or throws. */
  datatype Result<+T> = Ok(value: T) | Thrown(exception: JavaException)
}
