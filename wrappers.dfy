/** Optional values and the exceptions the JavaScript source can raise. */
module Wrappers {

  /** A value that may be absent: `None` stands for JavaScript `undefined`. */
  datatype Option<+T> = None | Some(value: T) {
    function GetOr(default: T): T {
      match this
      case Some(v) => v
      case None => default
    }
  }

  /** The exceptions the modelled code can throw: an explicit `throw new Error(message)`,
      a `RangeError` from a DataView access out of bounds, or a `TypeError` from calling a
      member that does not exist. */
  datatype JsError = Error(message: string) | RangeError | TypeError

  /** Either the value a call returns or the exception it throws. */
  datatype Result<+T> = Ok(value: T) | Err(error: JsError)
}
