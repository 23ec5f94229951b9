/** Option and Result types standing in for JavaScript's null/undefined and thrown errors. */
module Wrappers {

  /** A value that may be missing (`null` or `undefined` in the source). */
  datatype Option<T> = None | Some(value: T) {
    function GetOr(default: T): T {
      match this
      case Some(v) => v
      case None => default
    }
  }

  /** Either a value or the message of the error that would be thrown. */
  datatype Result<T> = Ok(value: T) | Err(message: string)

  /** How an asynchronous operation of the state container settles: resolved, or rejected with an error. */
  datatype Outcome = Done | Failed(message: string)
}
