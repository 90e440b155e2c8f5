/** Failure-carrying datatypes shared by the whole model: `Option` stands for a
    JavaScript `null`/`undefined` result, `Result` for a call that either
    returns a value or throws. */
module Wrappers {

  datatype Option<+T> = None | Some(value: T) {

    function GetOr(default: T): T {
      match this
      case Some(v) => v
      case None => default
    }
  }

  datatype Result<+R, +E> = Success(value: R) | Failure(error: E)
}
