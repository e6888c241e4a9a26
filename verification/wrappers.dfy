/** Failure-carrying datatypes shared by every module of the model:
    `Option` stands for a JavaScript value that may be `undefined`/`null`,
    `Result` for a call that either returns or throws. */
module Wrappers {

  datatype Option<+T> = None | Some(value: T) {
    function GetOr(default: T): T {
      match this
      case Some(v) => v
      case None => default
    }
  }

  /** `Thrown` carries the message of the JavaScript exception. */
  datatype Result<+T> = Ok(value: T) | Thrown(message: string)
}
