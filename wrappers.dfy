/** Option and Result, the two wrappers the Rust code returns everywhere, and
    Outcome, which records whether a step returned or panicked (an `unwrap` on
    `None`/`Err`, an out-of-range index). */
module Wrappers {

  datatype Option<+T> = None | Some(value: T) {
    function GetOr(default: T): T {
      match this
      case Some(v) => v
      case None => default
    }
  }

  datatype Result<+T, +E> = Ok(value: T) | Err(error: E)

  datatype Outcome<+T> = Returned(value: T) | Panicked
}
