/** Failure-carrying wrappers shared by the model: Kotlin's nullable values become
    `Option`, and the exceptions the source throws become the `Err` side of `Result`. */
module Results {

  datatype Option<+T> = None | Some(value: T) {
    function GetOr(default: T): T {
      match this
      case Some(v) => v
      case None => default
    }
  }

  datatype Result<+T, +E> = Ok(value: T) | Err(error: E)
}
