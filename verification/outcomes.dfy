/** Option and Result values used for every partial operation of the model.
    A Rust `Option` becomes `Option`; a `Result` (or a panic the source reaches
    on a plausible input) becomes `Result`. */
module Outcomes {

  datatype Option<+T> = None | Some(value: T) {
    function GetOr(default: T): T {
      match this
      case Some(v) => v
      case None => default
    }
  }

  datatype Result<+T, +E> = Ok(value: T) | Err(error: E)
}
