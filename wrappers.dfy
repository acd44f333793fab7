/** Option and Result values for the places where the Python code may
    return None or raise. */
module Wrappers {

  datatype Option<+T> = None | Some(value: T) {
    function GetOr(default: T): T {
      match this
      case Some(v) => v
      case None => default
    }
  }

  /** `Err` carries what the raised exception would carry. */
  datatype Result<+T, +E> = Ok(value: T) | Err(error: E)
}
