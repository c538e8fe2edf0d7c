/** Option and Result, standing for Rust's `Option` and `Result`. */
module Wrappers {

  datatype Option<+T> = None | Some(value: T)

  datatype Result<+T, +E> = Success(value: T) | Failure(error: E)

  /** `opt.unwrap_or(default)` */
  function UnwrapOr<T>(opt: Option<T>, default: T): (r: T)
    ensures opt.Some? ==> r == opt.value
    ensures opt.None? ==> r == default
  {
    match opt
    case Some(v) => v
    case None => default
  }
}
