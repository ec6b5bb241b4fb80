/** `Option` and `Result` as the crate's constructors and conversions return them. */
module Wrappers {

  datatype Option<+T> = None | Some(value: T) {

    /** `Option::ok_or`: `None` becomes the given error. */
    function OkOr<E>(error: E): Result<T, E> {
      match this
      case Some(v) => Ok(v)
      case None => Err(error)
    }
  }

  datatype Result<+T, +E> = Ok(value: T) | Err(error: E)
}
