/** Small shared vocabulary: optional values, pass/fail outcomes and bytes. */
module Base {

  /** A value that may be absent; None stands for a NULL pointer. */
  datatype Option<T> = None | Some(value: T) {
    function GetOr(default: T): T {
      match this
      case Some(v) => v
      case None => default
    }
  }

  /** The result of an operation that either succeeds or reports one error kind. */
  datatype Outcome<E> = Pass | Fail(error: E)

  /** A value or the error that prevented computing it. */
  datatype Result<T, E> = Ok(value: T) | Err(error: E)

  /** An octet, the unit of every buffer in the model. */
  newtype byte = x: int | 0 <= x < 256
}
