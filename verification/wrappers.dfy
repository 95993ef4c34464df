/**
 * Failure-carrying results. The Java sources signal misuse by throwing
 * unchecked exceptions; here every such throw is an `Err` value carrying the
 * exception class and its message, and `null` results become `None`.
 */
module Wrappers {

  datatype Option<+T> = None | Some(value: T)

  /** The unchecked exceptions the modelled code can raise. */
  datatype Exception =
    | IllegalArgumentException(message: string)
    | ClassCastException(message: string)

  datatype Result<+T> = Ok(value: T) | Err(error: Exception)
}
