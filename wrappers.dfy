/** Failure-carrying values shared by the model: an optional value, and the
    outcome of an operation that may raise one of the Python exceptions the
    modelled code can raise. */
module Wrappers {

  datatype Option<+T> = None | Some(value: T)

  datatype Result<+T, +E> = Ok(value: T) | Err(error: E)

  /** The exceptions the modelled code raises: a missing dictionary key, and a
      local variable read before the loop that binds it has run. */
  datatype Exception = KeyError(key: string) | UnboundLocalError(name: string)
}
