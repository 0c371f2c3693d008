/** Option and Result types shared by the model, and the Python exceptions the
    modelled code can raise. */
module Wrappers {

  datatype Option<+T> = None | Some(value: T)

  /** The Python exceptions the modelled functions raise or catch. */
  datatype Exception =
    | TypeError(message: string)   // a bad argument or operand type
    | KeyError(key: string)        // a missing dictionary key
    | IOError(path: string)        // a file that cannot be opened

  /** A call that either returns a value or raises. */
  datatype Result<+T> = Ok(value: T) | Err(error: Exception)
}
