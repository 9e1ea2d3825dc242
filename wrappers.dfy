/** Error results for the operations that raise in the Python program. */
module Wrappers {

  /** The Python exceptions the modelled code can raise. */
  datatype PyError =
    | UnboundLocalError    // a local variable read before any assignment
    | IndexError           // a list or row index out of range
    | ValueError           // unpacking an empty zip
    | AttributeError       // an attribute looked up on an object that lacks it
    | NotImplementedError  // raised explicitly by a factory

  /** The value an operation returns, or the exception it raises. */
  datatype Result<+T> = Ok(value: T) | Err(error: PyError)
}
