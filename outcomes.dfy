/** Optional values, the Python exceptions the table code raises, and results that carry them. */
module Outcomes {

  datatype Option<+T> = None | Some(value: T)

  /** The exception classes raised by the table and registry code, each with its message. */
  datatype Error =
    | KeyError(message: string)
    | ValueError(message: string)
    | IndexError(message: string)
    | AttributeError(message: string)

  /** The value an operation returns, or the exception it raises. */
  datatype Result<+T> = Ok(value: T) | Err(error: Error)

  /** The outcome of an operation that returns nothing but may raise. */
  datatype Outcome = Pass | Fail(error: Error)

  /** Message of `IndexError` raised by an out-of-range list subscript. */
  const IndexOutOfRange: string := "list index out of range"
}
