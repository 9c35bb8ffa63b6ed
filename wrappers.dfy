/** The exceptions the helpers of util.py raise on bad input, and a result
    type that carries either a value or one of them. */
module Wrappers {

  /** The Python exceptions that reach the caller of a helper. */
  datatype Error =
    | IndexError          // `data[0]` on an empty list
    | KeyError            // `popitem()` on an empty dict
    | ValueError          // `min([])`
    | ZeroDivisionError   // `x / 0`

  datatype Result<+T> = Ok(value: T) | Err(error: Error)
}
