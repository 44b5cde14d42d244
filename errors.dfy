/** The exceptions the Python code raises, and a result type that carries either a value or one of them. */
module Errors {

  /** The Python exception an operation raises instead of returning. */
  datatype PyError =
    | IndexError         // a list read past its end, or a function's own "List is empty"
    | ValueError         // the built-in max applied to an empty list
    | ZeroDivisionError  // the mean of an empty list

  datatype Result<T> = Ok(value: T) | Err(error: PyError)
}
