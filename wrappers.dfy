/** The ways a call into the Python package can end. */
module Wrappers {

  datatype Option<+T> = None | Some(value: T)

  /** The Python exceptions the modelled code can raise. */
  datatype Exception =
    | IndexError  // a string index one past the end
    | KeyError    // a table the data file does not hold
    | NameError   // a name the module never imported

  /** A step that either produces a value or raises. */
  datatype Result<+T> = Ok(value: T) | Err(exception: Exception)

  /** A Python call returns a value, returns None (the package's way of
      reporting a rejected argument), or raises. */
  datatype Outcome<+T> = Return(value: T) | ReturnNone | Raise(exception: Exception)
}
