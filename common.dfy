/** Failure-carrying values shared by every module of the model. */
module Common {

  datatype Option<+T> = None | Some(value: T)

  /** The Python exceptions the modelled code raises or catches. */
  datatype Error =
    | ValueError          // bad literal for int(), bad date, wrong argument kind
    | TypeError           // subscripting None, `in` on None, len(None)
    | KeyError            // missing dict key
    | IndexError          // indexing an empty string or list
    | ZeroDivisionError   // division by zero
    | FileNotFoundError   // opening a missing file for reading
    | DatabaseError       // a failed SQL statement

  datatype Result<+T> = Ok(value: T) | Err(error: Error)

  /**
   * A Python argument whose annotated type is not enforced at run time:
   * either a value of the annotated type, or some other Python object.
   */
  datatype PyArg<+T> = Arg(value: T) | WrongType

  function Min(a: int, b: int): int { if a < b then a else b }
}
