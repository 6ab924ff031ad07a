/** Values of the .NET runtime that the modelled code relies on: nullable
    references, the exceptions it raises, and "returned or thrown". */
module Runtime {

  /** A nullable reference: `None` is C#'s `null`. */
  datatype Option<+T> = None | Some(value: T)

  /** The exceptions raised by the modelled members. */
  datatype Exception =
    | ArgumentNull(paramName: string)
    | NotImplemented
    | FileNotFound(message: string, fileName: string)
    | JsonMalformed

  /** A call either returns a value or throws. */
  datatype Result<+T> = Ok(value: T) | Err(error: Exception)
}
