/** Failure-carrying results for the modelled Python code: an operation
    either yields a value or raises one of the exceptions below. */
module Wrappers {

  datatype Option<+T> = None | Some(value: T)

  /** The exceptions the modelled code can raise (none of them is caught
      except where the model says so). */
  datatype Error =
    | IndexError          // subscript out of range
    | KeyError            // missing dictionary key
    | NameError           // use of an undefined name
    | ValueError(msg: string)
    | ZeroDivisionError

  datatype Result<+T> = Ok(value: T) | Err(error: Error)
}
