/** Option and Result, and the kinds of Python exception the card scanner can raise. */
module Wrappers {

  datatype Option<+T> = None | Some(value: T)

  /** The exceptions of the scanner, by kind. */
  datatype Error =
    | KeyError(key: string)        // a dictionary lookup of a missing key
    | IndexError                   // a list index past its end
    | ValueError                   // strptime on a non-date, or an unpacking of the wrong arity
    | ServiceError(reason: string) // a failure reported by the object store or the OCR service

  /** A value, or the exception raised while computing it; usable with `:-`. */
  datatype Result<+T> = Ok(value: T) | Err(error: Error) {

    predicate IsFailure() {
      Err?
    }

    function PropagateFailure<U>(): Result<U>
      requires Err?
    {
      Err(error)
    }

    function Extract(): T
      requires Ok?
    {
      value
    }
  }
}
