/** The exceptions a survey schema raises, and the result types that carry them. */
module Errors {

  /** The project's own exception classes, plus the Python built-in errors the
      code lets escape (a dictionary miss, iterating None, a bad int(), a list index). */
  datatype ErrorKind =
    | DuplicateFieldName
    | FieldDoesNotExist
    | Validation
    | CategoryCode
    | DuplicateCategory
    | KeyError
    | TypeError
    | ValueError
    | IndexError

  datatype Option<T> = None | Some(value: T)

  /** The outcome of an operation that either returns a value or raises. */
  datatype Result<T> = Ok(value: T) | Fail(error: ErrorKind)

  /** The outcome of coercing a raw answer: a canonical value, "no answer"
      (Python None), or a raised error. */
  datatype Coerced<T> = Value(value: T) | Absent | Failure(error: ErrorKind)
}
