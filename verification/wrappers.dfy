/** Small failure-carrying datatypes shared by the other modules. */
module Wrappers {

  /** A value that may be absent: a regular-expression match that failed,
      an object key that is not there. */
  datatype Option<+T> = None | Some(value: T)

  /** The outcome of an external parser: a value or the parser's message. */
  datatype Result<+R> = Success(value: R) | Failure(message: string)
}
