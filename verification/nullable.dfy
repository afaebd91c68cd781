/**
  Java's nullable references and the exception an operation may raise,
  as plain datatypes.
 */
module Nullable {

  /** A value that Java would represent as a possibly-null reference. */
  datatype Option<+T> = None | Some(value: T)

  /** Why an operation could not produce a value. */
  datatype Failure =
    | NullOperand   // a null reached code that unboxes or dereferences it
    | IndexOutOfRange   // an array was read past its end

  /** The outcome of an operation that may throw. */
  datatype Result<+T> = Ok(value: T) | Err(failure: Failure)
}
