/** Failure-carrying result types shared by the modules of this model. */
module Wrappers {

  /** A value that may be absent (Kotlin's nullable `T?`, Java's `null`). */
  datatype Option<+T> = None | Some(value: T)

  /** The outcome of an operation that either returns a value or throws. */
  datatype Result<+T> = Ok(value: T) | Err(error: Error)

  /** Why an operation of the source aborted. */
  datatype Error =
    | EmptyInterval          // an Interval or Root built with low > high
    | DivisionByZero         // a rational or interval division by zero
    | IndexOutOfBounds       // a list or array read or written outside its range
    | NoSuchElement          // next()/first() on an empty collection
    | IllegalState(reason: string)   // an `error(...)` call of the source
    | OutOfFuel              // the fuel bound of a loop that may not terminate was exhausted
}
