/** Failure-compatible result types shared by every module of the model.
    Java and Kotlin signal failures with exceptions; the model returns them as values. */
module Wrappers {

  /** A nullable reference: `null` becomes None. */
  datatype Option<T> = None | Some(value: T)

  /** The exception classes the modelled code can throw. */
  datatype Error =
    | IllegalArgument       // IllegalArgumentException, Kotlin require(...)
    | IllegalState          // IllegalStateException, Kotlin check(...) and error(...)
    | NoSuchElement         // NoSuchElementException
    | UnsupportedOperation  // UnsupportedOperationException
    | Arithmetic            // ArithmeticException (integer division by zero)
    | IndexOutOfBounds      // ArrayIndexOutOfBoundsException, StringIndexOutOfBoundsException
    | NumberFormat          // NumberFormatException from Integer.parseInt and friends
    | NullPointer           // NullPointerException, Kotlin `!!` on null

  /** Either a value or the exception that was thrown instead. */
  datatype Result<T> = Ok(value: T) | Err(error: Error) {
    predicate IsFailure() { Err? }

    function PropagateFailure<U>(): Result<U>
      requires Err?
    {
      Err(error)
    }

    function Extract(): T
      requires Ok?
    {
      value
    }
  }
}
