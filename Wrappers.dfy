/** Option stands for a Java reference that may be null; the model's
    operations return None where the source returns null. */
module Wrappers {

  datatype Option<+T> = None | Some(value: T)

  /** The exception a Java method throws instead of returning a value. */
  datatype Error = IllegalArgument | NullPointer

  /** A Java call that either returns a value or throws. */
  datatype Result<+R> = Success(value: R) | Failure(error: Error)
}
