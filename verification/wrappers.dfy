/** Small value types shared by the list and the sort utility: an optional value
    standing for a Java reference that may be null, and the exceptions the core
    throws, as error values. */
module Wrappers {

  /** `None` plays the role of Java's `null`. */
  datatype Option<+T> = None | Some(value: T)

  /** The two exceptions the core throws on its own account. */
  datatype Error =
    | IndexOutOfBounds  // java.lang.IndexOutOfBoundsException from Objects.checkIndex
    | NullPointer       // java.lang.NullPointerException

  /** The result of an operation that returns a value or throws. */
  datatype Result<+R> = Ok(value: R) | Err(error: Error)

  /** The result of a `void` operation that may throw. */
  datatype Outcome = Done | Fail(error: Error)
}
