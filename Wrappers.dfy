/** Option and Result: Java's `null` and checked-exception paths as values. */
module Wrappers {

  /** `None` stands for a Java `null` reference. */
  datatype Option<+T> = None | Some(value: T)

  /** `Failure` stands for a thrown (and caught) exception. */
  datatype Result<+R, +E> = Success(value: R) | Failure(error: E)
}
