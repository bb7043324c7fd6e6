/** Java's null references and Java's exceptions, written as values. */
module Errors {

  /** A Java reference of type T: None is `null`. It is also what a cleared
      slot of the backing array holds. */
  datatype Option<T> = None | Some(value: T)

  /** The exceptions the list and its helpers can throw. */
  datatype Error =
    | IllegalArgument        // a negative initial capacity
    | IndexOutOfBounds       // an index check of the list itself failed
    | ArrayIndexOutOfBounds  // the JVM refused an array access or a System.arraycopy

  /** The outcome of a `void` Java method: it returned, or it threw. */
  datatype Outcome = Pass | Fail(error: Error)

  /** The outcome of a value-returning Java method. */
  datatype Result<T> = Success(value: T) | Failure(error: Error)
}
