/** Failure-carrying results shared by every container of the engine. */
module Wrappers {

  /** The exceptions the containers raise. */
  datatype Error =
    | NoSuchKey          // misc.exceptions.NoSuchKeyException
    | NoSuchElement      // java.util.NoSuchElementException
    | EmptyContainer     // misc.exceptions.EmptyContainerException
    | IllegalArgument    // java.lang.IllegalArgumentException
    | IndexOutOfBounds   // IndexOutOfBoundsException / ArrayIndexOutOfBoundsException
    | NullPointer        // java.lang.NullPointerException

  /** A Java reference that may be null: `None` is null. */
  datatype Option<+T> = None | Some(value: T)

  /** The value a Java method returns, or the exception it throws. */
  datatype Result<+R> = Success(value: R) | Failure(error: Error)

  /** The outcome of a Java `void` method: it returns, or it throws. */
  datatype Outcome = Pass | Fail(error: Error)
}
