/** Values that stand for Java's null and for the exceptions the queue throws. */
module Outcomes {

  /** An argument that may be null: `None` is Java's `null`. */
  datatype Option<+T> = None | Some(value: T)

  /** The two exceptions the queue and the stack raise. */
  datatype Error =
    | IllegalArgument  // IllegalArgumentException: a null element was offered
    | NoSuchElement    // NoSuchElementException: head or deQueue on an empty queue

  /** Either the value an operation returns or the exception it throws. */
  datatype Result<+R> = Success(value: R) | Failure(error: Error)
}
