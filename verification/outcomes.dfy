/** Values standing for Java's `null` and for the exceptions the collections throw. */
module Outcomes {

  /** A field that Java leaves `null` until it is first needed. */
  datatype Option<+T> = None | Some(value: T)

  /** The exceptions thrown by the stack, the queue and their iterators. */
  datatype Error =
    | EmptyStackException      // pop/peek on an empty stack, head/deQueue on an empty queue
    | NoSuchElementException   // next() on an exhausted iterator

  /** The outcome of an operation that either returns a value or throws. */
  datatype Result<+T> = Ok(value: T) | Err(error: Error)
}
