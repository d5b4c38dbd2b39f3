/** Small value types shared by the two containers. */
module Wrappers {

  /** A slot of the queue's backing list: Python's None, or an element. */
  datatype Option<T> = None | Some(value: T)

  /** The outcome of an access that fails on an empty container. */
  datatype Result<T, E> = Success(value: T) | Failure(error: E)

  /** The error raised by first/dequeue/top/pop on an empty container, with its message. */
  datatype Empty = Empty(message: string)
}
