/** Result shapes for the list's "no value" returns and the iterator's exceptions. */
module Wrappers {
  /** `None` stands for the `null` the list returns from a peek or remove on an empty list. */
  datatype Option<T> = None | Some(value: T)

  /** A call that either yields a value or fails with one of the exceptions the list can throw. */
  datatype Result<T> = Success(value: T) | Failure(error: Exception)

  /** The two exceptions raised by the list's iterator. */
  datatype Exception =
    | NoSuchElement                       // java.util.NoSuchElementException
    | UnsupportedOperation(message: string) // java.lang.UnsupportedOperationException
}
