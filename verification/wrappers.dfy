/** Failure-carrying datatypes shared by the whole model. */
module Wrappers {

  /** An optional value; `None` stands for an annotation that is absent or a
      setting left at its default. */
  datatype Option<+T> = None | Some(value: T)

  /** The outcome of a step that may fail with an error of type `E`. */
  datatype Result<+T, +E> = Success(value: T) | Failure(error: E)
}
