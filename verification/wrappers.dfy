/** Option and Result datatypes shared by the other modules.
    `Option` stands for a JavaScript value that may be `NaN` (or absent);
    `Result` stands for an operation that either completes or shows an error toast. */
module Wrappers {

  datatype Option<+T> = None | Some(value: T)

  datatype Result<+R, +E> = Success(value: R) | Failure(error: E)
}
