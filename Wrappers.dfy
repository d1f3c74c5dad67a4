/** Option and Result values: `None` stands for a Java `null` result, `Failure`
    for an exception that ends an operation. */
module Wrappers {

  datatype Option<+T> = None | Some(value: T)

  datatype Result<+T, +E> = Success(value: T) | Failure(error: E)
}
