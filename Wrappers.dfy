/** Tagged success/failure values, standing for the `Result` type the system
    returns from every fallible operation, and an optional value standing for
    a nullable Kotlin reference. */
module Wrappers {

  datatype Option<+T> = None | Some(value: T)

  datatype Result<+T, +E> = Ok(value: T) | Err(error: E)
}
