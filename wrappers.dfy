// Optional values and results with an error, used wherever the C code returns
// NULL, false or a negative errno instead of a value.

module Wrappers {

  datatype Option<T> = None | Some(value: T)

  datatype Result<T, E> = Ok(value: T) | Err(error: E)
}
