/** Option and Result, used for the places where the Python code either yields a
    value or raises, and the option-to-sequence helper the node modules share. */
module Wrappers {

  datatype Option<+T> = None | Some(value: T)

  datatype Result<+T, +E> = Ok(value: T) | Err(error: E)

  /** An optional value as a sequence of at most one element. */
  function Listed<T>(o: Option<T>): seq<T> {
    if o.Some? then [o.value] else []
  }
}
