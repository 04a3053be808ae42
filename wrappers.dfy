/** The two failure-carrying value types the model uses in place of the
    source's `Option` and `Result`. */
module Wrappers {

  datatype Option<+T> = None | Some(value: T)

  datatype Result<+T, +E> = Ok(value: T) | Err(error: E)

  /** The items an iterator step yields: none for `None`, one for `Some`. */
  function Emitted<T>(r: Option<T>): seq<T>
  {
    if r.Some? then [r.value] else []
  }
}
