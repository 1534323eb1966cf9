/** Option, Result and the outcome of an `unwrap`, as the library's callers see them. */
module Wrappers {

  /** Rust's `Option<T>`. */
  datatype Option<+T> = None | Some(value: T)

  /** Rust's `Result<T, E>`; the crate's own `Result<T>` fixes `E` to its `Error`. */
  datatype Result<+T, +E> = Ok(value: T) | Err(error: E)

  /** What a call that ends in `unwrap()` does: it returns a value or it panics. */
  datatype Panicking<+T> = Returned(value: T) | Panic

  /** `Result::unwrap`: the success value, or a panic on an error. */
  function Unwrap<T, E>(r: Result<T, E>): (p: Panicking<T>)
    ensures p.Panic? <==> r.Err?
    ensures r.Ok? ==> p == Returned(r.value)
  {
    match r
    case Ok(v) => Returned(v)
    case Err(_) => Panic
  }
}
