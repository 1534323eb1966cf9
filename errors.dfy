/** The crate's error type (src/error.rs): a flat enumeration of kinds, its
    `Display` text and its `std::error::Error::source`. */
module Errors {
  import opened Wrappers

  /** A `serde_json::Error`. Its internals belong to another crate; the model
      keeps only the text its `Display` produces. */
  datatype JsonError = JsonError(message: string)

  datatype Error =
    | InvalidCode
    | CodeNotFound
    | Serialize(cause: JsonError)
    | Deserialize(cause: JsonError)
    | Other(text: string)

  /** `impl Display for Error`: the message written to the formatter. */
  function Display(e: Error): (msg: string)
    ensures e == InvalidCode ==> msg == "invalid code"
    ensures e == CodeNotFound ==> msg == "code not found"
    ensures e.Other? ==> msg == e.text
    ensures e.Serialize? || e.Deserialize? ==> msg == e.cause.message
  {
    match e
    case InvalidCode => "invalid code"
    case CodeNotFound => "code not found"
    case Serialize(cause) => cause.message
    case Deserialize(cause) => cause.message
    case Other(text) => text
  }

  /** `impl std::error::Error for Error`: the wrapped lower-level error, if any. */
  function Source(e: Error): (r: Option<JsonError>)
    ensures r.Some? <==> e.Serialize? || e.Deserialize?
    ensures r.Some? ==> r.value == e.cause
  {
    match e
    case Serialize(cause) => Some(cause)
    case Deserialize(cause) => Some(cause)
    case _ => None
  }

  /** An error that has a source displays as that source does; the errors
      without one are exactly the crate's own kinds. */
  lemma DisplayFollowsSource(e: Error)
    ensures Source(e).Some? ==> Display(e) == Source(e).value.message
    ensures Source(e).None? <==> e == InvalidCode || e == CodeNotFound || e.Other?
  {
  }

  /** The two fixed messages tell the two input-rejection kinds apart. */
  lemma FixedMessagesDiffer()
    ensures Display(InvalidCode) != Display(CodeNotFound)
  {
    assert Display(InvalidCode)[0] == 'i';
  }
}
