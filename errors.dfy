/** `Option`, as in Rust's standard library. */
module Wrappers {
  datatype Option<+T> = None | Some(value: T)
}

/**
 * The error type of the library (src/error.rs) and the result type every
 * fallible operation returns.
 */
module Errors {

  datatype EnvError =
    | GenericDeserialization(message: string)
    | UnsupportedValue
    | InvalidNestedValues
    | InvalidEnvNesting(path: seq<string>)

  datatype Result<+T> = Ok(value: T) | Err(error: EnvError)

  /** `serde::de::Error::custom`: every complaint of the decoding machinery becomes a generic error. */
  function Custom(message: string): (e: EnvError)
    ensures e.GenericDeserialization? && e.message == message
  {
    GenericDeserialization(message)
  }
}
