/** Option, and a Result carrying the library's sentinel errors (internal/util/errors.go). */
module Wrappers {
  datatype Option<+T> = None | Some(value: T)

  datatype Error =
    | Truncated
    | BadMagic
    | UnsupportedVersion
    | Checksum
    | Corrupt
    | LimitExceeded
    | UnknownEncoding
    | UnknownCompression
    | SchemaError
    | SinkFailure   // an error of the underlying io.Writer
    | Closed        // append after close
    | OutOfMemory   // no outcome at all: the process dies building a slice longer than any can be

  datatype Result<+T> = Ok(value: T) | Err(error: Error) {
    predicate IsFailure() {
      Err?
    }

    function PropagateFailure<U>(): Result<U>
      requires Err?
    {
      Err(error)
    }

    function Extract(): T
      requires Ok?
    {
      value
    }
  }

  datatype Outcome = Pass | Fail(error: Error) {
    predicate IsFailure() {
      Fail?
    }

    function PropagateFailure<U>(): Result<U>
      requires Fail?
    {
      Err(error)
    }
  }
}
