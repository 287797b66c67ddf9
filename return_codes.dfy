/** The status codes the converter's functions return (the codes of
    return_codes.h that the decoding core produces), and a result type that
    carries either a value or one of the error codes. */
module ReturnCodes {

  datatype ReturnCode =
    | Success
    | ErrorDataInvalid   // malformed or truncated PNG data
    | ErrorUnsupported   // a valid PNG using a feature the converter lacks
    | ErrorOutOfMemory   // an allocation failed (never produced by this model)

  /** A return code other than Success. */
  type ErrorCode = c: ReturnCode | c != Success witness ErrorDataInvalid

  datatype Option<+T> = None | Some(value: T)

  /** Either the value an operation produced or the code it failed with. */
  datatype Result<+T> = Ok(value: T) | Err(error: ErrorCode) {

    predicate IsFailure() {
      Err?
    }

    function PropagateFailure<U>(): Result<U>
      requires Err?
    {
      Err(error)
    }

    function Extract(): T
      requires Ok?
    {
      value
    }
  }
}
