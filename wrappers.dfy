/** Failure-carrying datatypes shared by the pipeline modules, and the
    exceptions the pipeline raises, named after the Python exception types. */
module Wrappers {

  datatype Option<+T> = None | Some(value: T) {
    /** The value, or `default` when there is none (Python's `d.get(k, default)`). */
    function GetOr(default: T): T {
      match this
      case Some(v) => v
      case None => default
    }
  }

  datatype Result<+R, +E> = Success(value: R) | Failure(error: E)

  /** The exceptions the core raises or lets through.
      `DecodeError` is `json.JSONDecodeError`; its message comes from the
      parser, which is not part of this model. */
  datatype Error =
    | ValueError(message: string)
    | RuntimeError(message: string)
    | KeyError(key: string)
    | DecodeError
}
