/** Failure-compatible wrappers for the controllers' answers.

    Every controller operation either produces a value or raises an
    `ErrorHandler` carrying an HTTP-style status; `Result` models both. */
module Outcomes {

  /** The error statuses the controllers raise. `ServerError` also stands
      for a JavaScript `TypeError` escaping a handler. */
  datatype Failure = BadRequest | Unauthorized | NotFound | ServerError
  {
    function Status(): nat
    {
      match this
      case BadRequest => 400
      case Unauthorized => 401
      case NotFound => 404
      case ServerError => 500
    }
  }

  /** A value, or the failure raised before it could be produced. */
  datatype Result<+T> = Ok(value: T) | Err(error: Failure)
  {
    predicate IsFailure()
    {
      Err?
    }

    function PropagateFailure<U>(): Result<U>
      requires Err?
    {
      Err(error)
    }

    function Extract(): T
      requires Ok?
    {
      value
    }
  }

  /** An optional value: an absent vote, an absent poll hint, an absent
      delegated id. */
  datatype Option<+T> = None | Some(value: T)
}
