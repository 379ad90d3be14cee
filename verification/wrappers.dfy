/** Failure-compatible result type used for the exceptions the modelled code raises. */
module Wrappers {

  datatype Option<+T> = None | Some(value: T)

  /** Either a computed value or the error the operation raised. */
  datatype Result<+T, +E> = Success(value: T) | Failure(error: E) {

    predicate IsFailure() {
      Failure?
    }

    function PropagateFailure<U>(): Result<U, E>
      requires Failure?
    {
      Failure(error)
    }

    function Extract(): T
      requires Success?
    {
      value
    }
  }
}

/** The exceptions raised by the modelled code, one constructor per raise site kind. */
module Errors {

  datatype Error =
    /** networkx raises NetworkXError when asked for the neighbours of an absent node. */
    | UnknownNode(node: nat)
    /** The `['timestamp']` lookup on an edge without that attribute raises KeyError. */
    | MissingTimestamp
    /** compute_all_scores: a non-empty timestamp list of the wrong length (ValueError). */
    | LengthMismatch
    /** The data loader was asked to process before any data was loaded (ValueError). */
    | DataNotLoaded
}
