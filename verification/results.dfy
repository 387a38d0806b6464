/** Failure-carrying result types: the model's replacement for the
    `breakpoint()` halts and uncaught lookup errors of pyunhrcnominate. */
module Results {

  /** An optional value; `None` is the "no such value" case. */
  datatype Option<+T> = None | Some(value: T) {

    /** The carried value, or `default` when there is none. */
    function GetOr(default: T): T {
      match this
      case Some(v) => v
      case None => default
    }
  }

  /** Either a computed value or the error that stopped the computation. */
  datatype Result<+T, +E> = Success(value: T) | Failure(error: E)
}
