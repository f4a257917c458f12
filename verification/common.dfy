/** Small shared vocabulary: Kotlin's nullable values and the two tagged outcomes the core deals with. */
module Common {

  /** A Kotlin `T?`: either absent (`null`) or a present value. */
  datatype Option<+T> = None | Some(value: T) {

    /** Kotlin's elvis operator `this ?: default`. */
    function OrElse(default: T): T {
      match this
      case Some(v) => v
      case None => default
    }
  }

  /** Outcome of reading structured wire data: a value, or the reason it could not be read. */
  datatype Result<+T, +E> = Ok(value: T) | Err(error: E) {

    predicate IsFailure() {
      Err?
    }

    function PropagateFailure<U>(): Result<U, E>
      requires Err?
    {
      Err(error)
    }

    function Extract(): T
      requires Ok?
    {
      value
    }
  }
}

/** The two-variant outcome the remote client hands back (`com.ghostly.network.models.Result`). */
module Network {
  import opened Common

  /** `Success(data)` or `Error(message)`; both payloads are nullable on the Kotlin side. */
  datatype Result<+T> = Success(data: T) | Error(message: Option<string>)
}
