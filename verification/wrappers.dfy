/** Wrappers shared by the model: an optional value
    (JavaScript's `undefined`/`null` versus a value) and a success/failure
    result (a resolved versus a rejected promise). */
module Wrappers {

  datatype Option<+T> = None | Some(value: T)

  datatype Result<+R, +E> = Success(value: R) | Failure(error: E) {

    /** Keeps the success value and forgets the error. */
    function ToOption(): Option<R> {
      match this
      case Success(v) => Some(v)
      case Failure(_) => None
    }
  }
}
