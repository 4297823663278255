/** Failure-compatible wrappers shared by every module of the editor model.
    `None` stands for JavaScript's `null`/`undefined`; `Failure` for a thrown error. */
module Options {

  datatype Option<+T> = None | Some(value: T) {
    /** `this || fallback` for an object-valued option (objects are always truthy). */
    function OrElse(fallback: T): T {
      match this
      case Some(v) => v
      case None => fallback
    }
  }

  datatype Result<+T> = Success(value: T) | Failure(error: string) {
    predicate IsFailure() {
      Failure?
    }
  }
}
