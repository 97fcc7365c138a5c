/** Failure-compatible wrappers used throughout the model.

    `Option` doubles as JavaScript's `undefined`: a value that the source reads
    past the end of a list, or a key it never assigned, is `None`.
    `Result` stands for a thrown error: the source's `KousuError`/`AppError`
    and the `TypeError`s JavaScript raises are all `Failure`s.
 */
module Wrappers {

  datatype Option<+T> = None | Some(value: T) {
    predicate IsFailure() {
      None?
    }

    function PropagateFailure<U>(): Option<U>
      requires None?
    {
      None
    }

    function Extract(): T
      requires Some?
    {
      value
    }

    function GetOr(default: T): T {
      match this
      case Some(v) => v
      case None => default
    }
  }

  datatype Result<+T, +E> = Success(value: T) | Failure(error: E) {
    predicate IsFailure() {
      Failure?
    }

    function PropagateFailure<U>(): Result<U, E>
      requires Failure?
    {
      Failure(error)
    }

    function Extract(): T
      requires Success?
    {
      value
    }
  }

  /** Used with `:-` to turn a failed check into a `Failure`. */
  datatype Check<+E> = Pass | Fail(error: E) {
    predicate IsFailure() {
      Fail?
    }

    function PropagateFailure<U>(): Result<U, E>
      requires Fail?
    {
      Failure(error)
    }
  }

  function Need<E>(condition: bool, error: E): (r: Check<E>)
    ensures r.Pass? <==> condition
  {
    if condition then Pass else Fail(error)
  }
}
