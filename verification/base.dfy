/** Nullable values and error-carrying results shared by every module.
    Java's `null` becomes `None`; a thrown, domain-level exception becomes `Err`. */
module Base {

  datatype Option<+T> = None | Some(value: T) {
    /** The wrapped value, or `default` when absent (Java's `x != null ? x : default`). */
    function GetOr(default: T): T {
      match this
      case Some(v) => v
      case None => default
    }
  }

  datatype Result<+T, +E> = Ok(value: T) | Err(error: E)

  /** A null-means-unchanged field update: a present patch replaces the current value. */
  function Patch<T>(patch: Option<T>, current: T): T {
    patch.GetOr(current)
  }

  /** The same update for a field that may itself be null. */
  function PatchNullable<T>(patch: Option<T>, current: Option<T>): Option<T> {
    if patch.Some? then patch else current
  }
}
