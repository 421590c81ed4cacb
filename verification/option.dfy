/** The optional value used across the model: JavaScript's `undefined`/`null`
    results, `NaN` from parsing, and "the expression threw" are all absences
    of a value of some type. */
module Maybe {

  datatype Option<+T> = None | Some(value: T) {

    /** The wrapped value, or `default` when there is none (JavaScript's `x ?? d`). */
    function GetOr(default: T): T {
      match this
      case Some(v) => v
      case None => default
    }
  }
}
