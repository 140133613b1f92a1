/** The Option datatype used for the nullable fields of the JavaScript records. */
module Wrappers {

  datatype Option<T> = None | Some(value: T) {

    /** Returns the value in Some, or `default` if None. */
    function GetOr(default: T): T {
      match this
      case Some(v) => v
      case None => default
    }

    /** JavaScript's `a ?? b` on a nullable value: the first non-null of the two. */
    function OrElse(other: Option<T>): Option<T> {
      if Some? then this else other
    }
  }
}
