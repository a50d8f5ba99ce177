/** The optional-value datatype shared by every module of the model. */
module Wrappers {

  /** Rust's `Option`, TypeScript's `T | null`. */
  datatype Option<+T> = None | Some(value: T) {

    /** `Option::or_else`: this value if there is one, otherwise `other`. */
    function OrElse(other: Option<T>): Option<T> {
      if Some? then this else other
    }

    /** `Option::unwrap_or`: the value, or `default` for `None`. */
    function UnwrapOr(default: T): T {
      match this
      case Some(v) => v
      case None => default
    }
  }
}
