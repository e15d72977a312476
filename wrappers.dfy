/** Rust's `Option<T>`, used for optional selector filters and map lookups. */
module Wrappers {

  datatype Option<+T> = None | Some(value: T) {

    /**
     * `Option::unwrap_or_else` with a closure that only yields a value: the
     * carried value, or `default` when absent. Evaluating the default eagerly
     * changes nothing here, since computing it has no effect.
     */
    function GetOr(default: T): (r: T)
      ensures Some? ==> r == value
      ensures None? ==> r == default
    {
      match this
      case Some(v) => v
      case None => default
    }
  }
}
