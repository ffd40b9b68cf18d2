/** Datatypes shared by the models. */
module Wrappers {
  /** A value that may be absent. */
  datatype Option<+T> = None | Some(value: T) {
    function UnwrapOr(default: T): T {
      if Some? then value else default
    }
  }
}
