/** The optional-value datatype shared by every module of the model. */
module Wrappers {

  /** `None` stands for Go's `(zero, false)` / `err != nil` and for a
      JavaScript `undefined`; `Some` carries the value that was produced. */
  datatype Option<+T> = None | Some(value: T) {

    /** Returns the carried value, or `default` for `None`. */
    function GetOr(default: T): T {
      match this
      case Some(v) => v
      case None => default
    }
  }
}
