/** The absent-or-present value used throughout the model in place of
    JavaScript's `null` / `undefined` results. */
module Optional {

  datatype Option<+T> = None | Some(value: T) {

    /** Returns the value in Some, or the default when None. */
    function GetOr(default: T): T {
      match this
      case Some(v) => v
      case None => default
    }
  }
}
