/** The optional-value datatype the model uses for a handle that may be unset,
    a configuration key that may be missing, and a parse that may fail. */
module Optional {

  datatype Option<+T> = None | Some(value: T) {

    /** The value, or `default` when there is none. */
    function GetOr(default: T): T {
      match this
      case Some(v) => v
      case None => default
    }
  }
}
