/** The optional-value datatype used throughout the model. */
module Options {

  /** None stands for Python's `None`, or for an attribute read that raised. */
  datatype Option<+T> = None | Some(value: T) {

    /** The value, or the given default when there is none. */
    function GetOr(default: T): T {
      match this
      case Some(v) => v
      case None => default
    }
  }
}
