/** A value that may be absent: a JSON key that is missing, or Python's `None`. */
module Options {

  datatype Option<+T> = None | Some(value: T) {

    /** The value, or `default` when it is absent, as `dict.get(key, default)` gives it. */
    function GetOr(default: T): T {
      match this
      case Some(v) => v
      case None => default
    }
  }
}
