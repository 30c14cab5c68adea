/** A value that may be absent: Python's `None` against a present value. */
module Maybe {

  datatype Option<T> = None | Some(value: T) {

    /** The present value, or `default` when absent (`dict.get(key, default)`). */
    function GetOr(default: T): T {
      match this
      case Some(v) => v
      case None => default
    }
  }
}
