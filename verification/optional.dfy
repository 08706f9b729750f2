/** A value that may be absent: a DOM element or attribute that is not on the
    page, or a `parseInt` result that is `NaN`. */
module Optional {

  datatype Option<+T> = None | Some(value: T) {

    /** The wrapped value, or `default` when absent. */
    function GetOr(default: T): T {
      match this
      case Some(v) => v
      case None => default
    }
  }
}
