/** A value that may be missing: SQL NULL, a JavaScript `null`/`undefined`, or a lookup with no row. */
module Optional {

  datatype Option<+T> = None | Some(value: T) {

    /** The wrapped value, or `default` when there is none. */
    function GetOr(default: T): T {
      match this
      case Some(v) => v
      case None => default
    }
  }
}
