/** A value that may be missing: a JavaScript `undefined`, an absent argument. */
module Optional {

  datatype Option<T> = None | Some(value: T) {

    /** The value, or `default` when it is missing (a JavaScript default parameter). */
    function GetOr(default: T): T {
      match this
      case Some(v) => v
      case None => default
    }
  }
}
