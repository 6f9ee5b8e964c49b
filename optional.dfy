/** The NULL-or-value pointers of the C code: a `char *` that may be NULL
    becomes an `Option<string>`. */
module Optional {

  datatype Option<+T> = None | Some(value: T) {

    /** The `p ?: default` idiom of the C code. */
    function GetOr(default: T): T {
      match this
      case Some(v) => v
      case None => default
    }
  }
}
