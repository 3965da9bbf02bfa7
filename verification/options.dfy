/** The optional value used for request-body fields that may be absent. */
module Options {

  /** `None` is an absent JSON field, `Some(v)` a field that carries `v`. */
  datatype Option<+T> = None | Some(value: T) {

    /** The carried value, or `default` when the field is absent. */
    function GetOr(default: T): T {
      match this
      case Some(v) => v
      case None => default
    }
  }
}
