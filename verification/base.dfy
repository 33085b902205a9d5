/** Shared option type: the model's stand-in for JavaScript's `undefined`/`null` fields. */
module Base {

  datatype Option<+T> = None | Some(value: T) {

    /** The wrapped value, or `default` when absent. */
    function GetOr(default: T): T {
      match this
      case Some(v) => v
      case None => default
    }
  }
}
