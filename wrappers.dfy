/** The optional value used for SQL NULL, an absent uploaded file and a JavaScript `undefined`. */
module Wrappers {

  datatype Option<+T> = None | Some(value: T) {

    /** The value inside `Some`, or `default` for `None`. */
    function GetOr(default: T): T {
      match this
      case Some(v) => v
      case None => default
    }
  }
}
