/** An optional value: a JavaScript property that is either supplied or left out. */
module Wrappers {

  datatype Option<+T> = None | Some(value: T) {

    /** The value when supplied, `default` otherwise. */
    function GetOr(default: T): T {
      match this
      case Some(v) => v
      case None => default
    }
  }
}
