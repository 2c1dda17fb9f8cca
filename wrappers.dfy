/** The usual optional-value datatype: `None` stands for a JavaScript value
    that is `undefined`, `null` or otherwise missing. */
module Wrappers {

  datatype Option<+T> = None | Some(value: T) {

    /** The wrapped value, or `default` when there is none. */
    function GetOr(default: T): T {
      match this
      case Some(v) => v
      case None => default
    }
  }
}
