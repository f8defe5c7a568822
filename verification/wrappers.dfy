/** The optional value used throughout the model: `None` stands for a JavaScript
    `undefined`/`null` (an absent optional field, a missing argument), `Some(v)`
    for a present one. */
module Wrappers {

  datatype Option<+T> = None | Some(value: T) {

    /** The value if present, otherwise `default` (JavaScript's `x ?? default`). */
    function GetOr(default: T): T {
      match this
      case Some(v) => v
      case None => default
    }
  }
}
