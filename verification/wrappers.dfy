/** The Some/None datatype used wherever the program has a value that may be
    missing: a cell `parseFloat` could not read (JavaScript's NaN), an inverse
    that does not exist (`null`), a random source that has run dry. */
module Wrappers {

  datatype Option<+T> = None | Some(value: T) {

    /** The encapsulated value, or `default` when there is none. */
    function GetOr(default: T): T {
      match this
      case Some(v) => v
      case None => default
    }
  }
}
