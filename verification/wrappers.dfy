/** The optional values the scraper works with: an HTML element or attribute
    that may be missing, a regular-expression match that may fail. */
module Wrappers {

  datatype Option<+T> = None | Some(value: T) {

    /** The value, or `default` when there is none (Python's `x if x else d`,
        `tag.get(attr, d)`). */
    function GetOr(default: T): T {
      match this
      case Some(v) => v
      case None => default
    }
  }
}
