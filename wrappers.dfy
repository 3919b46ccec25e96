/** The optional value that stands in for a Java reference that may be null. */
module Wrappers {

  datatype Option<+T> = None | Some(value: T) {

    /** This value if present, otherwise `other` (Java's `x != null ? x : other`). */
    function OrElse(other: Option<T>): Option<T>
    {
      if Some? then this else other
    }
  }
}
