/** The optional value used for every nullable reference of the document manager. */
module Wrappers {

  /** `None` stands for a Java `null` (or an empty `Optional`). */
  datatype Option<+T> = None | Some(value: T) {

    /** The value, or `default` when absent (Java's `Optional.orElse`). */
    function GetOr(default: T): T {
      match this
      case Some(v) => v
      case None => default
    }
  }
}
