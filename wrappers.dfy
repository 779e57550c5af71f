/** Stands for Java's `null` returns. */
module Wrappers {

  /** A value that may be missing; `None` models a Java `null`. */
  datatype Option<+T> = None | Some(value: T)
}
