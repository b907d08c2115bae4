/** The optional value used wherever the Java code returns or stores `null`. */
module Wrappers {

  /** `None` stands for a Java `null` reference, `Some(v)` for a non-null one. */
  datatype Option<+T> = None | Some(value: T)
}
