/** Kotlin's nullable types, as an Option datatype. */
module Wrappers {

  /** `None` stands for Kotlin's `null`; `Some(v)` for a non-null value `v`. */
  datatype Option<+T> = None | Some(value: T)
}
