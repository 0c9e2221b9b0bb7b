/** The optional-value datatype used for lookups that may find nothing. */
module Wrappers {

  /** A value that may be absent; stands for JavaScript's `undefined` results. */
  datatype Option<+T> = None | Some(value: T)
}
