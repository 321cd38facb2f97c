/** The optional-value wrapper used for JavaScript's `null` results and rejected updates. */
module Wrappers {
  datatype Option<+T> = None | Some(value: T)
}
