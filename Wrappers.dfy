/** The optional-value type used where a computation may have no answer. */
module Wrappers {

  datatype Option<+T> = None | Some(value: T)
}
