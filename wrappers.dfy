/** The optional-value type used for coercion results and absent selections. */
module Wrappers {
  datatype Option<+T> = None | Some(value: T)
}
