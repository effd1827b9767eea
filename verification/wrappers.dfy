/** The optional-value type used for "the pattern did not match". */
module Wrappers {

  datatype Option<T> = None | Some(value: T)
}
