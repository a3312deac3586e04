/** The optional-value type used for results that can fail. */
module Wrappers {

  /** Either no value (a failure that carries no detail) or a value. */
  datatype Option<+T> = None | Some(value: T)
}
