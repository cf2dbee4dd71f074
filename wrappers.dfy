/** The optional value used throughout the model for JavaScript's optional
    properties and for results that may be absent. */
module Wrappers {
  datatype Option<+T> = None | Some(value: T)
}
