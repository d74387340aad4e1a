/** The optional value used for the searches and lookups of the model. */
module Wrappers {
  datatype Option<+T> = None | Some(value: T)
}
