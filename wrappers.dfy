/** The optional value returned by the decoders of this model. */
module Wrappers {
  datatype Option<+T> = None | Some(value: T)
}
