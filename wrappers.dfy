/** The optional-value datatype shared by the decoder and the reply rule. */
module Wrappers {

  datatype Option<+T> = None | Some(value: T)
}
