/** The optional value used for the name table's answer and for decoders that may fail. */
module Wrappers {

  datatype Option<+T> = None | Some(value: T)
}
