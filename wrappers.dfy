/** The optional value used for a serial line that may fail to decode. */
module Wrappers {

  datatype Option<+T> = None | Some(value: T)
}
