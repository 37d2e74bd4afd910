/** The optional-value type shared by the decoder interface and the hex inverse. */
module Wrappers {

  datatype Option<+T> = None | Some(value: T)
}
