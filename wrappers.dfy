/** The optional value used for results that may be absent (a NULL pointer
    in the C code). */
module Wrappers {

  datatype Option<+T> = None | Some(value: T)
}
