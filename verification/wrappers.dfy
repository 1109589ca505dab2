/** The optional value used where the C program uses a NULL pointer. */
module Wrappers {

  datatype Option<+T> = None | Some(value: T)
}
