/** The optional value used for the kernel's nullable pointers. */
module Wrappers {

  datatype Option<+T> = None | Some(value: T)
}
