/** The optional value that stands for Python's `None` alongside a real value. */
module Wrappers {

  datatype Option<+T> = None | Some(value: T)

}
