/** Option stands for the nullable references of the original code. */
module Wrappers {

  datatype Option<+T> = None | Some(value: T)
}
