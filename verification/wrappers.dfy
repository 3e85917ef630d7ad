/** The optional value used where the Python code may hold `None`. */
module Wrappers {
  datatype Option<+T> = None | Some(value: T)
}
