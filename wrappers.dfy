/** The optional value used for every recognizer result: `None` stands for any failure. */
module Wrappers {
  datatype Option<+T> = None | Some(value: T)
}
