/** The two stock result types the models share. */
module Wrappers {
  datatype Option<+T> = None | Some(value: T)
}
