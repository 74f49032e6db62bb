/** The Java null reference, for the few operations that test for it. */
module Wrappers {

  datatype Option<+T> = None | Some(value: T)
}
