/** The absence marker the engine returns instead of throwing. */
module Wrappers {
  datatype Option<+T> = None | Some(value: T)
}
