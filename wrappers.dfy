/** The optional value the model uses for settings keys that may be absent. */
module Wrappers {

  datatype Option<+T> = None | Some(value: T)
}
