/** A value that may be absent: the model's stand-in for an optional JSX attribute or child. */
module Wrappers {

  datatype Option<+T> = None | Some(value: T)
}
