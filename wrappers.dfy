/** A C# string reference that may be null is an Option<string>: None is null. */
module Wrappers {
  datatype Option<+T> = None | Some(value: T)
}
