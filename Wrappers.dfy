/** An optional value: the model's stand-in for a Java reference that may be null,
    and for a computation that may end in an exception. */
module Wrappers {

  datatype Option<+T> = None | Some(value: T)
}
