/** A value that may be absent: the model of TypeScript's `T | null`. */
module Wrappers {

  datatype Option<+T> = None | Some(value: T)
}
