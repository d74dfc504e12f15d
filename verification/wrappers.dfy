/** A value that may be missing: a parse that can fail, a query that can fail. */
module Wrappers {

  datatype Option<+T> = None | Some(value: T)

}
