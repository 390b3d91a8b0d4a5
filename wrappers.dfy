/** An optional value: a regex search that may find nothing, a line index
    that may not exist. */
module Wrappers {

  datatype Option<+T> = None | Some(value: T)
}
