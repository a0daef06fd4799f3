/** The failure-compatible option type used wherever the source returns `null`. */
module Wrappers {

  datatype Option<+T> = None | Some(value: T)
}
