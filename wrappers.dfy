/** The optional value used for the session's `user` entry and for the
    results file, which may be absent. */
module Wrappers {

  datatype Option<+T> = None | Some(value: T)
}
