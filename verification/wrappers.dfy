/** Option values stand in for the Python `None` results and for the
    exceptions the tracker swallows and turns into `None`. */
module Wrappers {

  datatype Option<+T> = None | Some(value: T)
}
