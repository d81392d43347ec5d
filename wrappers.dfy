/** The optional value used for the source's "-1 on failure" returns. */
module Wrappers {

  datatype Option<+T> = None | Some(value: T)
}
