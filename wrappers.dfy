/** The optional value used for the interpreter's last-instruction marker and
    for searches that may fail. */
module Wrappers {
  datatype Option<+T> = None | Some(value: T)
}
