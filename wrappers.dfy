/** The usual Some/None datatype, used for the parsers that invert the greetings. */
module Wrappers {

  datatype Option<+T> = None | Some(value: T)
}
