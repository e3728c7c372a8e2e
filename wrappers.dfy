/** The usual Some/None wrapper, used for results that may be absent
    (a payload field that did not parse, a queue receive that would block). */
module Wrappers {
  datatype Option<+T> = None | Some(value: T)
}
