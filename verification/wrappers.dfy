/** The conventional optional value, used for "no match here" and "script does not apply". */
module Wrappers {

  datatype Option<+T> = None | Some(value: T)
}
