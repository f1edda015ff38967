/** The optional value used for the car's nullable `Direction?` and for "no candidate car". */
module Wrappers {

  datatype Option<+T> = None | Some(value: T)
}
